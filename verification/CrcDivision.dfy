/**
 * CRC-32 as polynomial division (section 8.1.1.6.2 of ITU-T V.42): the checksum is the complement of
 * the remainder of the message, its first 32 bits inverted, times x^32, modulo the generator.
 */
module CrcDivision {
  import opened ShiftRegister
  import opened Crc32

  // ---------------------------------------------------------------- long division over bits, highest power first

  /** The generator polynomial: which powers of x it has. */
  predicate Generator(e: int) {
    e in {32, 26, 23, 22, 16, 12, 11, 10, 8, 7, 5, 4, 2, 1, 0}
  }

  /** Subtract the generator from the front if the leading coefficient is one, and drop that coefficient. */
  function Reduce(m: Bits): (r: Bits)
    requires |m| > WIDTH
    ensures |r| == |m| - 1
  {
    seq(|m| - 1, j requires 0 <= j < |m| - 1 => m[j + 1] != (m[0] && j < 32 && Generator(31 - j)))
  }

  /** The remainder of polynomial long division. */
  function Remainder(m: Bits): (r: Bits)
    requires |m| >= WIDTH
    ensures |r| == WIDTH
    decreases |m|
  {
    if |m| == WIDTH then m else Remainder(Reduce(m))
  }

  function Zeros(n: nat): (z: Bits)
    ensures |z| == n
  {
    seq(n, _ => false)
  }

  /** Add a to the 32 leading bits of m. */
  function AddTop(a: Bits, m: Bits): (s: Bits)
    requires |a| == WIDTH <= |m|
    ensures |s| == |m|
  {
    seq(|m|, j requires 0 <= j < |m| => m[j] != (j < 32 && a[j]))
  }

  // ---------------------------------------------------------------- the register as coefficients

  /** The register after i shifts to the right. */
  function Shifted(r: bv32, i: nat): bv32 {
    if i == 0 then r else Shifted(Half(r), i - 1)
  }

  predicate Bit(r: bv32, i: nat) {
    Odd(Shifted(r, i))
  }

  /** Bit i of the register is the coefficient of x^(31-i). */
  function Coefficients(r: bv32): (s: Bits)
    ensures |s| == WIDTH
  {
    seq(WIDTH, i requires 0 <= i < WIDTH => Bit(r, i))
  }

  lemma {:induction false} ShiftedXor(a: bv32, b: bv32, i: nat)
    ensures Shifted(Xor(a, b), i) == Xor(Shifted(a, i), Shifted(b, i))
    decreases i
  {
    if i > 0 {
      HalfXor(a, b);
      ShiftedXor(Half(a), Half(b), i - 1);
    }
  }

  lemma BitXor(a: bv32, b: bv32, i: nat)
    ensures Bit(Xor(a, b), i) == (Bit(a, i) != Bit(b, i))
  {
    ShiftedXor(a, b, i);
    OddXor(Shifted(a, i), Shifted(b, i));
  }

  /** From bit i of p on, the bits of r are those of p. */
  ghost predicate Spells(r: bv32, p: int -> bool, i: int)
    decreases WIDTH - i
  {
    i >= WIDTH || (Odd(r) == p(i) && Spells(Half(r), p, i + 1))
  }

  lemma {:induction false} SpelledBit(r: bv32, p: int -> bool, i: int, k: nat)
    requires Spells(r, p, i) && i + k < WIDTH
    ensures Bit(r, k) == p(i + k)
    decreases k
  {
    if k > 0 { SpelledBit(Half(r), p, i + 1, k - 1); }
  }

  function Half4(r: bv32): bv32 {
    Half(Half(Half(Half(r))))
  }

  lemma FourHalves(r: bv32, i: nat)
    ensures Shifted(r, i + 4) == Shifted(Half4(r), i)
  {
    var r1 := Half(r); var r2 := Half(r1); var r3 := Half(r2);
    OneHalf(r, i + 3);
    OneHalf(r1, i + 2);
    OneHalf(r2, i + 1);
    OneHalf(r3, i);
  }

  lemma OneHalf(r: bv32, i: nat)
    ensures Shifted(r, i + 1) == Shifted(Half(r), i)
  {
  }

  lemma ByteHalves(r: bv32)
    ensures Half4(Half4(r)) == DropByte(r)
  {
  }

  lemma ShiftedByte(r: bv32, i: nat)
    ensures Shifted(r, i + 8) == Shifted(DropByte(r), i)
  {
    FourHalves(r, i + 4);
    FourHalves(Half4(r), i);
    ByteHalves(r);
  }

  lemma ShiftedOut(r: bv32, n: nat)
    requires n == 32
    ensures Shifted(r, n) == 0
  {
    var r1 := DropByte(r); var r2 := DropByte(r1); var r3 := DropByte(r2);
    ShiftedByte(r, n - 8);
    ShiftedByte(r1, n - 16);
    ShiftedByte(r2, n - 24);
    ShiftedByte(r3, n - 32);
    FourDrops(r);
  }

  lemma BitHalf(r: bv32, i: nat)
    requires i < WIDTH
    ensures Bit(Half(r), i) == (i < 31 && Bit(r, i + 1))
  {
    if i == 31 {
      ShiftedOut(r, i + 1);
    }
  }

  function AllOnes(): int -> bool {
    (i: int) => true
  }

  /** r is v behind four bits of p, from bit i on. */
  ghost predicate Nibble(r: bv32, v: bv32, p: int -> bool, i: int) {
    && Half4(r) == v
    && Odd(r) == p(i) && Odd(Half(r)) == p(i + 1)
    && Odd(Half(Half(r))) == p(i + 2) && Odd(Half(Half(Half(r)))) == p(i + 3)
  }

  lemma SpellFour(r: bv32, v: bv32, p: int -> bool, i: int)
    requires i + 4 <= WIDTH && Nibble(r, v, p, i) && Spells(v, p, i + 4)
    ensures Spells(r, p, i)
  {
    var r1 := Half(r); var r2 := Half(r1); var r3 := Half(r2);
    assert Spells(r3, p, i + 3);
    assert Spells(r2, p, i + 2);
    assert Spells(r1, p, i + 1);
  }

  lemma SpellAll(r: bv32, r1: bv32, r2: bv32, r3: bv32, r4: bv32, r5: bv32, r6: bv32, r7: bv32, p: int -> bool)
    requires Nibble(r, r1, p, 0) && Nibble(r1, r2, p, 4) && Nibble(r2, r3, p, 8) && Nibble(r3, r4, p, 12)
    requires Nibble(r4, r5, p, 16) && Nibble(r5, r6, p, 20) && Nibble(r6, r7, p, 24) && Nibble(r7, 0, p, 28)
    ensures Spells(r, p, 0)
  {
    SpellFour(r7, 0, p, 28);
    SpellFour(r6, r7, p, 24);
    SpellFour(r5, r6, p, 20);
    SpellFour(r4, r5, p, 16);
    SpellFour(r3, r4, p, 12);
    SpellFour(r2, r3, p, 8);
    SpellFour(r1, r2, p, 4);
    SpellFour(r, r1, p, 0);
  }

  lemma OnesSpelled()
    ensures Spells(0xFFFF_FFFF, AllOnes(), 0)
  {
    SpellAll(0xFFFF_FFFF, 0x0FFF_FFFF, 0x00FF_FFFF, 0x000F_FFFF, 0xFFFF, 0xFFF, 0xFF, 0xF, AllOnes());
  }

  lemma NotXor(a: bv32)
    ensures Not(a) == Xor(a, 0xFFFF_FFFF)
  {
  }

  lemma BitNot(a: bv32, i: nat)
    requires i < WIDTH
    ensures Bit(Not(a), i) == !Bit(a, i)
  {
    NotXor(a);
    BitXor(a, 0xFFFF_FFFF, i);
    OnesSpelled();
    SpelledBit(0xFFFF_FFFF, AllOnes(), 0, i);
  }

  lemma {:induction false} BitOfZero(i: nat)
    ensures !Bit(0, i)
    decreases i
  {
    HalfBit(false);
    if i > 0 { BitOfZero(i - 1); }
  }

  lemma BitValueBit(b: bool, i: nat)
    ensures Bit(BitValue(b), i) == (b && i == 0)
  {
    HalfBit(b);
    if i > 0 { BitOfZero(i - 1); }
  }

  function GeneratorBits(): int -> bool {
    (i: int) => Generator(31 - i)
  }

  lemma PolySpelled()
    ensures Spells(POLY, GeneratorBits(), 0)
  {
    SpellAll(POLY, 0x0EDB_8832, 0x00ED_B883, 0x000E_DB88, 0xEDB8, 0xEDB, 0xED, 0xE, GeneratorBits());
  }

  lemma PolyIsGenerator(i: nat)
    requires i < WIDTH
    ensures Bit(POLY, i) == Generator(31 - i)
  {
    PolySpelled();
    SpelledBit(POLY, GeneratorBits(), 0, i);
  }

  /** One shift of the register, coefficient by coefficient. */
  lemma BitFeed(r: bv32, b: bool, i: int)
    requires 0 <= i < WIDTH
    ensures Bit(FeedBit(Reg(), r, b), i)
         == ((i < 31 && Bit(r, i + 1)) != ((Bit(r, 0) != b) && Generator(31 - i)))
  {
    var x := Xor(r, BitValue(b));
    OddXor(r, BitValue(b));
    HalfBit(b);
    BitHalf(x, i);
    if i < 31 {
      BitXor(r, BitValue(b), i + 1);
      BitValueBit(b, i + 1);
    }
    if Odd(x) {
      BitXor(Half(x), POLY, i);
      PolyIsGenerator(i);
    }
  }

  /** How c' follows from c when bit b is fed. */
  ghost predicate Follows(c: Bits, b: bool, c': Bits)
    requires |c| == |c'| == WIDTH
  {
    forall j :: 0 <= j < WIDTH ==> c'[j] == ((j < 31 && c[j + 1]) != ((c[0] != b) && Generator(31 - j)))
  }

  lemma CoefficientsFollow(r: bv32, b: bool)
    ensures Follows(Coefficients(r), b, Coefficients(FeedBit(Reg(), r, b)))
  {
    var r' := FeedBit(Reg(), r, b);
    forall j | 0 <= j < WIDTH
      ensures Bit(r', j) == ((j < 31 && Bit(r, j + 1)) != ((Bit(r, 0) != b) && Generator(31 - j)))
    {
      BitFeed(r, b, j);
    }
    BitsFollow(r, b, r');
  }

  lemma BitsFollow(r: bv32, b: bool, r': bv32)
    requires forall j :: 0 <= j < WIDTH ==>
      Bit(r', j) == ((j < 31 && Bit(r, j + 1)) != ((Bit(r, 0) != b) && Generator(31 - j)))
    ensures Follows(Coefficients(r), b, Coefficients(r'))
  {
    var c, c' := Coefficients(r), Coefficients(r');
    assert forall j :: 0 <= j < WIDTH ==> c[j] == Bit(r, j) && c'[j] == Bit(r', j);
  }

  lemma ReduceFollows(c: Bits, b: bool, c': Bits, m: Bits)
    requires |c| == |c'| == WIDTH <= |m| && Follows(c, b, c')
    ensures Reduce(AddTop(c, [b] + m)) == AddTop(c', m)
  {
    var t := AddTop(c, [b] + m);
    assert t[0] == (b != c[0]);
    forall j | 0 <= j < |m| ensures Reduce(t)[j] == AddTop(c', m)[j] {
      assert t[j + 1] == (m[j] != (j + 1 < 32 && c[j + 1]));
    }
  }

  lemma ReduceFeed(r: bv32, b: bool, m: Bits)
    requires |m| >= WIDTH
    ensures Reduce(AddTop(Coefficients(r), [b] + m)) == AddTop(Coefficients(FeedBit(Reg(), r, b)), m)
  {
    CoefficientsFollow(r, b);
    ReduceFollows(Coefficients(r), b, Coefficients(FeedBit(Reg(), r, b)), m);
  }

  /** Feeding message bits one by one is long division of the message followed by 32 zeros. */
  lemma {:induction false} FeedingDivides(r: bv32, m: Bits)
    ensures Coefficients(RunBits(Reg(), r, m)) == Remainder(AddTop(Coefficients(r), m + Zeros(WIDTH)))
    decreases |m|
  {
    if m == [] {
      assert m + Zeros(WIDTH) == Zeros(WIDTH);
      assert AddTop(Coefficients(r), Zeros(WIDTH)) == Coefficients(r);
    } else {
      RunBitsFront(Reg(), r, m);
      FeedingDivides(FeedBit(Reg(), r, m[0]), m[1..]);
      assert m + Zeros(WIDTH) == [m[0]] + (m[1..] + Zeros(WIDTH));
      ReduceFeed(r, m[0], m[1..] + Zeros(WIDTH));
    }
  }

  function Ones(n: nat): Bits {
    seq(n, _ => true)
  }

  lemma InitialIsOnes()
    ensures Coefficients(INITIAL) == Ones(WIDTH)
  {
    OnesSpelled();
    forall i | 0 <= i < WIDTH ensures Bit(INITIAL, i) { SpelledBit(INITIAL, AllOnes(), 0, i); }
  }

  /** The checksum's coefficients are the inverted remainder of the message with its first 32 bits inverted. */
  lemma CrcIsRemainder(m: Bytes, i: int)
    requires 0 <= i < WIDTH
    ensures Bit(Crc(m), i) == !Remainder(AddTop(Ones(WIDTH), MessageBits(m) + Zeros(WIDTH)))[i]
  {
    CrcIsBitSerial(m);
    InitialIsOnes();
    FeedingDivides(INITIAL, MessageBits(m));
    BitNot(RunBits(Reg(), INITIAL, MessageBits(m)), i);
  }

  // ---------------------------------------------------------------- a message followed by its checksum

  const RESIDUE: bv32 := 0x2144_DF1C

  function LowByte(x: bv32): bv8 {
    (x & 0xFF) as bv8
  }

  /** The k low bytes of x, lowest first. */
  function LowBytes(x: bv32, k: nat): (m: Bytes)
    ensures |m| == k
    decreases k
  {
    if k == 0 then [] else [LowByte(x)] + LowBytes(DropByte(x), k - 1)
  }

  function Dropped(x: bv32, k: nat): bv32
    decreases k
  {
    if k == 0 then x else Dropped(DropByte(x), k - 1)
  }

  function LittleEndian(x: bv32): (m: Bytes)
    ensures |m| == 4
  {
    LowBytes(x, 4)
  }

  lemma LowByteWidens(x: bv32)
    ensures Widen(LowByte(x)) == Low(x)
  {
  }

  lemma FourDrops(x: bv32)
    ensures DropByte(DropByte(DropByte(DropByte(x)))) == 0
  {
  }

  /** The low byte of a 32-bit summand can be fed first and the rest added afterwards. */
  lemma FeedLow(r: bv32, x: bv32, n: nat)
    ensures Iter(Reg(), Xor(r, x), EIGHT + n) == Iter(Reg(), Xor(Feed(Reg(), r, LowByte(x)), DropByte(x)), n)
  {
    var lo, hi := Low(x), HighBytes(x);
    SplitByte(x);
    LowByteWidens(x);
    XorAssoc(r, lo, hi);
    FeedSum(r, lo, hi);
    ShiftByte(hi);
    IterAdd(Reg(), Xor(r, x), EIGHT, n);
  }

  lemma FeedSum(r: bv32, lo: bv32, hi: bv32)
    ensures Iter(Reg(), Xor(Xor(r, lo), hi), EIGHT) == Xor(Iter(Reg(), Xor(r, lo), EIGHT), Iter(Reg(), hi, EIGHT))
  {
    IsShifting();
    IterLinear(Reg(), Xor(r, lo), hi, EIGHT);
  }

  /** Feeding k bytes of a word is adding the word and shifting; what is left of it stays to be added. */
  lemma {:induction false} FeedLowBytes(r: bv32, x: bv32, k: nat)
    ensures Iter(Reg(), Xor(r, x), EIGHT * k) == Xor(Run(Reg(), r, LowBytes(x, k)), Dropped(x, k))
    decreases k
  {
    if k > 0 {
      var b := LowByte(x);
      FeedLow(r, x, EIGHT * (k - 1));
      FeedLowBytes(Feed(Reg(), r, b), DropByte(x), k - 1);
      RunFront(Reg(), r, b, LowBytes(DropByte(x), k - 1));
    }
  }

  lemma DropAll(x: bv32, k: nat)
    requires k == 4
    ensures Dropped(x, k) == 0
  {
    var x1 := DropByte(x); var x2 := DropByte(x1); var x3 := DropByte(x2);
    assert Dropped(x, 4) == Dropped(x1, 3) == Dropped(x2, 2) == Dropped(x3, 1) == DropByte(x3);
    FourDrops(x);
  }

  /** Four bytes fed are one 32-bit word added and shifted through. */
  lemma FeedWord(r: bv32, x: bv32, k: nat)
    requires k == 4
    ensures Run(Reg(), r, LowBytes(x, k)) == Iter(Reg(), Xor(r, x), EIGHT * k)
  {
    FeedLowBytes(r, x, k);
    DropAll(x, k);
    XorZero(Run(Reg(), r, LowBytes(x, k)));
  }

  lemma XorNot(s: bv32)
    ensures Xor(s, Not(s)) == INITIAL
  {
  }

  lemma FourSteps(c: bv32, n: nat)
    ensures Iter(Reg(), c, n + 4) == Iter(Reg(), Step4(c), n)
  {
    var c1 := Step(c); var c2 := Step(c1); var c3 := Step(c2);
    OneStep(c, n + 3);
    OneStep(c1, n + 2);
    OneStep(c2, n + 1);
    OneStep(c3, n);
  }

  lemma OneStep(c: bv32, n: nat)
    ensures Iter(Reg(), c, n + 1) == Iter(Reg(), Step(c), n)
  {
  }

  function Step4(c: bv32): bv32 {
    Step(Step(Step(Step(c))))
  }

  lemma Constants()
    ensures Step4(0xFFFF_FFFF) == 0xB242_0DE3
    ensures Step4(0xB242_0DE3) == 0x2DFD_1072
    ensures Step4(0x2DFD_1072) == 0x39B1_F1CF
    ensures Step4(0x39B1_F1CF) == 0xBE26_ED00
    ensures Step4(0xBE26_ED00) == 0x0BE2_6ED0
    ensures Step4(0x0BE2_6ED0) == 0x00BE_26ED
    ensures Step4(0x00BE_26ED) == 0x86D8_30BA
    ensures Step4(0x86D8_30BA) == 0xDEBB_20E3
  {
  }

  lemma AllOnesShiftedOut(n: nat)
    requires n == 32
    ensures Iter(Reg(), INITIAL, n) == Not(RESIDUE)
  {
    Constants();
    FourSteps(0xFFFF_FFFF, n - 4);
    FourSteps(0xB242_0DE3, n - 8);
    FourSteps(0x2DFD_1072, n - 12);
    FourSteps(0x39B1_F1CF, n - 16);
    FourSteps(0xBE26_ED00, n - 20);
    FourSteps(0x0BE2_6ED0, n - 24);
    FourSteps(0x00BE_26ED, n - 28);
    FourSteps(0x86D8_30BA, n - 32);
  }

  /** Whatever the message, appending its own checksum makes the checksum one fixed number. */
  lemma ChecksumOfChecked(m: Bytes)
    ensures Crc(m + LittleEndian(Crc(m))) == RESIDUE
  {
    var s := Run(Reg(), INITIAL, m);
    RunConcat(Reg(), INITIAL, m, LittleEndian(Crc(m)));
    FeedWord(s, Crc(m), 4);
    XorNot(s);
    AllOnesShiftedOut(32);
  }

  // ---------------------------------------------------------------- a known checksum

  /** "123456789" */
  const DIGITS: Bytes := [49, 50, 51, 52, 53, 54, 55, 56, 57]

  lemma NextByte(k: nat, b: bv8, r: bv32, y: bv32, z: bv32)
    requires k < 9 && DIGITS[k] == b && Run(Reg(), INITIAL, DIGITS[..k]) == r
    requires Step4(Xor(r, Widen(b))) == y && Step4(y) == z
    ensures Run(Reg(), INITIAL, DIGITS[..k + 1]) == z
  {
    var m := DIGITS[..k + 1];
    assert m[..k] == DIGITS[..k] && m[k] == b;
    FourSteps(Xor(r, Widen(b)), 4);
    FourSteps(y, 0);
  }

  lemma FirstDigits()
    ensures Run(Reg(), INITIAL, DIGITS[..3]) == 0x77B7_9C2D
  {
    NextByte(0, 49, 0xFFFF_FFFF, 0xAFF5_1D84, 0x7C23_1048);
    NextByte(1, 50, 0x7C23_1048, 0xD114_92EF, 0xB0AC_BB32);
    NextByte(2, 51, 0xB0AC_BB32, 0x16BD_DBD4, 0x77B7_9C2D);
  }

  lemma SecondDigits()
    ensures Run(Reg(), INITIAL, DIGITS[..5]) == 0x340A_C5E3
  {
    FirstDigits();
    NextByte(3, 52, 0x77B7_9C2D, 0xF774_EA85, 0x641C_1F5C);
    NextByte(4, 53, 0x641C_1F5C, 0xF64E_52B2, 0x340A_C5E3);
  }

  lemma ThirdDigits()
    ensures Run(Reg(), INITIAL, DIGITS[..7]) == 0xAFFC_9660
  {
    SecondDigits();
    NextByte(5, 54, 0x340A_C5E3, 0x682B_FDA9, 0xF68D_2C9E);
    NextByte(6, 55, 0xF68D_2C9E, 0xFF67_418E, 0xAFFC_9660);
  }

  lemma LastDigits()
    ensures Run(Reg(), INITIAL, DIGITS) == 0x340B_C6D9
  {
    ThirdDigits();
    NextByte(7, 56, 0xAFFC_9660, 0xE747_4A45, 0x651F_2550);
    NextByte(8, 57, 0x651F_2550, 0xF65E_6112, 0x340B_C6D9);
    assert DIGITS[..9] == DIGITS;
  }

  /** The check value that catalogues of CRCs give for CRC-32. */
  lemma CheckValue()
    ensures Crc(DIGITS) == 0xCBF4_3926
  {
    LastDigits();
  }
}
