/** CRC-32, table driven: the register it runs, the program, and what the checksum guarantees. */
module Crc32 {
  import opened ShiftRegister

  const POLY: bv32 := 0xEDB8_8320
  const INITIAL: bv32 := 0xFFFF_FFFF
  const SIZE: int := 256

  /** One shift of the reflected register. */
  function Step(c: bv32): bv32 {
    if Odd(c) then Xor(Half(c), POLY) else Half(c)
  }

  // The operators by name: the laws below are about these.

  function Xor(a: bv32, b: bv32): bv32 {
    a ^ b
  }

  function Half(c: bv32): bv32 {
    c >> 1
  }

  function Double(u: bv32): bv32 {
    u << 1
  }

  function Not(c: bv32): bv32 {
    !c
  }

  predicate Odd(c: bv32) {
    c & 1 != 0
  }

  predicate TopClear(u: bv32) {
    u & 0x8000_0000 == 0
  }

  function BitValue(b: bool): bv32 {
    if b then 1 else 0
  }

  /** b becomes the lowest bit, below u. */
  function Put(b: bool, u: bv32): bv32 {
    Xor(Double(u), BitValue(b))
  }

  function Widen(b: bv8): bv32 {
    b as bv32
  }

  function Reg(): Register<bv32> {
    Register(Xor, 0, BitValue, Put, Widen, Step)
  }

  function Crc(m: Bytes): bv32 {
    Not(Run(Reg(), INITIAL, m))
  }

  // ---------------------------------------------------------------- plain facts about 32-bit words

  lemma XorZero(a: bv32)
    ensures Xor(a, 0) == a
  {
  }

  lemma XorAssoc(a: bv32, b: bv32, c: bv32)
    ensures Xor(Xor(a, b), c) == Xor(a, Xor(b, c))
  {
  }

  lemma XorMedial(a: bv32, b: bv32, c: bv32, d: bv32)
    ensures Xor(Xor(a, b), Xor(c, d)) == Xor(Xor(a, c), Xor(b, d))
  {
    XorAssoc(a, b, Xor(c, d));
    XorAssoc(b, c, d);
    XorSwap(b, c);
    XorAssoc(c, b, d);
    XorAssoc(a, c, Xor(b, d));
  }

  lemma XorCancels(a: bv32, b: bv32, c: bv32)
    requires Xor(a, c) == Xor(b, c)
    ensures a == b
  {
  }

  lemma XorSwap(a: bv32, b: bv32)
    ensures Xor(a, b) == Xor(b, a)
  {
  }

  lemma XorSelf(a: bv32)
    ensures Xor(a, a) == 0
  {
  }

  lemma XorMove(a: bv32, b: bv32, p: bv32)
    ensures Xor(Xor(a, p), Xor(b, p)) == Xor(a, b)
    ensures Xor(Xor(a, p), b) == Xor(Xor(a, b), p)
    ensures Xor(a, Xor(b, p)) == Xor(Xor(a, b), p)
  {
    XorMedial(a, p, b, p);
    XorSelf(p);
    XorZero(Xor(a, b));
    XorAssoc(a, p, b);
    XorSwap(p, b);
    XorAssoc(a, b, p);
  }

  lemma HalfXor(a: bv32, b: bv32)
    ensures Half(Xor(a, b)) == Xor(Half(a), Half(b))
  {
  }

  lemma OddXor(a: bv32, b: bv32)
    ensures Odd(Xor(a, b)) == (Odd(a) != Odd(b))
  {
  }

  lemma HalfDouble(u: bv32)
    requires TopClear(u)
    ensures Half(Double(u)) == u && !Odd(Double(u))
  {
  }

  lemma HalfBit(b: bool)
    ensures Half(BitValue(b)) == 0 && Odd(BitValue(b)) == b
  {
  }

  lemma HalfInjective(a: bv32, b: bv32)
    requires Half(a) == Half(b) && Odd(a) == Odd(b)
    ensures a == b
  {
  }

  lemma TopClearHalf(a: bv32)
    ensures TopClear(Half(a)) && !TopClear(Xor(Half(a), POLY))
  {
  }

  lemma WidenXor(x: bv8, y: bv8)
    ensures Widen(x ^ y) == Xor(Widen(x), Widen(y))
  {
  }

  // ---------------------------------------------------------------- the step

  lemma StepTap(c: bv32)
    ensures Step(c) == Xor(Half(c), if Odd(c) then POLY else 0)
  {
    XorZero(Half(c));
  }

  lemma TapLinear(p: bool, q: bool)
    ensures Xor(if p then POLY else 0, if q then POLY else 0) == if p != q then POLY else 0
  {
    XorZero(POLY);
    XorSwap(0, POLY);
    XorSelf(POLY);
    XorZero(0);
  }

  lemma StepLinear(a: bv32, b: bv32)
    ensures Step(Xor(a, b)) == Xor(Step(a), Step(b))
  {
    var ta: bv32, tb: bv32 := if Odd(a) then POLY else 0, if Odd(b) then POLY else 0;
    StepTap(a);
    StepTap(b);
    StepTap(Xor(a, b));
    HalfXor(a, b);
    OddXor(a, b);
    TapLinear(Odd(a), Odd(b));
    XorMedial(Half(a), Half(b), ta, tb);
  }

  /** No two registers step to the same one: the top bit of the result tells which branch was taken. */
  lemma StepInjective(a: bv32, b: bv32)
    requires Step(a) == Step(b)
    ensures a == b
  {
    TopClearHalf(a);
    TopClearHalf(b);
    if Odd(a) && Odd(b) { XorCancels(Half(a), Half(b), POLY); }
    HalfInjective(a, b);
  }

  lemma PackingAt(r: bv32, b: bool, u: bv32)
    requires TopClear(u)
    ensures Step(Xor(r, Put(b, u))) == Xor(Step(Xor(r, BitValue(b))), u)
  {
    XorMove(r, Double(u), BitValue(b));
    StepLinear(Xor(r, BitValue(b)), Double(u));
    HalfDouble(u);
  }

  lemma PutBack(b: bool, u: bv32)
    requires TopClear(u)
    ensures Half(Put(b, u)) == u && Odd(Put(b, u)) == b
  {
    HalfXor(Double(u), BitValue(b));
    OddXor(Double(u), BitValue(b));
    HalfDouble(u);
    HalfBit(b);
    XorZero(u);
  }

  // ---------------------------------------------------------------- words

  /** No bit in positions n and up. */
  predicate Fits(u: bv32, n: nat)
    requires n <= WIDTH
  {
    u & High(n) == 0
  }

  function High(n: nat): bv32
    requires n <= WIDTH
  {
    (0xFFFF_FFFF as bv32) << n
  }

  lemma HighTop(n: nat)
    requires n < WIDTH
    ensures High(n) & 0x8000_0000 != 0
  {
  }

  lemma HighStep(n: nat)
    requires n < WIDTH
    ensures High(n) << 1 == High(n + 1)
  {
  }

  lemma PutHigh(u: bv32, h: bv32, h': bv32)
    requires u & h == 0 && h' == h << 1
    ensures ((u << 1) ^ 1) & h' == 0 && ((u << 1) ^ 0) & h' == 0
  {
  }

  lemma PutFits(u: bv32, n: nat, b: bool)
    requires n < WIDTH && Fits(u, n)
    ensures Fits(Put(b, u), n + 1)
  {
    HighStep(n);
    PutHigh(u, High(n), High(n + 1));
  }

  lemma TopOf(u: bv32, h: bv32)
    requires u & h == 0 && h & 0x8000_0000 != 0
    ensures u & 0x8000_0000 == 0
  {
  }

  lemma FitsTop(u: bv32, n: nat)
    requires n < WIDTH && Fits(u, n)
    ensures TopClear(u)
  {
    HighTop(n);
    TopOf(u, High(n));
  }

  lemma {:induction false} WordFits(w: Bits)
    requires |w| <= WIDTH
    ensures Fits(Word(Reg(), w), |w|)
  {
    if w != [] {
      WordFits(w[1..]);
      PutFits(Word(Reg(), w[1..]), |w| - 1, w[0]);
    }
  }

  lemma WordTop(w: Bits)
    requires |w| < WIDTH
    ensures TopClear(Word(Reg(), w))
  {
    WordFits(w);
    FitsTop(Word(Reg(), w), |w|);
  }

  lemma WordSplit(w: Bits)
    requires 0 < |w| <= WIDTH
    ensures Half(Word(Reg(), w)) == Word(Reg(), w[1..]) && Odd(Word(Reg(), w)) == w[0]
  {
    WordTop(w[1..]);
    PutBack(w[0], Word(Reg(), w[1..]));
  }

  lemma {:induction false} WordInjective(u: Bits, w: Bits)
    requires |u| == |w| <= WIDTH && Word(Reg(), u) == Word(Reg(), w)
    ensures u == w
  {
    if u != [] {
      WordSplit(u);
      WordSplit(w);
      WordInjective(u[1..], w[1..]);
      assert u == [u[0]] + u[1..] && w == [w[0]] + w[1..];
    }
  }

  function HalfByte(b: bv8): bv8 {
    b >> 1
  }

  lemma PutByte(b: bv8, odd: bool)
    requires odd == (b & 1 != 0)
    ensures Put(odd, Widen(HalfByte(b))) == Widen(b)
  {
  }

  lemma EightHalvesOfByte(b: bv8)
    ensures b >> 1 >> 1 >> 1 >> 1 >> 1 >> 1 >> 1 >> 1 == 0
  {
  }

  function Halved(b: bv8, n: nat): bv8
    decreases n
  {
    if n == 0 then b else Halved(HalfByte(b), n - 1)
  }

  lemma {:induction false} LowBitsWord(b: bv8, n: nat)
    requires Halved(b, n) == 0
    ensures Word(Reg(), LowBits(b, n)) == Widen(b)
    decreases n
  {
    if n > 0 {
      LowBitsWord(HalfByte(b), n - 1);
      PutByte(b, b & 1 != 0);
      assert LowBits(b, n)[1..] == LowBits(HalfByte(b), n - 1);
    }
  }

  lemma ByteWord(b: bv8)
    ensures Word(Reg(), BitsOf(b)) == Widen(b)
  {
    EightHalvesOfByte(b);
    var b2 := HalfByte(HalfByte(b)); var b4 := HalfByte(HalfByte(b2)); var b6 := HalfByte(HalfByte(b4));
    assert Halved(b, 8) == Halved(b2, 6) == Halved(b4, 4) == Halved(b6, 2) == HalfByte(HalfByte(b6));
    LowBitsWord(b, EIGHT);
  }

  // ---------------------------------------------------------------- the laws of a shift register hold

  lemma IsAdditive()
    ensures Additive(Reg())
  {
    forall a ensures Xor(a, 0) == a { XorZero(a); }
    forall a, b, c | Xor(a, c) == Xor(b, c) ensures a == b { XorCancels(a, b, c); }
    forall a, b, c | Xor(a, b) == Xor(a, c) ensures b == c {
      XorSwap(a, b);
      XorSwap(a, c);
      XorCancels(b, c, a);
    }
  }

  lemma IsMedial()
    ensures Medial(Reg())
  {
    forall a, b, c, d ensures Xor(Xor(a, b), Xor(c, d)) == Xor(Xor(a, c), Xor(b, d)) { XorMedial(a, b, c, d); }
    forall x, y, z | z == x ^ y ensures Widen(z) == Xor(Widen(x), Widen(y)) { WidenXor(x, y); }
  }

  lemma IsPacking()
    ensures Packing(Reg())
  {
    forall r, b, w: Bits | |w| < WIDTH
      ensures Step(Xor(r, Put(b, Word(Reg(), w)))) == Xor(Step(Xor(r, BitValue(b))), Word(Reg(), w))
    {
      WordTop(w);
      PackingAt(r, b, Word(Reg(), w));
    }
    forall b ensures Widen(b) == Word(Reg(), BitsOf(b)) { ByteWord(b); }
  }

  lemma IsSpelling()
    ensures Spelling(Reg())
  {
    forall u: Bits, w: Bits | |u| == |w| <= WIDTH && Word(Reg(), u) == Word(Reg(), w) ensures u == w {
      WordInjective(u, w);
    }
  }

  lemma IsShifting()
    ensures Shifting(Reg())
  {
    forall a, b ensures Step(Xor(a, b)) == Xor(Step(a), Step(b)) { StepLinear(a, b); }
    forall a, b | Step(a) == Step(b) ensures a == b { StepInjective(a, b); }
  }

  // ---------------------------------------------------------------- the table

  function Low(r: bv32): bv32 {
    r & 0xFF
  }

  function HighBytes(r: bv32): bv32 {
    r & 0xFFFF_FF00
  }

  function DropByte(r: bv32): bv32 {
    r >> 8
  }

  lemma SplitByte(r: bv32)
    ensures r == Xor(Low(r), HighBytes(r)) && DropByte(HighBytes(r)) == DropByte(r) && Low(HighBytes(r)) == 0
  {
  }

  lemma IndexInRange(r: bv32, b: bv8)
    ensures Xor(Low(r), Widen(b)) < 256
  {
  }

  lemma TableIndex(x: bv32)
    requires x < 256
    ensures 0 <= x as int < 256 && (x as int) as bv32 == x
  {
  }

  lemma EightHalves(x: bv32, x1: bv32, x2: bv32, x3: bv32, x4: bv32, x5: bv32, x6: bv32, x7: bv32, x8: bv32)
    requires Low(x) == 0 && x1 == Half(x) && x2 == Half(x1) && x3 == Half(x2) && x4 == Half(x3)
    requires x5 == Half(x4) && x6 == Half(x5) && x7 == Half(x6) && x8 == Half(x7)
    ensures !Odd(x) && !Odd(x1) && !Odd(x2) && !Odd(x3) && !Odd(x4) && !Odd(x5) && !Odd(x6) && !Odd(x7)
    ensures x8 == DropByte(x)
  {
  }

  lemma EvenIter(x: bv32, n: nat)
    requires !Odd(x)
    ensures Iter(Reg(), x, n + 1) == Iter(Reg(), Half(x), n)
  {
  }

  /** A register with a clear low byte is only shifted. */
  lemma ShiftByte(x: bv32)
    requires Low(x) == 0
    ensures Iter(Reg(), x, EIGHT) == DropByte(x)
  {
    var x1 := Half(x); var x2 := Half(x1); var x3 := Half(x2); var x4 := Half(x3);
    var x5 := Half(x4); var x6 := Half(x5); var x7 := Half(x6); var x8 := Half(x7);
    EightHalves(x, x1, x2, x3, x4, x5, x6, x7, x8);
    EvenIter(x, 7); EvenIter(x1, 6); EvenIter(x2, 5); EvenIter(x3, 4);
    EvenIter(x4, 3); EvenIter(x5, 2); EvenIter(x6, 1); EvenIter(x7, 0);
  }

  /** One table lookup does the work of eight steps: the low byte goes through the table, the rest is shifted. */
  lemma TableStep(r: bv32, b: bv8, n: nat)
    requires n == EIGHT
    ensures Xor(Iter(Reg(), Xor(Low(r), Widen(b)), n), DropByte(r)) == Iter(Reg(), Xor(r, Widen(b)), n)
  {
    var lo, hi := Low(r), HighBytes(r);
    SplitByte(r);
    XorMove(lo, hi, Widen(b));
    IsShifting();
    IterLinear(Reg(), Xor(lo, Widen(b)), hi, n);
    ShiftByte(hi);
  }

  function Entry(i: int): bv32
    requires 0 <= i < 256
  {
    Iter(Reg(), i as bv32, EIGHT)
  }

  /** The first n table entries. */
  function Entries(n: int): (s: seq<bv32>)
    requires 0 <= n <= SIZE
    ensures |s| == n
  {
    if n == 0 then [] else Entries(n - 1) + [Entry(n - 1)]
  }

  lemma {:induction false} EntriesAt(n: int, k: int)
    requires 0 <= k < n <= SIZE
    ensures Entries(n)[k] == Entry(k)
  {
    if k < n - 1 { EntriesAt(n - 1, k); }
  }

  /** t answers for x what eight steps make of it. */
  ghost predicate Holds(t: seq<bv32>, x: bv32) {
    x < 256 ==> 0 <= x as int < |t| && t[x as int] == Iter(Reg(), x, EIGHT)
  }

  ghost predicate Complete(t: seq<bv32>) {
    forall x {:trigger Holds(t, x)} :: Holds(t, x)
  }

  lemma EntriesComplete(t: seq<bv32>, n: int)
    requires n == SIZE && t == Entries(n)
    ensures Complete(t)
  {
    forall x: bv32 ensures Holds(t, x) {
      if x < 256 {
        TableIndex(x);
        EntriesAt(n, x as int);
      }
    }
  }

  // ---------------------------------------------------------------- what the checksum guarantees

  /** The byte-wise table loop is bit-serial processing of all message bits. */
  lemma CrcIsBitSerial(m: Bytes)
    ensures Crc(m) == Not(RunBits(Reg(), INITIAL, MessageBits(m)))
  {
    IsAdditive();
    IsPacking();
    RunIsBits(Reg(), INITIAL, m);
  }

  lemma NotXor3(a: bv32, b: bv32, c: bv32)
    ensures Xor(Xor(Not(a), Not(b)), Not(c)) == Not(Xor(Xor(a, b), c))
  {
  }

  lemma RunOfSum(r: bv32, s: bv32, a: Bytes, b: Bytes)
    requires |a| == |b|
    ensures Run(Reg(), Xor(r, s), XorBytes(a, b)) == Xor(Run(Reg(), r, a), Run(Reg(), s, b))
  {
    IsMedial();
    IsShifting();
    RunLinear(Reg(), r, s, a, b);
  }

  /** The checksum of a sum of three messages is the sum of the checksums. */
  lemma CrcOfSum(a: Bytes, b: Bytes, c: Bytes)
    requires |a| == |b| == |c|
    ensures Crc(XorBytes(XorBytes(a, b), c)) == Xor(Xor(Crc(a), Crc(b)), Crc(c))
  {
    RunOfSum(INITIAL, INITIAL, a, b);
    RunOfSum(Xor(INITIAL, INITIAL), INITIAL, XorBytes(a, b), c);
    assert Xor(Xor(INITIAL, INITIAL), INITIAL) == INITIAL;
    NotXor3(Run(Reg(), INITIAL, a), Run(Reg(), INITIAL, b), Run(Reg(), INITIAL, c));
  }

  lemma WindowChanges(r: bv32, p: Bits, a: Bits, b: Bits, s: Bits)
    requires |a| == |b| <= WIDTH && a != b
    ensures RunBits(Reg(), r, p + a + s) != RunBits(Reg(), r, p + b + s)
  {
    IsAdditive();
    IsPacking();
    IsShifting();
    IsSpelling();
    WindowDetected(Reg(), r, p, a, b, s);
  }

  /** Equal messages outside a window of at most 32 consecutive bits, unequal inside it: the checksums differ. */
  lemma BurstDetected(a: Bytes, b: Bytes, from: int, to: int)
    requires |a| == |b| && 0 <= from <= to <= EIGHT * |a| && to - from <= 32
    requires MessageBits(a)[..from] == MessageBits(b)[..from] && MessageBits(a)[to..] == MessageBits(b)[to..]
    requires a != b
    ensures Crc(a) != Crc(b)
  {
    var x, y := MessageBits(a), MessageBits(b);
    CrcIsBitSerial(a);
    CrcIsBitSerial(b);
    if x == y { BitsInjective(a, b); }
    WindowOf(INITIAL, x, y, from, to);
    NotInjective(RunBits(Reg(), INITIAL, x), RunBits(Reg(), INITIAL, y));
  }

  lemma WindowOf(r: bv32, x: Bits, y: Bits, from: int, to: int)
    requires |x| == |y| && 0 <= from <= to <= |x| && to - from <= WIDTH
    requires x[..from] == y[..from] && x[to..] == y[to..] && x != y
    ensures RunBits(Reg(), r, x) != RunBits(Reg(), r, y)
  {
    Cut(x, from, to);
    Cut(y, from, to);
    WindowChanges(r, x[..from], x[from..to], y[from..to], x[to..]);
  }

  lemma Cut(x: Bits, from: int, to: int)
    requires 0 <= from <= to <= |x|
    ensures x == x[..from] + x[from..to] + x[to..]
  {
  }

  lemma NotInjective(a: bv32, b: bv32)
    ensures Not(a) == Not(b) ==> a == b
  {
  }

  lemma WidenInjective(a: bv8, b: bv8)
    requires Widen(a) == Widen(b)
    ensures a == b
  {
  }

  lemma ByteBitsInjective(a: bv8, b: bv8)
    requires BitsOf(a) == BitsOf(b)
    ensures a == b
  {
    ByteWord(a);
    ByteWord(b);
    WidenInjective(a, b);
  }

  lemma TailBits(a: Bytes, b: Bytes)
    requires 0 < |a| == |b| && MessageBits(a) == MessageBits(b)
    ensures MessageBits(a[..|a| - 1]) == MessageBits(b[..|b| - 1]) && BitsOf(a[|a| - 1]) == BitsOf(b[|b| - 1])
  {
    var n := |a| - 1;
    SameHalves(MessageBits(a[..n]), BitsOf(a[n]), MessageBits(b[..n]), BitsOf(b[n]));
  }

  lemma SameHalves(p: Bits, x: Bits, q: Bits, y: Bits)
    requires |p| == |q| && p + x == q + y
    ensures p == q && x == y
  {
    assert p == (p + x)[..|p|] && x == (p + x)[|p|..];
    assert q == (q + y)[..|q|] && y == (q + y)[|q|..];
  }

  lemma LastByte(a: Bytes)
    requires a != []
    ensures a == a[..|a| - 1] + [a[|a| - 1]]
  {}

  lemma {:induction false} BitsInjective(a: Bytes, b: Bytes)
    requires |a| == |b| && MessageBits(a) == MessageBits(b)
    ensures a == b
    decreases |a|
  {
    if a != [] {
      var n := |a| - 1;
      TailBits(a, b);
      BitsInjective(a[..n], b[..n]);
      ByteBitsInjective(a[n], b[n]);
      LastByte(a);
      LastByte(b);
    }
  }
}
