/** The hash of strings that a map gets when none is given. */
module DefaultHash {
  /** A C string without its terminator. */
  type Bytes = seq<bv8>

  /** A (signed) char as an operand of unsigned long arithmetic. */
  function Widen(c: bv8): bv64 {
    if c < 0x80 then c as bv64 else 0xFFFF_FFFF_FFFF_FF00 | (c as bv64)
  }

  /** Fold the top four of 32 bits back in and clear them. */
  function Fold(h: bv64): bv64 {
    var g := h & 0xF000_0000;
    (if g != 0 then h ^ (g >> 24) else h) & !g
  }

  function TakeIn(h: bv64, c: bv8): bv64 {
    (h << 4) + Widen(c)
  }

  function Mix(h: bv64, c: bv8): bv64 {
    Fold(TakeIn(h, c))
  }

  function RawHash(key: Bytes): bv64 {
    if key == [] then 0 else Mix(RawHash(key[..|key| - 1]), key[|key| - 1])
  }

  function Digit(h: bv64): bv4 {
    (h & 15) as bv4
  }

  /** The number that a word stands for, by its hexadecimal digits. */
  function Value(h: bv64): nat {
    if h == 0 then 0 else 16 * Value(h >> 4) + Digit(h) as nat
  }

  /** The hash without the final reduction to an index. */
  function Raw(key: Bytes): nat {
    Value(RawHash(key))
  }

  lemma RawHashStep(key: Bytes, k: int)
    requires 0 <= k < |key|
    ensures RawHash(key[..k + 1]) == Mix(RawHash(key[..k]), key[k])
  {
    assert key[..k + 1][..k] == key[..k] && key[..k + 1][k] == key[k];
  }

  method HashCode(key: Bytes, listSize: int) returns (index: int)
    requires 0 < listSize
    ensures 0 <= index < listSize && index == Raw(key) % listSize
  {
    var h: bv64 := 0;
    for k := 0 to |key|
      invariant h == RawHash(key[..k])
    {
      RawHashStep(key, k);
      h := Mix(h, key[k]);
    }
    assert key[..|key|] == key;
    index := Value(h) % listSize;
  }

  // ---------------------------------------------------------------- what names may end in

  /** The code of the last character, as far as the hash modulo 8 depends on it. */
  function Tail(key: Bytes): nat {
    if key == [] then 0 else key[|key| - 1] as nat % 8
  }

  function LowBits(c: bv8): bv4 {
    (c & 15) as bv4
  }

  lemma MixDigit(h: bv64, c: bv8)
    ensures Digit(Mix(h, c)) == LowBits(c)
  {
  }

  lemma LowBitsNat(c: bv8)
    ensures LowBits(c) as nat % 8 == c as nat % 8
  {
  }

  lemma ValueStep(h: bv64)
    ensures Value(h) == 16 * Value(h >> 4) + Digit(h) as nat
  {
  }

  lemma ModUnique(h: nat, n: int, q: int, m: int)
    requires 0 < n && h == q * n + m && 0 <= m < n
    ensures h % n == m
  {
    var d := q - h / n;
    assert d * n == h % n - m;
    assert d >= 1 ==> d * n >= n;
    assert d <= -1 ==> d * n <= -n;
  }

  lemma SixteenMod(q: nat, d: nat)
    ensures (16 * q + d) % 8 == d % 8
  {
    ModUnique(16 * q + d, 8, 2 * q + d / 8, d % 8);
  }

  lemma ValueDigit(h: bv64)
    ensures Value(h) % 8 == Digit(h) as nat % 8
  {
    ValueStep(h);
    SixteenMod(Value(h >> 4), Digit(h) as nat);
  }

  /** Modulo 8 the hash is the code of the last character: everything before is shifted out of the low bits. */
  lemma RawTail(key: Bytes)
    ensures Raw(key) % 8 == Tail(key)
  {
    if key != [] {
      var m := |key| - 1;
      MixDigit(RawHash(key[..m]), key[m]);
      LowBitsNat(key[m]);
      ValueDigit(RawHash(key));
    }
  }

  // ---------------------------------------------------------------- one character, digit by digit

  /** Hexadecimal digit i of a number, the lowest one first. */
  function HexDigit(n: nat, i: nat): nat
    decreases i
  {
    if i == 0 then n % 16 else HexDigit(n / 16, i - 1)
  }

  function XorDigits(a: nat, b: nat): nat
    requires a < 16 && b < 16
  {
    ((a as bv4) ^ (b as bv4)) as nat
  }

  lemma {:induction false} HexBelow(n: nat, i: nat)
    ensures HexDigit(n, i) < 16
    decreases i
  {
    if i > 0 { HexBelow(n / 16, i - 1); }
  }

  function HexAt(h: bv64, i: nat): bv4 {
    if i == 0 then Digit(h) else HexAt(h >> 4, i - 1)
  }

  lemma ValueParts(h: bv64)
    ensures Value(h) % 16 == Digit(h) as nat && Value(h) / 16 == Value(h >> 4)
  {
    ValueStep(h);
    Parts(Value(h >> 4), Digit(h) as nat);
  }

  lemma Parts(q: nat, d: nat)
    requires d < 16
    ensures (16 * q + d) % 16 == d && (16 * q + d) / 16 == q
  {
  }

  lemma {:induction false} ValueHex(h: bv64, i: nat)
    ensures HexDigit(Value(h), i) == HexAt(h, i) as nat
    decreases i
  {
    ValueParts(h);
    if i > 0 { ValueHex(h >> 4, i - 1); }
  }

  // What the fold does to each digit.

  lemma Fold0(x: bv64)
    ensures Digit(Fold(x)) == Digit(x)
  {
  }

  lemma Fold1(x: bv64)
    ensures Digit(Fold(x) >> 4) == Digit(x >> 4) ^ Digit(x >> 28)
  {
  }

  lemma Fold2(x: bv64)
    ensures Digit(Fold(x) >> 8) == Digit(x >> 8)
  {
  }

  lemma Fold3(x: bv64)
    ensures Digit(Fold(x) >> 12) == Digit(x >> 12)
  {
  }

  lemma Fold4(x: bv64)
    ensures Digit(Fold(x) >> 16) == Digit(x >> 16)
  {
  }

  lemma Fold5(x: bv64)
    ensures Digit(Fold(x) >> 20) == Digit(x >> 20)
  {
  }

  lemma Fold6(x: bv64)
    ensures Digit(Fold(x) >> 24) == Digit(x >> 24)
  {
  }

  lemma Fold7(x: bv64)
    ensures Digit(Fold(x) >> 28) == 0
  {
  }

  lemma Fold8(x: bv64)
    ensures Fold(x) >> 32 == x >> 32
  {
  }

  lemma Shifts(h: bv64)
    ensures h >> 8 >> 4 == h >> 12 && h >> 16 >> 4 == h >> 20 && h >> 16 >> 8 == h >> 24 && h >> 24 >> 4 == h >> 28
  {
  }

  lemma HexSkip(h: bv64, i: nat)
    ensures HexAt(h, i + 1) == HexAt(h >> 4, i) && HexAt(h, i + 2) == HexAt(h >> 8, i)
  {
    assert h >> 4 >> 4 == h >> 8;
    assert HexAt(h, i + 2) == HexAt(h >> 4, i + 1);
  }

  lemma HexSkip4(h: bv64, i: nat)
    ensures HexAt(h, i + 4) == HexAt(h >> 16, i)
  {
    assert h >> 8 >> 8 == h >> 16;
    HexSkip(h, i + 2);
    HexSkip(h >> 8, i);
  }

  lemma HexSkip8(h: bv64, i: nat)
    ensures HexAt(h, i + 8) == HexAt(h >> 32, i)
  {
    assert h >> 16 >> 16 == h >> 32;
    HexSkip4(h, i + 4);
    HexSkip4(h >> 16, i);
  }

  /** The lower eight digits of a word. */
  lemma HexIs(h: bv64)
    ensures HexAt(h, 0) == Digit(h) && HexAt(h, 1) == Digit(h >> 4) && HexAt(h, 2) == Digit(h >> 8)
    ensures HexAt(h, 3) == Digit(h >> 12) && HexAt(h, 4) == Digit(h >> 16) && HexAt(h, 5) == Digit(h >> 20)
    ensures HexAt(h, 6) == Digit(h >> 24) && HexAt(h, 7) == Digit(h >> 28)
  {
    Shifts(h);
    HexSkip(h, 0);
    HexSkip(h, 1);
    HexSkip(h >> 8, 0);
    HexSkip4(h, 0);
    HexSkip4(h, 1);
    HexSkip4(h, 2);
    HexSkip4(h, 3);
    HexSkip(h >> 16, 0);
    HexSkip(h >> 16, 1);
    HexSkip(h >> 24, 0);
  }

  lemma FoldHexLow(x: bv64, i: nat)
    requires i < 4
    ensures HexAt(Fold(x), i) == if i == 1 then HexAt(x, 1) ^ HexAt(x, 7) else HexAt(x, i)
  {
    HexIs(x);
    HexIs(Fold(x));
    if i == 0 { Fold0(x); } else if i == 1 { Fold1(x); } else if i == 2 { Fold2(x); } else { Fold3(x); }
  }

  lemma FoldHexHigh(x: bv64, i: nat)
    requires 4 <= i < 8
    ensures HexAt(Fold(x), i) == if i == 7 then 0 else HexAt(x, i)
  {
    HexIs(x);
    HexIs(Fold(x));
    if i == 4 { Fold4(x); } else if i == 5 { Fold5(x); } else if i == 6 { Fold6(x); } else { Fold7(x); }
  }

  /** The fold xors digit 7 into digit 1 and clears it; all other digits stay. */
  lemma FoldHex(x: bv64, i: nat)
    ensures HexAt(Fold(x), i)
         == if i == 7 then 0 else if i == 1 then HexAt(x, 1) ^ HexAt(x, 7) else HexAt(x, i)
  {
    if i < 4 {
      FoldHexLow(x, i);
    } else if i < 8 {
      FoldHexHigh(x, i);
    } else {
      Fold8(x);
      HexSkip8(x, i - 8);
      HexSkip8(Fold(x), i - 8);
    }
  }

  /** A char above 0x7F is negative. */
  lemma SignedChar(c: bv8)
    ensures Widen(c) == if c < 0x80 then c as bv64 else c as bv64 - 0x100
  {
  }

  lemma FoldOther(x: bv64, i: nat)
    requires i != 1
    ensures HexAt(Fold(x), i) as nat == if i == 7 then 0 else HexAt(x, i) as nat
  {
    FoldHex(x, i);
  }

  lemma MixHex1(h: bv64, c: bv8)
    ensures var x := Value(TakeIn(h, c));
            && HexDigit(x, 1) < 16 && HexDigit(x, 7) < 16
            && HexDigit(Value(Mix(h, c)), 1) == XorDigits(HexDigit(x, 1), HexDigit(x, 7))
  {
    var x := TakeIn(h, c);
    FoldHex(x, 1);
    ValueHex(Fold(x), 1);
    ValueHex(x, 1);
    ValueHex(x, 7);
    XorIs(HexAt(x, 1), HexAt(x, 7));
  }

  /** One character, on numbers: of the word taken in, digit 7 is xored into digit 1 and cleared. */
  lemma MixHex(h: bv64, c: bv8, i: nat)
    ensures var x := Value(TakeIn(h, c));
            && HexDigit(x, 1) < 16 && HexDigit(x, 7) < 16
            && HexDigit(Value(Mix(h, c)), i) ==
               if i == 7 then 0 else if i == 1 then XorDigits(HexDigit(x, 1), HexDigit(x, 7)) else HexDigit(x, i)
  {
    MixHex1(h, c);
    if i != 1 {
      FoldOther(TakeIn(h, c), i);
      ValueHex(Fold(TakeIn(h, c)), i);
      ValueHex(TakeIn(h, c), i);
    }
  }

  lemma XorIs(a: bv4, b: bv4)
    ensures XorDigits(a as nat, b as nat) == (a ^ b) as nat
  {
  }

  // ---------------------------------------------------------------- short strings are not folded

  lemma SumBelow(h: bv64, d: bv64)
    requires h <= 0xFFFF_FFFF && d <= 15 && (h & 15) + d <= 15
    ensures (h + d) >> 4 == h >> 4
  {
  }

  lemma DigitBelow(h: bv64, d: bv64)
    requires h <= 0xFFFF_FFFF && d <= 15 && (h & 15) + d <= 15
    ensures Digit(h + d) as nat == Digit(h) as nat + Digit(d) as nat
  {
  }

  lemma SumAbove(h: bv64, d: bv64)
    requires h <= 0xFFFF_FFFF && d <= 15 && (h & 15) + d > 15
    ensures (h + d) >> 4 == (h >> 4) + 1
  {
  }

  lemma DigitAbove(h: bv64, d: bv64)
    requires h <= 0xFFFF_FFFF && d <= 15 && (h & 15) + d > 15
    ensures Digit(h + d) as nat + 16 == Digit(h) as nat + Digit(d) as nat
  {
  }

  lemma Smaller(h: bv64, d: bv64)
    requires h <= 0xFFFF_FFFF && d <= 15 && (h & 15) + d > 15
    ensures h >> 4 < h && h >> 4 <= 0xFFFF_FFFF
  {
  }

  lemma PlusBelow(h: bv64, d: bv64)
    requires h <= 0xFFFF_FFFF && d <= 15 && (h & 15) + d <= 15
    ensures Value(h + d) == Value(h) + Digit(d) as nat
  {
    SumBelow(h, d);
    DigitBelow(h, d);
    ValueStep(h);
    ValueStep(h + d);
  }

  lemma PlusAbove(h: bv64, d: bv64)
    requires h <= 0xFFFF_FFFF && d <= 15 && (h & 15) + d > 15 && Value((h >> 4) + 1) == Value(h >> 4) + 1
    ensures Value(h + d) == Value(h) + Digit(d) as nat
  {
    SumAbove(h, d);
    DigitAbove(h, d);
    ValueStep(h);
    ValueStep(h + d);
  }

  lemma One()
    ensures Digit(1) as nat == 1
  {
  }

  /** Adding a digit to a word, carries included. */
  lemma {:induction false} ValuePlus(h: bv64, d: bv64)
    requires h <= 0xFFFF_FFFF && d <= 15
    ensures Value(h + d) == Value(h) + Digit(d) as nat
    decreases h
  {
    if (h & 15) + d <= 15 {
      PlusBelow(h, d);
    } else {
      Smaller(h, d);
      One();
      ValuePlus(h >> 4, 1);
      PlusAbove(h, d);
    }
  }

  lemma Halves(c: bv8)
    requires c < 0x80
    ensures (c >> 4) as bv64 <= 15
    ensures c as nat == 16 * Digit((c >> 4) as bv64) as nat + LowBits(c) as nat
  {
  }

  lemma TakesDigit(h: bv64, c: bv8)
    ensures Digit(TakeIn(h, c)) == LowBits(c)
  {
  }

  lemma TakesRest(h: bv64, c: bv8)
    requires h <= 0xFFFF_FFFF && c < 0x80
    ensures TakeIn(h, c) >> 4 == h + ((c >> 4) as bv64)
  {
  }

  lemma TakesParts(h: bv64, c: bv8)
    requires h <= 0xFFFF_FFFF && c < 0x80
    ensures Value(TakeIn(h, c)) == 16 * Value(h + ((c >> 4) as bv64)) + LowBits(c) as nat
  {
    TakesDigit(h, c);
    TakesRest(h, c);
    ValueStep(TakeIn(h, c));
  }

  lemma TakesAscii(h: bv64, c: bv8)
    requires h <= 0xFFFF_FFFF && c < 0x80
    ensures Value(TakeIn(h, c)) == 16 * Value(h) + c as nat
  {
    TakesParts(h, c);
    Halves(c);
    ValuePlus(h, (c >> 4) as bv64);
  }

  function Up(h: bv64): bv64 {
    h >> 4
  }

  predicate Small(x: bv64) {
    x <= 0xFFF_FFFF
  }

  lemma Unfolded(x: bv64)
    requires Small(x)
    ensures Fold(x) == x && x <= 0xFFFF_FFFF
  {
  }

  lemma {:induction false} ValueZero(x: bv64)
    requires Value(x) == 0
    ensures x == 0
    decreases x
  {
    if x != 0 {
      ValueZero(x >> 4);
      NoDigits(x);
    }
  }

  lemma NoDigits(x: bv64)
    requires Up(x) == 0 && Digit(x) == 0
    ensures x == 0
  {
  }

  lemma SevenUp(x: bv64)
    requires Up(Up(Up(Up(Up(Up(Up(x))))))) == 0
    ensures Small(x)
  {
  }

  lemma ValueUp(x: bv64, n: nat)
    requires Value(x) < 16 * n
    ensures Value(Up(x)) < n
  {
    ValueStep(x);
  }

  lemma ValueSmall(x: bv64)
    requires Value(x) < 0x1000_0000
    ensures Small(x)
  {
    var x1 := Up(x); var x2 := Up(x1); var x3 := Up(x2); var x4 := Up(x3); var x5 := Up(x4); var x6 := Up(x5);
    ValueUp(x, 0x100_0000);
    ValueUp(x1, 0x10_0000);
    ValueUp(x2, 0x1_0000);
    ValueUp(x3, 0x1000);
    ValueUp(x4, 0x100);
    ValueUp(x5, 0x10);
    ValueUp(x6, 1);
    ValueZero(Up(x6));
    SevenUp(x);
  }

  lemma AsciiMix(h: bv64, c: bv8)
    requires 16 * Value(h) + (c as nat) < 0x1000_0000 && c < 0x80
    ensures Value(Mix(h, c)) == 16 * Value(h) + c as nat
  {
    ValueSmall(h);
    Unfolded(h);
    TakesAscii(h, c);
    ValueSmall(TakeIn(h, c));
    Unfolded(TakeIn(h, c));
  }

  predicate Ascii(key: Bytes) {
    forall i :: 0 <= i < |key| ==> key[i] < 0x80
  }

  /** The codes of the characters, each weighing 16 times the next one. */
  function Weighed(key: Bytes): nat {
    if key == [] then 0 else 16 * Weighed(key[..|key| - 1]) + key[|key| - 1] as nat
  }

  /** The most that k ASCII characters can weigh. */
  function Heaviest(k: nat): nat {
    if k == 0 then 0 else 16 * Heaviest(k - 1) + 127
  }

  lemma {:induction false} WeighedBelow(key: Bytes)
    requires Ascii(key)
    ensures Weighed(key) <= Heaviest(|key|)
    decreases |key|
  {
    if key != [] {
      WeighedBelow(key[..|key| - 1]);
      CodeBelow(key[|key| - 1]);
    }
  }

  lemma CodeBelow(c: bv8)
    requires c < 0x80
    ensures c as nat <= 127
  {
  }

  lemma HeaviestAre(k: nat)
    requires k < 6
    ensures Heaviest(k) <= 0x87_776F
  {
    assert Heaviest(1) == 0x7F;
    assert Heaviest(2) == 0x86F;
    assert Heaviest(3) == 0x876F;
    assert Heaviest(4) == 0x8_776F;
    assert Heaviest(5) == 0x87_776F;
  }

  /** Up to six ASCII characters are hashed to their codes weighed by powers of 16: there is nothing to fold. */
  lemma {:induction false} RawShort(key: Bytes)
    requires Ascii(key) && |key| <= 6
    ensures Raw(key) == Weighed(key)
    decreases |key|
  {
    if key != [] {
      var m := |key| - 1;
      RawShort(key[..m]);
      WeighedBelow(key[..m]);
      HeaviestAre(m);
      CodeBelow(key[m]);
      AsciiMix(RawHash(key[..m]), key[m]);
    }
  }

  // ---------------------------------------------------------------- a longer name

  /** "www.sina.com" */
  const SINA: Bytes := [119, 119, 119, 46, 115, 105, 110, 97, 46, 99, 111, 109]

  lemma NextHash(k: nat, c: bv8, h: bv64, h': bv64)
    requires k < 12 && SINA[k] == c && RawHash(SINA[..k]) == h && Mix(h, c) == h'
    ensures RawHash(SINA[..k + 1]) == h'
  {
    RawHashStep(SINA, k);
  }

  lemma SinaBegin()
    ensures RawHash(SINA[..4]) == 0x7_EE9E
  {
    NextHash(0, 119, 0, 0x77);
    NextHash(1, 119, 0x77, 0x7E7);
    NextHash(2, 119, 0x7E7, 0x7EE7);
    NextHash(3, 46, 0x7EE7, 0x7_EE9E);
  }

  lemma SinaMiddle()
    ensures RawHash(SINA[..8]) == 0xEA5_99A1
  {
    SinaBegin();
    NextHash(4, 115, 0x7_EE9E, 0x7E_EA53);
    NextHash(5, 105, 0x7E_EA53, 0x7EE_A599);
    NextHash(6, 110, 0x7EE_A599, 0xEEA_598E);
    NextHash(7, 97, 0xEEA_598E, 0xEA5_99A1);
  }

  lemma SinaHash()
    ensures RawHash(SINA) == 0x9AE_EDCD
  {
    SinaMiddle();
    NextHash(8, 46, 0xEA5_99A1, 0xA59_9ADE);
    NextHash(9, 99, 0xA59_9ADE, 0x599_AEE3);
    NextHash(10, 111, 0x599_AEE3, 0x99A_EECF);
    NextHash(11, 109, 0x99A_EECF, 0x9AE_EDCD);
    assert SINA[..12] == SINA;
  }

  /** Seven of its twelve characters fold something back in. */
  lemma SinaRaw()
    ensures Raw(SINA) == 0x9AE_EDCD
  {
    SinaHash();
    assert Value(0) == 0;
    ValueStep(0x9);
    ValueStep(0x9A);
    ValueStep(0x9AE);
    ValueStep(0x9AEE);
    ValueStep(0x9_AEED);
    ValueStep(0x9A_EEDC);
    ValueStep(0x9AE_EDCD);
  }
}
