/**
 * A register that takes in a message one bit at a time, seen only through its algebra:
 * what holds here holds for every linear, invertible shift register of up to 32 bits.
 */
module ShiftRegister {

  type Bytes = seq<bv8>
  type Bits = seq<bool>

  /** Shifts per byte, and the longest word a register holds. */
  const EIGHT: nat := 8
  const WIDTH: nat := 32

  /** `add` is the sum without carry, `put(b, u)` makes b the lowest bit below u, `step` is one shift. */
  datatype Register<!T> = Register(
    add: (T, T) -> T,
    zero: T,
    bit: bool -> T,
    put: (bool, T) -> T,
    byte: bv8 -> T,
    step: T -> T)

  // ---------------------------------------------------------------- the register

  function Iter<T>(R: Register<T>, c: T, n: nat): T
    decreases n
  {
    if n == 0 then c else Iter(R, R.step(c), n - 1)
  }

  /** Feed a byte: eight shifts after adding it to the low end. */
  function Feed<T>(R: Register<T>, r: T, b: bv8): T {
    Iter(R, R.add(r, R.byte(b)), EIGHT)
  }

  function Run<T>(R: Register<T>, r: T, m: Bytes): T
    decreases |m|
  {
    if m == [] then r else Feed(R, Run(R, r, m[..|m| - 1]), m[|m| - 1])
  }

  /** Bit-serial form: one message bit a shift. */
  function FeedBit<T>(R: Register<T>, r: T, b: bool): T {
    R.step(R.add(r, R.bit(b)))
  }

  function RunBits<T>(R: Register<T>, r: T, m: Bits): T
    decreases |m|
  {
    if m == [] then r else FeedBit(R, RunBits(R, r, m[..|m| - 1]), m[|m| - 1])
  }

  function LowBits(b: bv8, n: nat): (s: Bits)
    ensures |s| == n
    decreases n
  {
    if n == 0 then [] else [b & 1 != 0] + LowBits(b >> 1, n - 1)
  }

  /** A byte's bits in the order the register takes them: least significant first. */
  function BitsOf(b: bv8): (s: Bits)
    ensures |s| == EIGHT
  {
    LowBits(b, EIGHT)
  }

  function MessageBits(m: Bytes): (s: Bits)
    ensures |s| == EIGHT * |m|
  {
    if m == [] then [] else MessageBits(m[..|m| - 1]) + BitsOf(m[|m| - 1])
  }

  /** The number a bit string spells, first bit lowest. */
  function Word<T>(R: Register<T>, w: Bits): T {
    if w == [] then R.zero else R.put(w[0], Word(R, w[1..]))
  }

  // ---------------------------------------------------------------- laws

  ghost predicate Additive<T(!new)>(R: Register<T>) {
    && (forall a :: R.add(a, R.zero) == a)
    && (forall a, b, c {:trigger R.add(a, c), R.add(b, c)} :: R.add(a, c) == R.add(b, c) ==> a == b)
    && (forall a, b, c {:trigger R.add(a, b), R.add(a, c)} :: R.add(a, b) == R.add(a, c) ==> b == c)
  }

  ghost predicate Medial<T(!new)>(R: Register<T>) {
    && (forall a, b, c, d {:trigger R.add(R.add(a, b), R.add(c, d))} ::
          R.add(R.add(a, b), R.add(c, d)) == R.add(R.add(a, c), R.add(b, d)))
    && (forall x, y, z {:trigger R.byte(x), R.byte(y), R.byte(z)} ::
          z == x ^ y ==> R.byte(z) == R.add(R.byte(x), R.byte(y)))
  }

  /** A word of fewer than 32 bits leaves room below it, and a shift drops what is put there. */
  ghost predicate Packing<T(!new)>(R: Register<T>) {
    && (forall r, b, w {:trigger R.add(r, R.put(b, Word(R, w)))} :: |w| < WIDTH ==>
          R.step(R.add(r, R.put(b, Word(R, w)))) == R.add(R.step(R.add(r, R.bit(b))), Word(R, w)))
    && (forall b {:trigger R.byte(b)} :: R.byte(b) == Word(R, BitsOf(b)))
  }

  /** No two bit strings of one length up to 32 spell the same word. */
  ghost predicate Spelling<T(!new)>(R: Register<T>) {
    forall u, w {:trigger Word(R, u), Word(R, w)} :: |u| == |w| <= WIDTH && Word(R, u) == Word(R, w) ==> u == w
  }

  ghost predicate Shifting<T(!new)>(R: Register<T>) {
    && (forall a, b {:trigger R.step(R.add(a, b))} :: R.step(R.add(a, b)) == R.add(R.step(a), R.step(b)))
    && (forall a, b {:trigger R.step(a), R.step(b)} :: R.step(a) == R.step(b) ==> a == b)
  }

  // ---------------------------------------------------------------- repeated steps

  lemma {:induction false} IterLinear<T(!new)>(R: Register<T>, a: T, b: T, n: nat)
    requires Shifting(R)
    ensures Iter(R, R.add(a, b), n) == R.add(Iter(R, a, n), Iter(R, b, n))
    decreases n
  {
    if n > 0 { IterLinear(R, R.step(a), R.step(b), n - 1); }
  }

  lemma {:induction false} IterInjective<T(!new)>(R: Register<T>, a: T, b: T, n: nat)
    requires Shifting(R) && Iter(R, a, n) == Iter(R, b, n)
    ensures a == b
    decreases n
  {
    if n > 0 { IterInjective(R, R.step(a), R.step(b), n - 1); }
  }

  lemma {:induction false} IterAdd<T>(R: Register<T>, x: T, a: nat, b: nat)
    ensures Iter(R, x, a + b) == Iter(R, Iter(R, x, a), b)
    decreases a
  {
    if a > 0 { IterAdd(R, R.step(x), a - 1, b); }
  }

  lemma {:induction false} RunConcat<T>(R: Register<T>, r: T, a: Bytes, b: Bytes)
    ensures Run(R, r, a + b) == Run(R, Run(R, r, a), b)
    decreases |b|
  {
    if b == [] {
      assert a + b == a;
    } else {
      var n := |b| - 1;
      assert (a + b)[..|a + b| - 1] == a + b[..n];
      RunConcat(R, r, a, b[..n]);
    }
  }

  lemma RunFront<T>(R: Register<T>, r: T, b: bv8, m: Bytes)
    ensures Run(R, r, [b] + m) == Run(R, Feed(R, r, b), m)
  {
    RunConcat(R, r, [b], m);
    assert Run(R, r, [b]) == Feed(R, Run(R, r, [b][..0]), b);
  }

  lemma {:induction false} RunBitsConcat<T>(R: Register<T>, r: T, a: Bits, b: Bits)
    ensures RunBits(R, r, a + b) == RunBits(R, RunBits(R, r, a), b)
    decreases |b|
  {
    if b == [] {
      assert a + b == a;
    } else {
      var n := |b| - 1;
      assert (a + b)[..|a + b| - 1] == a + b[..n];
      RunBitsConcat(R, r, a, b[..n]);
    }
  }

  lemma RunBitsFront<T>(R: Register<T>, r: T, w: Bits)
    requires w != []
    ensures RunBits(R, r, w) == RunBits(R, FeedBit(R, r, w[0]), w[1..])
  {
    assert w == [w[0]] + w[1..];
    RunBitsConcat(R, r, [w[0]], w[1..]);
    assert RunBits(R, r, [w[0]]) == FeedBit(R, RunBits(R, r, [w[0]][..0]), w[0]);
  }

  /** Different registers stay different on the same input. */
  lemma {:induction false} RunBitsInjective<T(!new)>(R: Register<T>, a: T, b: T, m: Bits)
    requires Additive(R) && Shifting(R) && RunBits(R, a, m) == RunBits(R, b, m)
    ensures a == b
    decreases |m|
  {
    if m != [] { RunBitsInjective(R, a, b, m[..|m| - 1]); }
  }

  // ---------------------------------------------------------------- words of up to 32 bits

  /** Up to 32 message bits may be added to the register at once and then shifted through. */
  lemma {:induction false} RunBitsWord<T(!new)>(R: Register<T>, r: T, w: Bits)
    requires Additive(R) && Packing(R) && |w| <= WIDTH
    ensures RunBits(R, r, w) == Iter(R, R.add(r, Word(R, w)), |w|)
    decreases |w|
  {
    if w != [] {
      RunBitsFront(R, r, w);
      RunBitsWord(R, FeedBit(R, r, w[0]), w[1..]);
    }
  }

  // ---------------------------------------------------------------- bytes are eight bits

  /** Byte-wise processing is bit-serial processing of all the bits. */
  lemma {:induction false} RunIsBits<T(!new)>(R: Register<T>, r: T, m: Bytes)
    requires Additive(R) && Packing(R)
    ensures Run(R, r, m) == RunBits(R, r, MessageBits(m))
    decreases |m|
  {
    if m != [] {
      var n := |m| - 1;
      RunIsBits(R, r, m[..n]);
      RunBitsWord(R, Run(R, r, m[..n]), BitsOf(m[n]));
      RunBitsConcat(R, r, MessageBits(m[..n]), BitsOf(m[n]));
    }
  }

  // ---------------------------------------------------------------- windows

  /** Equal outside one window of at most 32 bits, and not in it: the registers end up different. */
  lemma WindowDetected<T(!new)>(R: Register<T>, r: T, p: Bits, a: Bits, b: Bits, s: Bits)
    requires Additive(R) && Packing(R) && Shifting(R) && Spelling(R) && |a| == |b| <= WIDTH && a != b
    ensures RunBits(R, r, p + a + s) != RunBits(R, r, p + b + s)
  {
    var q := RunBits(R, r, p);
    RunBitsConcat(R, r, p + a, s);
    RunBitsConcat(R, r, p, a);
    RunBitsConcat(R, r, p + b, s);
    RunBitsConcat(R, r, p, b);
    if RunBits(R, r, p + a + s) == RunBits(R, r, p + b + s) {
      RunBitsInjective(R, RunBits(R, q, a), RunBits(R, q, b), s);
      RunBitsWord(R, q, a);
      RunBitsWord(R, q, b);
      IterInjective(R, R.add(q, Word(R, a)), R.add(q, Word(R, b)), |a|);
    }
  }

  // ---------------------------------------------------------------- sums of messages

  function XorBytes(a: Bytes, b: Bytes): (c: Bytes)
    requires |a| == |b|
    ensures |c| == |a|
  {
    seq(|a|, i requires 0 <= i < |a| => a[i] ^ b[i])
  }

  lemma FeedLinear<T(!new)>(R: Register<T>, r: T, s: T, x: bv8, y: bv8, z: bv8)
    requires Medial(R) && Shifting(R) && z == x ^ y
    ensures Feed(R, R.add(r, s), z) == R.add(Feed(R, r, x), Feed(R, s, y))
  {
    assert R.byte(z) == R.add(R.byte(x), R.byte(y));
    IterLinear(R, R.add(r, R.byte(x)), R.add(s, R.byte(y)), EIGHT);
  }

  ghost predicate FeedsLinearly<T(!new)>(R: Register<T>) {
    forall r, s, x, y, z {:trigger Feed(R, R.add(r, s), z), Feed(R, r, x), Feed(R, s, y)} ::
      z == x ^ y ==> Feed(R, R.add(r, s), z) == R.add(Feed(R, r, x), Feed(R, s, y))
  }

  lemma {:induction false} RunSum<T(!new)>(R: Register<T>, r: T, s: T, a: Bytes, b: Bytes)
    requires FeedsLinearly(R) && |a| == |b|
    ensures Run(R, R.add(r, s), XorBytes(a, b)) == R.add(Run(R, r, a), Run(R, s, b))
    decreases |a|
  {
    if a != [] {
      var n := |a| - 1;
      var c := XorBytes(a, b);
      assert c[..n] == XorBytes(a[..n], b[..n]) && c[n] == a[n] ^ b[n];
      RunSum(R, r, s, a[..n], b[..n]);
    }
  }

  /** The register of a sum of messages from a sum of starting values is the sum of the registers. */
  lemma RunLinear<T(!new)>(R: Register<T>, r: T, s: T, a: Bytes, b: Bytes)
    requires Medial(R) && Shifting(R) && |a| == |b|
    ensures Run(R, R.add(r, s), XorBytes(a, b)) == R.add(Run(R, r, a), Run(R, s, b))
  {
    forall r, s, x, y, z | z == x ^ y
      ensures Feed(R, R.add(r, s), z) == R.add(Feed(R, r, x), Feed(R, s, y))
    {
      FeedLinear(R, r, s, x, y, z);
    }
    RunSum(R, r, s, a, b);
  }
}
