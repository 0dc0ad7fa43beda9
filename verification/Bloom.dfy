/** The Bloom filter that remembers crawled URLs: eight bits a URL, tested and set in one pass. */
module Bloom {
  const HASH_FUNC_NUM := 8
  const BLOOM_SIZE := 1_000_000
  const BITSIZE_PER_BLOOM := 32
  const LIMIT := BLOOM_SIZE * BITSIZE_PER_BLOOM

  /** The eight string hashes, each an unsigned 32-bit number. */
  type Hashes<!U> = (U, int) -> nat

  // ---------------------------------------------------------------- the filter as a set of bit numbers

  function Position<U>(encrypt: Hashes<U>, url: U, i: int): (h: int)
    ensures 0 <= h < LIMIT
  {
    encrypt(url, i) % LIMIT
  }

  ghost function Positions<U>(encrypt: Hashes<U>, url: U, n: int): set<int> {
    set i | 0 <= i < n :: Position(encrypt, url, i)
  }

  ghost predicate Seen<U>(encrypt: Hashes<U>, bits: set<int>, url: U) {
    Positions(encrypt, url, HASH_FUNC_NUM) <= bits
  }

  ghost function Remember<U>(encrypt: Hashes<U>, bits: set<int>, url: U): set<int> {
    bits + Positions(encrypt, url, HASH_FUNC_NUM)
  }

  ghost function RememberAll<U>(encrypt: Hashes<U>, bits: set<int>, urls: seq<U>): set<int> {
    if urls == [] then bits
    else Remember(encrypt, RememberAll(encrypt, bits, urls[..|urls| - 1]), urls[|urls| - 1])
  }

  // ---------------------------------------------------------------- the packed table

  function Mask(pos: int): bv32
    requires 0 <= pos < BITSIZE_PER_BLOOM
  {
    0x8000_0000 >> pos
  }

  function Meet(a: bv32, b: bv32): bv32 {
    a & b
  }

  function Join(a: bv32, b: bv32): bv32 {
    a | b
  }

  predicate BitSet(word: bv32, pos: int)
    requires 0 <= pos < BITSIZE_PER_BLOOM
  {
    Meet(word, Mask(pos)) != 0
  }

  predicate On(words: seq<bv32>, h: int)
    requires 0 <= h < BITSIZE_PER_BLOOM * |words|
  {
    BitSet(words[h / BITSIZE_PER_BLOOM], h % BITSIZE_PER_BLOOM)
  }

  /** The bit numbers that are on in a packed table. */
  ghost function BitsOf(words: seq<bv32>): set<int> {
    set h | 0 <= h < BITSIZE_PER_BLOOM * |words| && On(words, h)
  }

  lemma MasksDiffer(p: int, q: int)
    requires 0 <= p < q < BITSIZE_PER_BLOOM
    ensures Meet(Mask(p), Mask(q)) == 0
  {
  }

  lemma MaskOn(p: int)
    requires 0 <= p < BITSIZE_PER_BLOOM
    ensures Mask(p) != 0
  {
  }

  lemma JoinMeet(w: bv32, m: bv32, n: bv32)
    ensures Meet(Join(w, m), n) == Join(Meet(w, n), Meet(m, n))
  {
  }

  lemma JoinSelf(w: bv32, m: bv32)
    ensures Meet(Join(w, m), m) == m
  {
  }

  lemma JoinZero(w: bv32)
    ensures Join(w, 0) == w
  {
  }

  lemma MeetSwap(m: bv32, n: bv32)
    ensures Meet(m, n) == Meet(n, m)
  {
  }

  lemma SetBit(word: bv32, pos: int, q: int)
    requires 0 <= pos < BITSIZE_PER_BLOOM && 0 <= q < BITSIZE_PER_BLOOM
    ensures BitSet(Join(word, Mask(pos)), q) == (BitSet(word, q) || q == pos)
  {
    if q == pos {
      MaskOn(q);
      JoinSelf(word, Mask(q));
    } else {
      if pos < q { MasksDiffer(pos, q); } else { MasksDiffer(q, pos); }
      MeetSwap(Mask(pos), Mask(q));
      JoinMeet(word, Mask(pos), Mask(q));
      JoinZero(Meet(word, Mask(q)));
    }
  }

  lemma SetInTable(words: seq<bv32>, h: int)
    requires 0 <= h < BITSIZE_PER_BLOOM * |words|
    ensures 0 <= h / BITSIZE_PER_BLOOM < |words| && 0 <= h % BITSIZE_PER_BLOOM < BITSIZE_PER_BLOOM
    ensures var k := h / BITSIZE_PER_BLOOM;
      BitsOf(words[k := Join(words[k], Mask(h % BITSIZE_PER_BLOOM))]) == BitsOf(words) + {h}
  {
    var k, pos := h / BITSIZE_PER_BLOOM, h % BITSIZE_PER_BLOOM;
    var after := words[k := Join(words[k], Mask(pos))];
    forall g | 0 <= g < BITSIZE_PER_BLOOM * |words| ensures g in BitsOf(after) <==> g in BitsOf(words) || g == h {
      SetBit(words[k], pos, g % BITSIZE_PER_BLOOM);
    }
  }

  lemma AlreadySet(words: seq<bv32>, h: int)
    requires 0 <= h < BITSIZE_PER_BLOOM * |words| && BitSet(words[h / BITSIZE_PER_BLOOM], h % BITSIZE_PER_BLOOM)
    ensures h in BitsOf(words) && BitsOf(words) + {h} == BitsOf(words)
  {
  }

  /** Bits p of this URL are on, besides those on before; h is its next one. */
  lemma HitCounts(before: set<int>, p: set<int>, h: int)
    ensures p + {h} <= before <==> p <= before && h in before + p
    ensures before + p + {h} == before + (p + {h})
  {
  }

  class Filter<U> {
    const encrypt: Hashes<U>
    const table: array<bv32>

    ghost function Bits(): set<int>
      reads table
    {
      BitsOf(table[..])
    }

    constructor (encrypt: Hashes<U>)
      ensures this.encrypt == encrypt && table.Length == BLOOM_SIZE && fresh(table) && Bits() == {}
    {
      this.encrypt := encrypt;
      table := new bv32[BLOOM_SIZE](_ => 0);
      new;
      forall h | 0 <= h < LIMIT ensures h !in Bits() { NoBit(h % BITSIZE_PER_BLOOM); }
    }

    /** True exactly when all eight bits were on before the call; afterwards they are on, and no others changed. */
    method Search(url: U) returns (crawled: bool)
      requires table.Length == BLOOM_SIZE
      modifies table
      ensures crawled == Seen(encrypt, old(Bits()), url)
      ensures Bits() == Remember(encrypt, old(Bits()), url)
    {
      var res := 0;
      ghost var before := Bits();
      for i := 0 to HASH_FUNC_NUM
        invariant 0 <= res <= i
        invariant res == i <==> Positions(encrypt, url, i) <= before
        invariant Bits() == before + Positions(encrypt, url, i)
      {
        PositionsStep(encrypt, url, i);
        HitCounts(before, Positions(encrypt, url, i), Position(encrypt, url, i));
        var hit := TestAndSet(encrypt(url, i) % LIMIT);
        if hit {
          res := res + 1;
        }
      }
      crawled := res == HASH_FUNC_NUM;
    }

    /** The loop body: one bit tested, and set if it was off. */
    method TestAndSet(h: int) returns (hit: bool)
      requires table.Length == BLOOM_SIZE && 0 <= h < LIMIT
      modifies table
      ensures hit == (h in old(Bits())) && Bits() == old(Bits()) + {h}
    {
      SetInTable(table[..], h);
      var index := h / BITSIZE_PER_BLOOM;
      var pos := h % BITSIZE_PER_BLOOM;
      hit := BitSet(table[index], pos);
      if hit {
        AlreadySet(table[..], h);
      } else {
        ghost var words := table[..];
        table[index] := Join(table[index], Mask(pos));
        assert table[..] == words[index := Join(words[index], Mask(pos))];
      }
    }
  }

  lemma NoBit(pos: int)
    requires 0 <= pos < BITSIZE_PER_BLOOM
    ensures !BitSet(0, pos)
  {
  }

  lemma PositionsStep<U>(encrypt: Hashes<U>, url: U, i: int)
    requires 0 <= i
    ensures Positions(encrypt, url, i + 1) == Positions(encrypt, url, i) + {Position(encrypt, url, i)}
  {
  }

  // ---------------------------------------------------------------- whole histories

  ghost function AllPositions<U>(encrypt: Hashes<U>, urls: seq<U>): set<int> {
    set k, i | 0 <= k < |urls| && 0 <= i < HASH_FUNC_NUM :: Position(encrypt, urls[k], i)
  }

  /** After any searches the filter holds what it held before and the bits of every URL searched. */
  lemma {:induction false} HistoryIsUnion<U>(encrypt: Hashes<U>, bits: set<int>, urls: seq<U>)
    ensures RememberAll(encrypt, bits, urls) == bits + AllPositions(encrypt, urls)
    decreases |urls|
  {
    if urls != [] {
      var n := |urls| - 1;
      HistoryIsUnion(encrypt, bits, urls[..n]);
      assert AllPositions(encrypt, urls)
          == AllPositions(encrypt, urls[..n]) + Positions(encrypt, urls[n], HASH_FUNC_NUM);
    }
  }

  /** A URL searched once is reported as seen for ever after. */
  lemma SeenForEver<U>(encrypt: Hashes<U>, bits: set<int>, urls: seq<U>, k: int)
    requires 0 <= k < |urls|
    ensures Seen(encrypt, RememberAll(encrypt, bits, urls), urls[k])
  {
    HistoryIsUnion(encrypt, bits, urls);
  }

  /** Bit h is one of the eight bits of some URL of the list. */
  ghost predicate Held<U>(e: Hashes<U>, urls: seq<U>, h: int) {
    exists k, j :: 0 <= k < |urls| && 0 <= j < 8 && e(urls[k], j) % 32_000_000 == h
  }

  lemma HeldIs<U>(e: Hashes<U>, urls: seq<U>, h: int)
    ensures h in AllPositions(e, urls) <==> Held(e, urls, h)
  {
    if h in AllPositions(e, urls) {
      var k, j :| 0 <= k < |urls| && 0 <= j < HASH_FUNC_NUM && h == Position(e, urls[k], j);
      assert e(urls[k], j) % 32_000_000 == h;
    }
    forall k, j | 0 <= k < |urls| && 0 <= j < 8 && e(urls[k], j) % 32_000_000 == h
      ensures h in AllPositions(e, urls)
    {
      assert Position(e, urls[k], j) == h;
    }
  }

  /**
   * What the filter answers, bit by bit: after searches that began with an empty filter, v tests as seen exactly when
   * each of its eight bits is held.
   */
  lemma SeenExactly<U>(e: Hashes<U>, urls: seq<U>, v: U)
    ensures Seen(e, RememberAll(e, {}, urls), v) <==>
            forall i :: 0 <= i < 8 ==> Held(e, urls, e(v, i) % 32_000_000)
  {
    HistoryIsUnion(e, {}, urls);
    var all := AllPositions(e, urls);
    assert {} + all == all;
    PositionsAre(e, v);
    forall i | 0 <= i < 8 ensures e(v, i) % 32_000_000 in all <==> Held(e, urls, e(v, i) % 32_000_000) {
      HeldIs(e, urls, e(v, i) % 32_000_000);
    }
    forall i | 0 <= i < 8 ensures e(v, i) % 32_000_000 == Position(e, v, i) {}
  }

  lemma PositionsAre<U>(e: Hashes<U>, v: U)
    ensures Positions(e, v, HASH_FUNC_NUM) == set i | 0 <= i < 8 :: Position(e, v, i)
  {
  }

  ghost predicate InFilter(bits: set<int>) {
    forall h :: h in bits ==> 0 <= h < LIMIT
  }

  lemma RememberInFilter<U>(encrypt: Hashes<U>, bits: set<int>, url: U)
    requires InFilter(bits)
    ensures InFilter(Remember(encrypt, bits, url))
  {
  }

  /** A URL reported as new turns at least one more bit on. */
  lemma NewUrlGrows<U>(encrypt: Hashes<U>, bits: set<int>, url: U)
    requires !Seen(encrypt, bits, url)
    ensures |Remember(encrypt, bits, url)| > |bits|
  {
    var h :| h in Positions(encrypt, url, HASH_FUNC_NUM) && h !in bits;
    Subset(bits + {h}, Remember(encrypt, bits, url));
    assert |bits + {h}| == |bits| + 1;
  }

  lemma Subset(a: set<int>, b: set<int>)
    requires a <= b
    ensures |a| <= |b|
  {
    assert a + (b - a) == b && a * (b - a) == {};
  }

  lemma {:induction false} AtMost(bits: set<int>, n: nat)
    requires forall h :: h in bits ==> 0 <= h < n
    ensures |bits| <= n
  {
    if n == 0 {
      assert forall h :: h !in bits;
      assert |bits| == 0;
    } else {
      AtMost(bits - {n - 1}, n - 1);
    }
  }
}
