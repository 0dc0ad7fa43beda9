/** The hash and equality a map gets when none are given, and what they do and do not promise. */
module DefaultKeying {
  import opened Options
  import opened HashTable
  import opened HashTableLaws
  import opened HashTableAnyPair
  import opened HashTableSame
  import opened HashTableGrowth
  import opened HashTableLoss
  import opened HashTableOn
  import opened HashTableApart
  import opened HostAddresses
  import opened DefaultHash

  // ---------------------------------------------------------------- growth moves an entry by 0 or n

  /** A hash that is one number reduced to the table size, as the default one is. */
  ghost predicate Reduced<K(!new)>(o: Keying<K>, raw: K -> nat) {
    forall k, n :: 0 < n ==> o.hash(k, n) == raw(k) % n
  }

  lemma ModDouble(h: nat, n: int)
    requires 0 < n
    ensures h % (2 * n) == h % n || h % (2 * n) == h % n + n
  {
    var q, r := h / (2 * n), h % (2 * n);
    var m := if r < n then r else r - n;
    assert h == (2 * q + if r < n then 0 else 1) * n + m;
    ModUnique(h, n, 2 * q + if r < n then 0 else 1, m);
  }

  lemma HalfMod(h: nat, n: int)
    requires 0 < n
    ensures h % (2 * n) % n == h % n
  {
    ModDouble(h, n);
    ModUnique(h % n, n, 0, h % n);
    if h % (2 * n) == h % n + n { ModUnique(h % n + n, n, 1, h % n); }
  }

  /** Such a table loses nothing when it doubles: entries that did not meet in n buckets do not meet in 2n. */
  lemma DoublingKeeps<K(!new), V>(o: Keying<K>, raw: K -> nat, t: Table<K, V>)
    requires Reduced(o, raw) && TableOk(o, t) && INITIAL_SIZE <= |t.buckets|
    ensures var r := Reset(o, t, 2 * |t.buckets|);
            r.size == t.size && |r.buckets| == 2 * |t.buckets| && Filed(o, r.buckets, Flatten(t.buckets))
  {
    var n, ps := |t.buckets|, Flatten(t.buckets);
    TableNoClash(o, t);
    forall i, j | 0 <= i < j < |ps| ensures !Hits(o, ps[i].key, ps[j].key, 2 * n) {
      assert !Hits(o, ps[i].key, ps[j].key, n);
      HalfMod(raw(ps[i].key), n);
      HalfMod(raw(ps[j].key), n);
    }
    RefillKeeps(o, 2 * n, t.autoAssign, ps);
  }

  /** Doubling a table of n buckets moves every entry of bucket i, as it is, to bucket i or i + n. */
  lemma DoublingMoves<K(!new), V>(o: Keying<K>, raw: K -> nat, t: Table<K, V>, i: int, p: Pair<K, V>)
    requires Reduced(o, raw) && TableOk(o, t) && INITIAL_SIZE <= |t.buckets|
    requires 0 <= i < |t.buckets| && p in t.buckets[i]
    ensures var n := |t.buckets|;
            var bs := Reset(o, t, 2 * n).buckets;
            && |bs| == 2 * n
            && (p in bs[i] || p in bs[i + n])
            && o.hash(p.key, 2 * n) in {i, i + n}
  {
    var n := |t.buckets|;
    var j :| 0 <= j < |t.buckets[i]| && t.buckets[i][j] == p;
    FlattenHas(t.buckets, i, j);
    assert Homed(o, t.buckets[i], i, n);
    ModDouble(raw(p.key), n);
    DoublingKeeps(o, raw, t);
  }

  // ---------------------------------------------------------------- shrinking keeps at least every other entry

  lemma {:induction false} FlattenSplit<K, V>(a: seq<Bucket<K, V>>, b: seq<Bucket<K, V>>)
    ensures Flatten(a + b) == Flatten(a) + Flatten(b)
    decreases |b|
  {
    if b == [] {
      assert a + b == a && Flatten(a) + [] == Flatten(a);
    } else {
      var m := |b| - 1;
      assert (a + b)[..|a + b| - 1] == a + b[..m];
      FlattenSplit(a, b[..m]);
      assert Flatten(a) + (Flatten(b[..m]) + b[m]) == Flatten(a) + Flatten(b[..m]) + b[m];
    }
  }

  /** In one half of 2n buckets, what would meet in n buckets meets already. */
  ghost predicate OneHalf<K(!new), V>(o: Keying<K>, ps: seq<Pair<K, V>>, n: int) {
    || (forall i :: 0 <= i < |ps| ==> o.hash(ps[i].key, 2 * n) < n)
    || (forall i :: 0 <= i < |ps| ==> o.hash(ps[i].key, 2 * n) >= n)
  }

  lemma HalfNoClash<K(!new), V>(o: Keying<K>, raw: K -> nat, ps: seq<Pair<K, V>>, n: int)
    requires Reduced(o, raw) && 0 < n && NoClash(o, 2 * n, ps) && OneHalf(o, ps, n)
    ensures NoClash(o, n, ps)
  {
    forall i, j | 0 <= i < j < |ps| ensures !Hits(o, ps[i].key, ps[j].key, n) {
      assert !Hits(o, ps[i].key, ps[j].key, 2 * n);
      ModDouble(raw(ps[i].key), n);
      ModDouble(raw(ps[j].key), n);
      HalfMod(raw(ps[i].key), n);
      HalfMod(raw(ps[j].key), n);
    }
  }

  /** All keys of a part of the entries without clashes are known after a refill, each by an entry of its own. */
  lemma PartKept<K(!new), V>(o: Keying<K>, t: Table<K, V>, n: int, from: nat, to: nat)
    requires Ranged(o) && Equivalence(o) && TableOk(o, t) && INITIAL_SIZE <= n
    requires from <= to <= |Flatten(t.buckets)| && NoClash(o, n, Flatten(t.buckets)[from..to])
    ensures to - from <= Reset(o, t, n).size
  {
    var ps, r := Flatten(t.buckets), Reset(o, t, n);
    var part := ps[from..to];
    ResetTable(o, t, n);
    ResetSize(o, t, n);
    var keys := seq(to - from, i requires 0 <= i < to - from => part[i].key);
    forall i | 0 <= i < |keys| ensures Knows(o, r, keys[i]) {
      assert keys[i] == ps[from + i].key;
      RefillKnows(o, n, t.autoAssign, ps, from + i);
    }
    forall i, j | 0 <= i < j < |keys| ensures !Hits(o, keys[i], keys[j], n) {
      assert !Hits(o, part[i].key, part[j].key, n);
    }
    KnownCount(o, r, keys);
  }

  lemma NoClashPart<K(!new), V>(o: Keying<K>, n: int, ps: seq<Pair<K, V>>, from: nat, to: nat)
    requires from <= to <= |ps| && NoClash(o, n, ps)
    ensures NoClash(o, n, ps[from..to])
  {
    var part := ps[from..to];
    forall i, j | 0 <= i < j < |part| ensures !Hits(o, part[i].key, part[j].key, n) {
      assert !Hits(o, ps[from + i].key, ps[from + j].key, n);
    }
  }

  /** The entries before position m are those of the lower half of the buckets, the others those of the upper half. */
  lemma Halves<K(!new), V>(o: Keying<K>, t: Table<K, V>, n: int) returns (m: nat)
    requires TableOk(o, t) && |t.buckets| == 2 * n
    ensures m <= |Flatten(t.buckets)|
    ensures OneHalf(o, Flatten(t.buckets)[..m], n) && OneHalf(o, Flatten(t.buckets)[m..], n)
  {
    var lower, upper := t.buckets[..n], t.buckets[n..];
    assert lower + upper == t.buckets;
    FlattenSplit(lower, upper);
    m := |Flatten(lower)|;
    var ps := Flatten(t.buckets);
    assert ps[..m] == Flatten(lower) && ps[m..] == Flatten(upper);
    forall i | 0 <= i < |ps[..m]| ensures o.hash(ps[..m][i].key, 2 * n) < n {
      var h, j := FlattenIn(lower, ps[..m][i]);
      assert lower[h] == t.buckets[h] && Homed(o, t.buckets[h], h, 2 * n);
    }
    forall i | 0 <= i < |ps[m..]| ensures o.hash(ps[m..][i].key, 2 * n) >= n {
      var h, j := FlattenIn(upper, ps[m..][i]);
      assert upper[h] == t.buckets[n + h] && Homed(o, t.buckets[n + h], n + h, 2 * n);
    }
  }

  /** Halving the buckets keeps at least half of the entries: in each half of them nothing new meets. */
  lemma HalvingKeeps<K(!new), V>(o: Keying<K>, raw: K -> nat, t: Table<K, V>, n: int)
    requires Reduced(o, raw) && Equivalence(o) && TableOk(o, t) && |t.buckets| == 2 * n && INITIAL_SIZE <= n
    ensures 2 * Reset(o, t, n).size >= t.size
  {
    var ps := Flatten(t.buckets);
    TableNoClash(o, t);
    var m := Halves(o, t, n);
    NoClashPart(o, 2 * n, ps, 0, m);
    NoClashPart(o, 2 * n, ps, m, |ps|);
    assert ps[0..m] == ps[..m] && ps[m..|ps|] == ps[m..];
    HalfNoClash(o, raw, ps[0..m], n);
    HalfNoClash(o, raw, ps[m..|ps|], n);
    PartKept(o, t, n, 0, m);
    PartKept(o, t, n, m, |ps|);
  }

  lemma PutLoadReduced<K(!new), V>(o: Keying<K>, raw: K -> nat, t: Table<K, V>, k: K, v: V)
    requires Reduced(o, raw) && Equivalence(o) && TableOk(o, t) && t.autoAssign && LoadOk(t)
    ensures var r := Put(o, t, k, v); TableOk(o, r) && r.autoAssign && LoadOk(r)
  {
    var n := |t.buckets|;
    DoubleSize(n);
    if t.size >= n {
      DoublingKeeps(o, raw, t);
      ResetTable(o, t, 2 * n);
    }
    PlainOk(o, if t.size >= n then Reset(o, t, 2 * n) else t, k, v);
  }

  lemma RemoveLoadReduced<K(!new), V>(o: Keying<K>, raw: K -> nat, t: Table<K, V>, k: K)
    requires Reduced(o, raw) && Equivalence(o) && TableOk(o, t) && t.autoAssign && LoadOk(t)
    ensures var r := Remove(o, t, k); TableOk(o, r) && r.autoAssign && LoadOk(r)
  {
    var n, t' := |t.buckets|, RemovePlain(o, t, k);
    RemovePlainOk(o, t, k);
    if Find(o, t, k).Some? && t'.size < n / 2 && n != INITIAL_SIZE {
      LargeSize(n);
      ResetTable(o, t', n / 2);
      ResetSize(o, t', n / 2);
      HalvingKeeps(o, raw, t', n / 2);
      if n / 2 != INITIAL_SIZE { LargeSize(n / 2); }
    }
  }

  /** With a hash that is one number reduced to the table size the load bounds hold for every pair in every run. */
  lemma {:induction false} RunLoadReduced<K(!new), V>(o: Keying<K>, raw: K -> nat, t: Table<K, V>,
                                                      cs: seq<Command<K, V>>)
    requires Reduced(o, raw) && Equivalence(o) && TableOk(o, t) && t.autoAssign && LoadOk(t)
    ensures var r := TableRun(o, t, cs).0; TableOk(o, r) && r.autoAssign && LoadOk(r)
    decreases |cs|
  {
    if cs != [] {
      match cs[0] {
        case CmdPut(k, v) => PutLoadReduced(o, raw, t, k, v);
        case CmdRemove(k) => RemoveLoadReduced(o, raw, t, k);
        case _ =>
      }
      RunLoadReduced(o, raw, TableStep(o, t, cs[0]).0, cs[1..]);
    }
  }

  // ---------------------------------------------------------------- the default pair

  /** Comparison of the first four bytes, for strings that have four counting the terminator. */
  predicate Equal(a: Bytes, b: Bytes) {
    First4(a) == First4(b)
  }

  function First4(a: Bytes): Bytes {
    if |a| >= 4 then a[..4] else a + [0]
  }

  /** Byte i of a string in memory, the terminator included. */
  function ByteAt(a: Bytes, i: nat): bv8
    requires i <= |a|
  {
    if i < |a| then a[i] else 0
  }

  /** Strings of at least three characters are equal when the four bytes at their start are. */
  lemma EqualIs(a: Bytes, b: Bytes)
    requires |a| >= 3 && |b| >= 3
    ensures Equal(a, b) <==>
            ByteAt(a, 0) == ByteAt(b, 0) && ByteAt(a, 1) == ByteAt(b, 1) && ByteAt(a, 2) == ByteAt(b, 2)
            && ByteAt(a, 3) == ByteAt(b, 3)
  {
    assert |First4(a)| == 4 == |First4(b)|;
    assert forall i :: 0 <= i < 4 ==> First4(a)[i] == ByteAt(a, i) && First4(b)[i] == ByteAt(b, i);
    assert Equal(a, b) <==> forall i :: 0 <= i < 4 ==> First4(a)[i] == First4(b)[i];
  }

  function Default(): Keying<Bytes> {
    Keying((k: Bytes, n: int) => if 0 < n then Raw(k) % n else 0, Equal)
  }

  lemma DefaultPair()
    ensures Ranged(Default()) && Equivalence(Default()) && Reduced(Default(), Raw)
  {}

  /** Whatever has been done to a map with the default pair, its table is well formed and within the load bounds. */
  lemma DefaultTables<V>(cs: seq<Command<Bytes, V>>)
    ensures Ranged(Default())
    ensures var t := TableRun(Default(), Empty<Bytes, V>(INITIAL_SIZE, true), cs).0;
            TableOk(Default(), t) && LoadOk(t)
  {
    DefaultPair();
    var t0 := Empty<Bytes, V>(INITIAL_SIZE, true);
    EmptyOk<Bytes, V>(Default(), INITIAL_SIZE, true);
    FlattenEmpty(t0.buckets);
    assert INITIAL_SIZE == INITIAL_SIZE * Pow2(0);
    RunLoadReduced(Default(), Raw, t0, cs);
  }

  /** The keys agree on their first four bytes and land in the same of n buckets. */
  predicate Confused(k: Bytes, q: Bytes, n: int)
    requires 0 < n
  {
    First4(k) == First4(q) && Raw(k) % n == Raw(q) % n
  }

  /** A lookup answers with the entry its key is confused with, and with nothing if there is none. */
  lemma DefaultFind<V>(t: Table<Bytes, V>, q: Bytes)
    requires TableOk(Default(), t)
    ensures InRange(Default(), t, q)
    ensures forall p | p in Flatten(t.buckets) :: Confused(p.key, q, |t.buckets|) ==>
              Find(Default(), t, q) == Some(p.value)
    ensures Find(Default(), t, q) == None <==>
            forall p | p in Flatten(t.buckets) :: !Confused(p.key, q, |t.buckets|)
  {
    DefaultPair();
    FindExactly(Default(), t, q);
    forall p | p in Flatten(t.buckets)
      ensures Confused(p.key, q, |t.buckets|) <==> Hits(Default(), p.key, q, |t.buckets|)
    {}
  }

  // ---------------------------------------------------------------- which keys it serves

  /** No two keys of the set agree on their first four bytes and part at a size the map can come to have with them. */
  ghost predicate NeverParted(ks: iset<Bytes>) {
    forall a, b, n | a in ks && b in ks && Size(Default(), ks, n) ::
      First4(a) == First4(b) ==> Raw(a) % n == Raw(b) % n
  }

  /**
   * With the default pair every run of a new map on a set of keys answers as the finite map modulo equality does,
   * exactly when keys that agree on their first four bytes share a bucket at every size the map can come to have.
   */
  lemma DefaultServes<V(!new)>(ks: iset<Bytes>, v: V)
    ensures Ranged(Default())
    ensures Serves(Default(), ks, v) <==> NeverParted(ks)
  {
    DefaultPair();
    ServesExactly(Default(), ks, v);
    DefaultAlike(ks);
  }

  lemma DefaultAlike(ks: iset<Bytes>)
    ensures AlikeOn(Default(), ks) <==> NeverParted(ks)
  {
    var o := Default();
    if AlikeOn(o, ks) {
      forall a, b, n | a in ks && b in ks && Size(o, ks, n) && First4(a) == First4(b) ensures Raw(a) % n == Raw(b) % n {
        LeastSize(n);
        assert o.equal(a, b) && o.hash(a, n) == o.hash(b, n);
      }
    }
    if NeverParted(ks) {
      forall a, b, n | a in ks && b in ks && Size(o, ks, n) && o.equal(a, b) ensures o.hash(a, n) == o.hash(b, n) {
        LeastSize(n);
        assert Raw(a) % n == Raw(b) % n;
      }
    }
  }

  lemma SmallMod(h: nat, n: int)
    requires h < n
    ensures h % n == h
  {}

  /**
   * For sets that bring about a size above all their unreduced hashes: exactly when keys that agree on four bytes have
   * the same unreduced hash.
   */
  lemma DefaultServesMany<V(!new)>(ks: iset<Bytes>, n: int, v: V)
    requires Size(Default(), ks, n) && forall k | k in ks :: Raw(k) < n
    ensures Ranged(Default())
    ensures Serves(Default(), ks, v) <==>
            forall a, b | a in ks && b in ks :: First4(a) == First4(b) ==> Raw(a) == Raw(b)
  {
    DefaultServes(ks, v);
    if NeverParted(ks) {
      forall a, b | a in ks && b in ks && First4(a) == First4(b) ensures Raw(a) == Raw(b) {
        SmallMod(Raw(a), n);
        SmallMod(Raw(b), n);
      }
    }
  }

  /** No two strings of the set are confused at a size that it can bring about when strings are told apart. */
  ghost predicate NeverConfused(ks: iset<Bytes>) {
    forall a, b, n | a in ks && b in ks && a != b && Size(Exact(Default()), ks, n) :: !Confused(a, b, n)
  }

  /**
   * With the default pair every run of a new map on a set of strings answers as the map keyed by the strings
   * themselves, exactly when no two of them are confused at 8 or at a larger size of which the set holds half as many.
   */
  lemma DefaultTellsApart<V(!new)>(ks: iset<Bytes>, v: V, w: V)
    requires v != w
    ensures Ranged(Default())
    ensures TellsApart(Default(), ks, v) <==> NeverConfused(ks)
  {
    var o := Default();
    DefaultPair();
    TellsApartExactly(o, ks, v, w);
    forall n | Size(Exact(o), ks, n)
      ensures ApartAt(o, ks, n) <==> forall a, b | a in ks && b in ks && a != b :: !Confused(a, b, n)
    {
      LeastSize(n);
      forall a, b ensures Hits(o, a, b, n) <==> Confused(a, b, n) {}
    }
  }

  /**
   * With the default pair every URL gets its own host's address in every sequence of turns, exactly when no two names
   * of the set are confused at 8 or at a larger size of which the set holds more than half.
   */
  lemma DefaultOwnAddresses<V(!new)>(ks: iset<Bytes>, v: V, w: V)
    requires v != w
    ensures Ranged(Default())
    ensures OwnAddresses(Default(), ks, v) <==>
            forall a, b, n | a in ks && b in ks && a != b && Reach(Default(), ks, n) :: !Confused(a, b, n)
  {
    var o := Default();
    DefaultPair();
    OwnAddressesExactly(o, ks, v, w);
    forall n | Reach(o, ks, n)
      ensures ApartAt(o, ks, n) <==> forall a, b | a in ks && b in ks && a != b :: !Confused(a, b, n)
    {
      LeastSize(n);
      forall a, b ensures Hits(o, a, b, n) <==> Confused(a, b, n) {}
    }
  }

  // ---------------------------------------------------------------- what names may end in

  /** Strings that are confused in a larger table are confused in the smallest one. */
  lemma {:induction false} ConfusedFirst(a: Bytes, b: Bytes, k: nat)
    ensures Confused(a, b, INITIAL_SIZE * Pow2(k)) ==> Confused(a, b, INITIAL_SIZE)
    decreases k
  {
    if k > 0 {
      var n := INITIAL_SIZE * Pow2(k - 1);
      HalfMod(Raw(a), n);
      HalfMod(Raw(b), n);
      assert 2 * n == INITIAL_SIZE * Pow2(k);
      ConfusedFirst(a, b, k - 1);
    }
  }

  /** No two strings of the set agree on four bytes and on the code of their last character modulo 8. */
  ghost predicate TailsDiffer(ks: iset<Bytes>) {
    forall a, b | a in ks && b in ks && a != b :: First4(a) == First4(b) ==> Tail(a) != Tail(b)
  }

  lemma ConfusedIs(a: Bytes, b: Bytes, n: int)
    requires TableSize(n)
    ensures n >= INITIAL_SIZE
    ensures Confused(a, b, INITIAL_SIZE) <==> First4(a) == First4(b) && Tail(a) == Tail(b)
    ensures Confused(a, b, n) ==> Confused(a, b, INITIAL_SIZE)
  {
    LeastSize(n);
    RawTail(a);
    RawTail(b);
    var k: nat :| n == INITIAL_SIZE * Pow2(k);
    ConfusedFirst(a, b, k);
  }

  /**
   * The condition in a caller's terms: with the default pair a map tells strings apart, and gives every URL its own
   * host's address, exactly when no two of them agree on four bytes and on the last character's code modulo 8.
   */
  lemma DefaultByTails<V(!new)>(ks: iset<Bytes>, v: V, w: V)
    requires v != w
    ensures Ranged(Default())
    ensures OwnAddresses(Default(), ks, v) <==> TailsDiffer(ks)
    ensures TellsApart(Default(), ks, v) <==> TailsDiffer(ks)
  {
    DefaultOwnAddresses(ks, v, w);
    DefaultTellsApart(ks, v, w);
    FirstSize();
    forall a, b, n | TableSize(n)
      ensures n > 0 && (Confused(a, b, n) ==> Confused(a, b, INITIAL_SIZE))
      ensures Confused(a, b, INITIAL_SIZE) <==> First4(a) == First4(b) && Tail(a) == Tail(b)
    {
      ConfusedIs(a, b, n);
    }
  }

  /** So at most eight names that begin alike, with "www." for instance, can be kept apart. */
  lemma AtMostEight<V(!new)>(ks: iset<Bytes>, names: seq<Bytes>, v: V, w: V)
    requires v != w && Ranged(Default()) && OwnAddresses(Default(), ks, v)
    requires forall i :: 0 <= i < |names| ==> names[i] in ks && First4(names[i]) == First4(names[0])
    requires forall i, j :: 0 <= i < j < |names| ==> names[i] != names[j]
    ensures |names| <= 8
  {
    DefaultByTails(ks, v, w);
    var tails := seq(|names|, i requires 0 <= i < |names| => Tail(names[i]));
    Pigeons(tails, 8);
  }

  /** "www.baidu.com" */
  const BAIDU: Bytes := [119, 119, 119, 46, 98, 97, 105, 100, 117, 46, 99, 111, 109]

  /** Two hosts of which one gets the other's address. */
  lemma TwoHosts<V(!new)>(v: V, w: V)
    requires v != w
    ensures Ranged(Default())
    ensures !OwnAddresses(Default(), iset{SINA, BAIDU}, v) && !TellsApart(Default(), iset{SINA, BAIDU}, v)
  {
    DefaultByTails(iset{SINA, BAIDU}, v, w);
    HostsAlike();
  }

  lemma HostsAlike()
    ensures SINA != BAIDU && First4(SINA) == First4(BAIDU) && Tail(SINA) == Tail(BAIDU)
  {
    assert SINA[..4] == BAIDU[..4] == [119, 119, 119, 46];
    assert |SINA| != |BAIDU|;
  }

  // ---------------------------------------------------------------- what goes wrong with others

  lemma HashOfAbcd(c: bv8)
    ensures RawHash([97, 98, 99, 100, c]) == Mix(0x6_7894, c)
    ensures First4([97, 98, 99, 100, c]) == [97, 98, 99, 100]
  {
    var a: Bytes := [97, 98, 99, 100, c];
    var s: Bytes := [97, 98, 99, 100];
    assert a[..4] == s;
    assert s[..3] == [97, 98, 99] && s[..3][..2] == [97, 98] && s[..3][..2][..1] == [97];
    assert RawHash([97]) == 0x61 && RawHash([97, 98]) == 0x672;
    assert RawHash([97, 98, 99]) == 0x6783 && RawHash(s) == 0x6_7894;
  }

  const ABCD1: Bytes := [97, 98, 99, 100, 49]
  const ABCD2: Bytes := [97, 98, 99, 100, 50]
  const ABCD9: Bytes := [97, 98, 99, 100, 57]

  lemma ValueOfAbcd()
    ensures Value(0x6_7897) == 0x6_7897
  {
    assert Value(0) == 0;
    ValueStep(0x6);
    ValueStep(0x67);
    ValueStep(0x678);
    ValueStep(0x6789);
    ValueStep(0x6_7897);
  }

  lemma ThreeHashes()
    ensures Raw(ABCD1) == 0x67_8971 && Raw(ABCD2) == 0x67_8972 && Raw(ABCD9) == 0x67_8979
  {
    HashOfAbcd(49);
    HashOfAbcd(50);
    HashOfAbcd(57);
    ValueOfAbcd();
    ValueStep(0x67_8971);
    ValueStep(0x67_8972);
    ValueStep(0x67_8979);
    assert Mix(0x6_7894, 49) == 0x67_8971 && Mix(0x6_7894, 50) == 0x67_8972 && Mix(0x6_7894, 57) == 0x67_8979;
  }

  /** "abcd1" and "abcd2" are equal, but in different buckets of a new map. */
  lemma DefaultNotLawful()
    ensures !Lawful(Default())
  {
    ThreeHashes();
    HashOfAbcd(49);
    HashOfAbcd(50);
    var o := Default();
    assert o.equal(ABCD1, ABCD2);
    assert o.hash(ABCD1, 8) == 1 && o.hash(ABCD2, 8) == 2;
  }

  /** A rehash into n buckets merges entries exactly when two of them are confused at that size. */
  lemma DefaultRehash<V>(t: Table<Bytes, V>, n: int)
    requires TableOk(Default(), t) && n >= INITIAL_SIZE
    ensures Ranged(Default())
    ensures Reset(Default(), t, n).size == t.size <==>
            var ps := Flatten(t.buckets); forall i, j :: 0 <= i < j < |ps| ==> !Confused(ps[i].key, ps[j].key, n)
  {
    DefaultPair();
    ResetKeeps(Default(), t, n);
    var ps := Flatten(t.buckets);
    forall i, j | 0 <= i < j < |ps|
      ensures Confused(ps[i].key, ps[j].key, n) <==> Hits(Default(), ps[i].key, ps[j].key, n)
    {}
  }

  /** Eight strings of three characters each: "bbb" to "iii". */
  const FILLERS: seq<Bytes> := [[98, 98, 98], [99, 99, 99], [100, 100, 100], [101, 101, 101],
                                [102, 102, 102], [103, 103, 103], [104, 104, 104], [105, 105, 105]]

  lemma FillersUnequal()
    ensures Unequal(Default(), FILLERS + [ABCD1])
  {
    HashOfAbcd(49);
    var keys := FILLERS + [ABCD1];
    assert forall i :: 0 <= i < 8 ==> |keys[i]| == 3 && keys[i][0] == FILLERS[i][0];
    forall i, j | 0 <= i < j < |keys| ensures !Equal(keys[i], keys[j]) {
      assert First4(keys[i])[0] == keys[i][0];
      if j < 8 { assert First4(keys[j])[0] == keys[j][0]; }
    }
  }

  /**
   * A new map is given the fillers, then "abcd1", which makes it grow to 16 buckets, then "abcd9"; three fillers are
   * removed.  The third removal leaves six entries of eight: shrinking has merged the two.
   */
  lemma DefaultRunLoses<V>(v: V, w: V)
    ensures Ranged(Default())
    ensures var t0 := Empty<Bytes, V>(INITIAL_SIZE, true);
            var cs := Puts(FILLERS + [ABCD1], v) + [CmdPut(ABCD9, w)]
                      + [CmdRemove(FILLERS[0])] + [CmdRemove(FILLERS[1])];
            && TableRun(Default(), t0, cs).0.size == 8
            && TableRun(Default(), t0, cs + [CmdRemove(FILLERS[2])]).0.size == 6
  {
    DefaultPair();
    ThreeHashes();
    HashOfAbcd(49);
    HashOfAbcd(57);
    FillersUnequal();
    RunLoses(Default(), FILLERS, ABCD1, ABCD9, v, w);
  }
}
