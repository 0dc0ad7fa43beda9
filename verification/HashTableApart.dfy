/** When a map tells its keys apart: its runs answer as the map keyed by the keys themselves. */
module HashTableApart {
  import opened Options
  import opened HashTable
  import opened HashTableLaws
  import opened HashTableAnyPair
  import opened HashTableSame
  import opened HashTableGrowth
  import opened HashTableOn

  /** The same hash, with every key equal to itself only. */
  ghost function Exact<K(!new)>(o: Keying<K>): Keying<K> {
    Keying(o.hash, (a: K, b: K) => a == b)
  }

  lemma ExactLawful<K(!new)>(o: Keying<K>)
    requires Ranged(o)
    ensures Lawful(Exact(o))
  {}

  /** No two different keys of the set meet in n buckets. */
  ghost predicate ApartAt<K(!new)>(o: Keying<K>, ks: iset<K>, n: int) {
    forall a, b | a in ks && b in ks && a != b :: !Hits(o, a, b, n)
  }

  /** Nor at any size the map can come to have with them: 8, or a larger one of which there are half as many keys. */
  ghost predicate Apart<K(!new)>(o: Keying<K>, ks: iset<K>) {
    forall n | Size(Exact(o), ks, n) :: ApartAt(o, ks, n)
  }

  // ---------------------------------------------------------------- keys apart are handled as if equality were exact

  lemma {:induction false} TwinIndex<K(!new), V>(o: Keying<K>, ks: iset<K>, b: Bucket<K, V>, n: int, k: K)
    requires Equivalence(o) && ApartAt(o, ks, n) && KeysIn(b, ks) && k in ks && Homed(o, b, o.hash(k, n), n)
    ensures Index(o, b, k) == Index(Exact(o), b, k)
    decreases |b|
  {
    if b != [] {
      assert o.hash(b[0].key, n) == o.hash(k, n);
      assert o.equal(b[0].key, k) <==> b[0].key == k by {
        if b[0].key != k { assert !Hits(o, b[0].key, k, n); }
      }
      TwinIndex(o, ks, b[1..], n, k);
    }
  }

  /** The table is well formed when equality is exact, and holds keys of the set only, which do not meet in it. */
  ghost predicate Twin<K(!new), V>(o: Keying<K>, ks: iset<K>, t: Table<K, V>) {
    Ranged(o) && Equivalence(o) && TableOk(Exact(o), t) && TableIn(t, ks) && ApartAt(o, ks, |t.buckets|)
  }

  lemma TwinHere<K(!new), V>(o: Keying<K>, ks: iset<K>, t: Table<K, V>, k: K)
    requires Twin(o, ks, t) && k in ks
    ensures InRange(o, t, k)
    ensures var b := t.buckets[o.hash(k, |t.buckets|)]; Index(o, b, k) == Index(Exact(o), b, k)
  {
    var h := o.hash(k, |t.buckets|);
    assert Homed(Exact(o), t.buckets[h], h, |t.buckets|);
    TwinIndex(o, ks, t.buckets[h], |t.buckets|, k);
  }

  lemma TwinPut<K(!new), V>(o: Keying<K>, ks: iset<K>, t: Table<K, V>, k: K, v: V)
    requires Twin(o, ks, t) && k in ks
    ensures InRange(o, t, k) && PutPlain(o, t, k, v) == PutPlain(Exact(o), t, k, v)
    ensures Twin(o, ks, PutPlain(o, t, k, v))
  {
    ExactLawful(o);
    TwinHere(o, ks, t, k);
    PlainOk(Exact(o), t, k, v);
    SamePut(Exact(o), Exact(o), ks, AllSizes(), t, k, v);
  }

  lemma TwinRemove<K(!new), V>(o: Keying<K>, ks: iset<K>, t: Table<K, V>, k: K)
    requires Twin(o, ks, t) && k in ks
    ensures InRange(o, t, k) && RemovePlain(o, t, k) == RemovePlain(Exact(o), t, k)
    ensures Find(o, t, k) == Find(Exact(o), t, k) && Twin(o, ks, RemovePlain(o, t, k))
  {
    ExactLawful(o);
    TwinHere(o, ks, t, k);
    RemovePlainOk(Exact(o), t, k);
    SameRemove(Exact(o), Exact(o), ks, AllSizes(), t, k);
  }

  lemma {:induction false} TwinPutAll<K(!new), V>(o: Keying<K>, ks: iset<K>, t: Table<K, V>, ps: seq<Pair<K, V>>)
    requires Twin(o, ks, t) && KeysIn(ps, ks)
    ensures PutAll(o, t, ps) == PutAll(Exact(o), t, ps) && Twin(o, ks, PutAll(o, t, ps))
    decreases |ps|
  {
    if ps != [] {
      var m := |ps| - 1;
      TwinPutAll(o, ks, t, ps[..m]);
      TwinPut(o, ks, PutAll(o, t, ps[..m]), ps[m].key, ps[m].value);
    }
  }

  lemma TwinReset<K(!new), V>(o: Keying<K>, ks: iset<K>, t: Table<K, V>, n: int)
    requires Twin(o, ks, t) && (n < INITIAL_SIZE || ApartAt(o, ks, n))
    ensures Reset(o, t, n) == Reset(Exact(o), t, n) && Twin(o, ks, Reset(o, t, n))
  {
    if n >= INITIAL_SIZE {
      ExactLawful(o);
      FlattenKeys(t.buckets, ks);
      EmptyOk<K, V>(Exact(o), n, t.autoAssign);
      TwinPutAll(o, ks, Empty(n, t.autoAssign), Flatten(t.buckets));
    }
  }

  lemma TwinStep<K(!new), V>(o: Keying<K>, ks: iset<K>, t: Table<K, V>, c: Command<K, V>, sizes: int -> bool)
    requires Twin(o, ks, t) && c.key in ks && Within(t, sizes) && forall n | sizes(n) :: ApartAt(o, ks, n)
    ensures TableStep(o, t, c) == TableStep(Exact(o), t, c) && Twin(o, ks, TableStep(o, t, c).0)
  {
    var n := |t.buckets|;
    TwinRemove(o, ks, t, c.key);
    match c
    case CmdPut(k, v) =>
      if t.autoAssign && t.size >= n { TwinReset(o, ks, t, 2 * n); }
      TwinPut(o, ks, if t.autoAssign && t.size >= n then Reset(o, t, 2 * n) else t, k, v);
    case CmdRemove(k) => TwinReset(o, ks, RemovePlain(o, t, k), n / 2);
    case _ =>
  }

  lemma ExactWithin<K(!new), V>(o: Keying<K>, ks: iset<K>, t: Table<K, V>)
    requires Ranged(o) && TableOk(Exact(o), t) && TableIn(t, ks) && Size(Exact(o), ks, |t.buckets|)
    ensures Within(t, Sizes(Exact(o), ks))
  {
    var x := Exact(o);
    ExactLawful(o);
    SameTableOk(x, Extended(x, ks), ks, Sizes(x, ks), t);
    AlwaysWithin(x, ks, t);
  }

  lemma {:induction false} TwinRun<K(!new), V>(o: Keying<K>, ks: iset<K>, t: Table<K, V>, cs: seq<Command<K, V>>)
    requires Twin(o, ks, t) && Size(Exact(o), ks, |t.buckets|) && CommandsIn(cs, ks) && Apart(o, ks)
    ensures TableRun(o, t, cs) == TableRun(Exact(o), t, cs)
    decreases |cs|
  {
    if cs != [] {
      ExactLawful(o);
      ExactWithin(o, ks, t);
      TwinStep(o, ks, t, cs[0], Sizes(Exact(o), ks));
      StepOn(Exact(o), ks, t, cs[0]);
      TwinRun(o, ks, TableStep(o, t, cs[0]).0, cs[1..]);
    }
  }

  // ---------------------------------------------------------------- what tells its keys apart

  /** Every run of a new map on keys of the set answers as the map keyed by the keys themselves. */
  ghost predicate TellsApart<K(!new), V(!new)>(o: Keying<K>, ks: iset<K>, v: V)
    requires Ranged(o)
  {
    forall cs: seq<Command<K, V>> | CommandsIn(cs, ks) ::
      TableRun(o, Empty(INITIAL_SIZE, true), cs).1 == MapRun(Exact(o), imap[], cs).1
  }

  lemma NewTwin<K(!new), V>(o: Keying<K>, ks: iset<K>)
    requires Ranged(o) && Equivalence(o) && ApartAt(o, ks, INITIAL_SIZE)
    ensures Twin(o, ks, Empty<K, V>(INITIAL_SIZE, true)) && Size(Exact(o), ks, INITIAL_SIZE)
  {
    EmptyOk<K, V>(Exact(o), INITIAL_SIZE, true);
    FirstSize();
  }

  lemma FirstSize()
    ensures TableSize(INITIAL_SIZE)
  {
    assert INITIAL_SIZE == INITIAL_SIZE * Pow2(0);
  }

  lemma ApartTells<K(!new), V>(o: Keying<K>, ks: iset<K>, cs: seq<Command<K, V>>)
    requires Ranged(o) && Equivalence(o) && Apart(o, ks) && CommandsIn(cs, ks)
    ensures TableRun(o, Empty(INITIAL_SIZE, true), cs).1 == MapRun(Exact(o), imap[], cs).1
  {
    FirstSize();
    NewTwin<K, V>(o, ks);
    TwinRun(o, ks, Empty(INITIAL_SIZE, true), cs);
    ExactLawful(o);
    NewMapRun(Exact(o), cs);
  }

  // ---------------------------------------------------------------- what does not

  ghost predicate ApartBelow<K(!new)>(o: Keying<K>, ks: iset<K>, n: int) {
    forall m | Size(Exact(o), ks, m) && m < n :: ApartAt(o, ks, m)
  }

  ghost function SizesBelow<K(!new)>(o: Keying<K>, ks: iset<K>, n: int): int -> bool {
    (m: int) => Size(Exact(o), ks, m) && m < n
  }

  lemma PutsWithin<K(!new), V>(o: Keying<K>, ks: iset<K>, t: Table<K, V>, keys: seq<K>, n: int)
    requires Twin(o, ks, t) && Size(Exact(o), ks, |t.buckets|) && Stored(Exact(o), t, keys) && Grown(t)
    requires |keys| < n / 2 && INITIAL_SIZE < n && n % 2 == 0
    ensures Within(t, SizesBelow(o, ks, n))
  {
    ExactWithin(o, ks, t);
    LargeOrFirst(|t.buckets|);
  }

  lemma LargeOrFirst(n: int)
    requires TableSize(n)
    ensures n == INITIAL_SIZE || n == 2 * (n / 2)
  {
    if n != INITIAL_SIZE { LargeSize(n); }
  }

  /** Until n / 2 different keys are in, the map has fewer than n buckets and handles them as if equality were exact. */
  lemma {:induction false} TwinPuts<K(!new), V>(o: Keying<K>, ks: iset<K>, keys: seq<K>, n: int, v: V)
    requires Ranged(o) && Equivalence(o) && ApartBelow(o, ks, n) && INITIAL_SIZE < n && n % 2 == 0
    requires Unequal(Exact(o), keys) && |keys| <= n / 2 && forall k :: k in keys ==> k in ks
    ensures var e := Empty<K, V>(INITIAL_SIZE, true);
            var t := TableRun(o, e, Puts(keys, v)).0;
            t == TableRun(Exact(o), e, Puts(keys, v)).0 && Twin(o, ks, t) && Size(Exact(o), ks, |t.buckets|)
    decreases |keys|
  {
    var e, x := Empty<K, V>(INITIAL_SIZE, true), Exact(o);
    FirstSize();
    ExactLawful(o);
    if keys == [] {
      NewTwin<K, V>(o, ks);
      assert Puts(keys, v) == [];
    } else {
      var m := |keys| - 1;
      var c := CmdPut(keys[m], v);
      assert keys == keys[..m] + [keys[m]];
      assert Puts(keys, v) == Puts(keys[..m], v) + [c];
      TwinPuts(o, ks, keys[..m], n, v);
      var t := TableRun(o, e, Puts(keys[..m], v)).0;
      PutsStored(x, keys[..m], v);
      PutsWithin(o, ks, t, keys[..m], n);
      TwinStep(o, ks, t, c, SizesBelow(o, ks, n));
      StepOn(x, ks, t, c);
      RunSnoc(o, e, Puts(keys[..m], v), c);
      RunSnoc(x, e, Puts(keys[..m], v), c);
    }
  }

  /** A well-formed table of n buckets with room for two more entries. */
  ghost predicate Roomy<K, V>(o: Keying<K>, t: Table<K, V>, n: int) {
    TableOk(o, t) && t.autoAssign && |t.buckets| == n && t.size + 1 < n
  }

  lemma TwinIsOk<K(!new), V>(o: Keying<K>, ks: iset<K>, t: Table<K, V>)
    requires Twin(o, ks, t)
    ensures TableOk(o, t)
  {
    var n := |t.buckets|;
    forall h | 0 <= h < n ensures Homed(o, t.buckets[h], h, n) && Distinct(o, t.buckets[h]) {
      var b := t.buckets[h];
      assert Homed(Exact(o), b, h, n) && Distinct(Exact(o), b) && KeysIn(b, ks);
      forall i, j | 0 <= i < j < |b| ensures !o.equal(b[i].key, b[j].key) {
        assert !Exact(o).equal(b[i].key, b[j].key);
        assert !Hits(o, b[i].key, b[j].key, n);
      }
    }
  }

  /** A put at a full table leaves one that is about half full. */
  lemma PutAtFull<K(!new), V>(o: Keying<K>, t: Table<K, V>, k: K, v: V)
    requires Ranged(o) && Equivalence(o) && TableOk(o, t) && t.autoAssign && t.size == |t.buckets| >= INITIAL_SIZE
    ensures Roomy(o, Put(o, t, k, v), 2 * |t.buckets|)
  {
    var n := |t.buckets|;
    ResetTable(o, t, 2 * n);
    ResetSize(o, t, 2 * n);
    PlainOk(o, Reset(o, t, 2 * n), k, v);
  }

  lemma Filled<K(!new), V>(o: Keying<K>, ks: iset<K>, keys: seq<K>, n: int, v: V)
    requires Ranged(o) && Equivalence(o) && ApartBelow(o, ks, n) && TableSize(n) && n != INITIAL_SIZE
    requires Unequal(Exact(o), keys) && |keys| == n / 2 && forall k :: k in keys ==> k in ks
    ensures n == 2 * (n / 2) && n / 2 >= INITIAL_SIZE
    ensures var t := TableRun(o, Empty<K, V>(INITIAL_SIZE, true), Puts(keys, v)).0;
            TableOk(o, t) && t.autoAssign && t.size == |t.buckets| == n / 2
  {
    LargeSize(n);
    ExactLawful(o);
    TwinPuts(o, ks, keys, n, v);
    PutsStored(Exact(o), keys, v);
    var t := TableRun(o, Empty<K, V>(INITIAL_SIZE, true), Puts(keys, v)).0;
    FullTable(t);
    TwinIsOk(o, ks, t);
  }

  /** The first size at which keys of the set meet can be reached by putting n / 2 of them. */
  lemma ReachFirst<K(!new), V>(o: Keying<K>, ks: iset<K>, n: int, v: V) returns (cs: seq<Command<K, V>>)
    requires Ranged(o) && Equivalence(o) && Size(Exact(o), ks, n) && ApartBelow(o, ks, n)
    ensures CommandsIn(cs, ks) && Roomy(o, TableRun(o, Empty<K, V>(INITIAL_SIZE, true), cs).0, n)
  {
    var e := Empty<K, V>(INITIAL_SIZE, true);
    if n == INITIAL_SIZE {
      cs := [];
      EmptyOk<K, V>(o, INITIAL_SIZE, true);
      FlattenEmpty(e.buckets);
    } else {
      var keys := DifferentKeys(o, ks, n / 2);
      var puts := Puts(keys, v);
      Filled(o, ks, keys, n, v);
      PutAtFull(o, TableRun(o, e, puts).0, keys[0], v);
      cs := puts + [CmdPut(keys[0], v)];
      RunSnoc(o, e, puts, CmdPut(keys[0], v));
    }
  }

  lemma DifferentKeys<K(!new)>(o: Keying<K>, ks: iset<K>, m: int) returns (keys: seq<K>)
    requires Holds(Exact(o), ks, m)
    ensures |keys| == m && Unequal(Exact(o), keys) && forall k :: k in keys ==> k in ks
  {
    keys :| |keys| == m && Unequal(Exact(o), keys) && forall i :: 0 <= i < m ==> keys[i] in ks;
  }

  /** Of two keys that meet, the second put overwrites what the first one stored. */
  lemma Overwritten<K(!new), V>(o: Keying<K>, t: Table<K, V>, a: K, b: K, v: V, w: V)
    requires Ranged(o) && Equivalence(o) && Roomy(o, t, |t.buckets|) && Hits(o, b, a, |t.buckets|)
    ensures var r := Put(o, Put(o, t, a, v), b, w); InRange(o, r, a) && Find(o, r, a) == Some(w)
  {
    PlainOk(o, t, a, v);
    var s := PutPlain(o, t, a, v);
    PutLookup(o, s.buckets[o.hash(b, |s.buckets|)], b, w, a);
  }

  lemma Meeting<K(!new), V>(o: Keying<K>, cs: seq<Command<K, V>>, n: int, a: K, b: K, v: V, w: V)
    requires Ranged(o) && Equivalence(o) && a != b && v != w && Hits(o, b, a, n)
    requires Roomy(o, TableRun(o, Empty<K, V>(INITIAL_SIZE, true), cs).0, n)
    ensures var ds := cs + [CmdPut(a, v)] + [CmdPut(b, w)] + [CmdGet(a)];
            TableRun(o, Empty<K, V>(INITIAL_SIZE, true), ds).1 != MapRun(Exact(o), imap[], ds).1
  {
    var e, m: imap<K, V>, x := Empty<K, V>(INITIAL_SIZE, true), imap[], Exact(o);
    var c1 := cs + [CmdPut(a, v)];
    var c2 := c1 + [CmdPut(b, w)];
    RunSnoc(o, e, cs, CmdPut(a, v));
    RunSnoc(o, e, c1, CmdPut(b, w));
    RunSnoc(o, e, c2, CmdGet(a));
    MapSnoc(x, m, cs, CmdPut(a, v));
    MapSnoc(x, m, c1, CmdPut(b, w));
    MapSnoc(x, m, c2, CmdGet(a));
    Overwritten(o, TableRun(o, e, cs).0, a, b, v, w);
    assert a in MapRun(x, m, c1).0 && MapRun(x, m, c1).0[a] == v;
    assert MapGet(MapRun(x, m, c2).0, a) == Some(v);
    Differ(TableRun(o, e, c2).1, Got(Some(w)), MapRun(x, m, c2).1, Got(Some(v)));
  }

  lemma {:induction false} MixedUp<K(!new), V>(o: Keying<K>, ks: iset<K>, n: int, v: V, w: V)
    returns (cs: seq<Command<K, V>>)
    requires Ranged(o) && Equivalence(o) && v != w && Size(Exact(o), ks, n) && !ApartAt(o, ks, n)
    ensures CommandsIn(cs, ks)
    ensures TableRun(o, Empty<K, V>(INITIAL_SIZE, true), cs).1 != MapRun(Exact(o), imap[], cs).1
    decreases n
  {
    LeastSize(n);
    if ApartBelow(o, ks, n) {
      var a, b :| a in ks && b in ks && a != b && Hits(o, a, b, n);
      cs := ReachFirst(o, ks, n, v);
      Meeting(o, cs, n, b, a, v, w);
      cs := cs + [CmdPut(b, v)] + [CmdPut(a, w)] + [CmdGet(b)];
    } else {
      var m :| Size(Exact(o), ks, m) && m < n && !ApartAt(o, ks, m);
      LeastSize(m);
      cs := MixedUp(o, ks, m, v, w);
    }
  }

  /** A pair tells the keys of a set apart exactly when no two meet at a size the map can come to have with them. */
  lemma TellsApartExactly<K(!new), V(!new)>(o: Keying<K>, ks: iset<K>, v: V, w: V)
    requires Ranged(o) && Equivalence(o) && v != w
    ensures TellsApart(o, ks, v) <==> Apart(o, ks)
  {
    if Apart(o, ks) {
      forall cs: seq<Command<K, V>> | CommandsIn(cs, ks)
        ensures TableRun(o, Empty(INITIAL_SIZE, true), cs).1 == MapRun(Exact(o), imap[], cs).1
      {
        ApartTells(o, ks, cs);
      }
    } else {
      var n :| Size(Exact(o), ks, n) && !ApartAt(o, ks, n);
      var cs := MixedUp(o, ks, n, v, w);
    }
  }
}
