/** Which sets of keys a pair of hash and equality serves, although it may not be lawful for all keys. */
module HashTableOn {
  import opened Options
  import opened HashTable
  import opened HashTableLaws
  import opened HashTableAnyPair
  import opened HashTableSame
  import opened HashTableGrowth

  ghost predicate EquivalenceOn<K(!new)>(o: Keying<K>, ks: iset<K>) {
    && (forall a | a in ks :: o.equal(a, a))
    && (forall a, b | a in ks && b in ks :: o.equal(a, b) ==> o.equal(b, a))
    && (forall a, b, c | a in ks && b in ks && c in ks :: o.equal(a, b) && o.equal(b, c) ==> o.equal(a, c))
  }

  /** The set holds m keys no two of which are equal. */
  ghost predicate Holds<K(!new)>(o: Keying<K>, ks: iset<K>, m: int) {
    exists keys: seq<K> :: |keys| == m && Unequal(o, keys) && forall i :: 0 <= i < m ==> keys[i] in ks
  }

  /** A map used with keys of the set can come to have n buckets: the first eight, or twice as many as were full. */
  ghost predicate Size<K(!new)>(o: Keying<K>, ks: iset<K>, n: int) {
    TableSize(n) && (n == INITIAL_SIZE || Holds(o, ks, n / 2))
  }

  /** Equal keys of the set hash alike at every size the map can come to have with them. */
  ghost predicate AlikeOn<K(!new)>(o: Keying<K>, ks: iset<K>) {
    forall a, b, n | a in ks && b in ks && Size(o, ks, n) :: o.equal(a, b) ==> o.hash(a, n) == o.hash(b, n)
  }

  ghost function Sizes<K(!new)>(o: Keying<K>, ks: iset<K>): int -> bool {
    (n: int) => Size(o, ks, n)
  }

  /** The pair on ks, at some sizes; all other keys are equal to themselves only. */
  ghost function Restricted<K(!new)>(o: Keying<K>, ks: iset<K>, sizes: int -> bool): Keying<K> {
    Keying((k: K, n: int) => if k in ks && sizes(n) then o.hash(k, n) else 0,
           (a: K, b: K) => if a in ks && b in ks then o.equal(a, b) else a == b)
  }

  ghost function Extended<K(!new)>(o: Keying<K>, ks: iset<K>): Keying<K> {
    Restricted(o, ks, Sizes(o, ks))
  }

  lemma ExtendedLawful<K(!new)>(o: Keying<K>, ks: iset<K>)
    requires Ranged(o) && EquivalenceOn(o, ks) && AlikeOn(o, ks)
    ensures Lawful(Extended(o, ks))
  {}

  // ---------------------------------------------------------------- the sizes a run needs

  lemma HoldsLess<K(!new)>(o: Keying<K>, ks: iset<K>, m: int, n: int)
    requires 0 <= n <= m && Holds(o, ks, m)
    ensures Holds(o, ks, n)
  {
    var keys: seq<K> :| |keys| == m && Unequal(o, keys) && forall i :: 0 <= i < m ==> keys[i] in ks;
    var fewer := keys[..n];
    assert |fewer| == n && Unequal(o, fewer);
  }

  lemma HalfSize<K(!new)>(o: Keying<K>, ks: iset<K>, n: int)
    requires Size(o, ks, n)
    ensures n >= INITIAL_SIZE && (n / 2 < INITIAL_SIZE || Size(o, ks, n / 2))
  {
    var k: nat :| n == INITIAL_SIZE * Pow2(k);
    if k > 0 {
      assert n / 2 == INITIAL_SIZE * Pow2(k - 1);
      HoldsLess(o, ks, n / 2, n / 2 / 2);
    }
  }

  lemma DistinctHolds<K(!new), V>(o: Keying<K>, e: Keying<K>, ks: iset<K>, ps: seq<Pair<K, V>>, m: int)
    requires forall a, b | a in ks && b in ks :: o.equal(a, b) == e.equal(a, b)
    requires Distinct(e, ps) && KeysIn(ps, ks) && 0 <= m <= |ps|
    ensures Holds(o, ks, m)
  {
    var keys := seq(m, i requires 0 <= i < m => ps[i].key);
    assert forall i :: 0 <= i < m ==> keys[i] == ps[i].key && keys[i] in ks;
    assert Unequal(o, keys);
  }

  /** A full table of such keys shows that the set holds as many unequal ones as there are buckets. */
  lemma FullHolds<K(!new), V>(o: Keying<K>, ks: iset<K>, t: Table<K, V>)
    requires Ranged(o) && EquivalenceOn(o, ks) && AlikeOn(o, ks)
    requires TableOk(Extended(o, ks), t) && TableIn(t, ks) && t.size >= |t.buckets|
    ensures Holds(o, ks, |t.buckets|)
  {
    var e := Extended(o, ks);
    ExtendedLawful(o, ks);
    SizeIsCardinality(e, t);
    FlattenKeys(t.buckets, ks);
    DistinctHolds(o, e, ks, Flatten(t.buckets), |t.buckets|);
  }

  lemma AlwaysWithin<K(!new), V>(o: Keying<K>, ks: iset<K>, t: Table<K, V>)
    requires Ranged(o) && EquivalenceOn(o, ks) && AlikeOn(o, ks)
    requires TableOk(Extended(o, ks), t) && TableIn(t, ks) && Size(o, ks, |t.buckets|)
    ensures Within(t, Sizes(o, ks))
  {
    var n := |t.buckets|;
    HalfSize(o, ks, n);
    if t.size >= n {
      FullHolds(o, ks, t);
      DoubleSize(n);
      assert 2 * n / 2 == n;
    }
  }

  /** Runs on such keys alone answer as the finite map modulo equality does, rehashes included. */
  lemma {:induction false} RunOn<K(!new), V>(o: Keying<K>, ks: iset<K>, t: Table<K, V>, cs: seq<Command<K, V>>)
    requires Ranged(o) && EquivalenceOn(o, ks) && AlikeOn(o, ks)
    requires TableOk(o, t) && TableIn(t, ks) && Size(o, ks, |t.buckets|) && CommandsIn(cs, ks)
    ensures var (t', rs) := TableRun(o, t, cs);
            && TableOk(o, t') && TableIn(t', ks) && Size(o, ks, |t'.buckets|)
            && MapRun(Extended(o, ks), Meaning(Extended(o, ks), t), cs) == (Meaning(Extended(o, ks), t'), rs)
            && (t.autoAssign && LoadOk(t) ==> LoadOk(t'))
    decreases |cs|
  {
    if cs != [] {
      StepOn(o, ks, t, cs[0]);
      RunOn(o, ks, TableStep(o, t, cs[0]).0, cs[1..]);
    }
  }

  lemma StepOn<K(!new), V>(o: Keying<K>, ks: iset<K>, t: Table<K, V>, c: Command<K, V>)
    requires Ranged(o) && EquivalenceOn(o, ks) && AlikeOn(o, ks)
    requires TableOk(o, t) && TableIn(t, ks) && Size(o, ks, |t.buckets|) && c.key in ks
    ensures var (t', r) := TableStep(o, t, c);
            && TableOk(o, t') && TableIn(t', ks) && Size(o, ks, |t'.buckets|)
            && MapStep(Extended(o, ks), Meaning(Extended(o, ks), t), c) == (Meaning(Extended(o, ks), t'), r)
            && t'.autoAssign == t.autoAssign && (t.autoAssign && LoadOk(t) ==> LoadOk(t'))
  {
    var e, sizes := Extended(o, ks), Sizes(o, ks);
    ExtendedLawful(o, ks);
    SameTableOk(o, e, ks, sizes, t);
    AlwaysWithin(o, ks, t);
    SameStep(o, e, ks, sizes, t, c);
    StepRefines(e, t, c);
    StepSize(e, t, c, sizes);
    SameTableOk(o, e, ks, sizes, TableStep(o, t, c).0);
  }

  lemma StepSize<K(!new), V>(e: Keying<K>, t: Table<K, V>, c: Command<K, V>, sizes: int -> bool)
    requires Lawful(e) && TableOk(e, t) && Within(t, sizes) && |t.buckets| >= INITIAL_SIZE
    ensures sizes(|TableStep(e, t, c).0.buckets|)
  {
    match c
    case CmdPut(k, v) => PutOk(e, t, k, v);
    case CmdRemove(k) => RemoveOk(e, t, k);
    case _ =>
  }

  // ---------------------------------------------------------------- what is served

  /** Every run of a new map on keys of the set answers as the finite map modulo equality does. */
  ghost predicate Serves<K(!new), V(!new)>(o: Keying<K>, ks: iset<K>, v: V)
    requires Ranged(o)
  {
    forall cs: seq<Command<K, V>> | CommandsIn(cs, ks) ::
      TableRun(o, Empty(INITIAL_SIZE, true), cs).1 == MapRun(Extended(o, ks), imap[], cs).1
  }

  lemma NewMapRunOn<K(!new), V>(o: Keying<K>, ks: iset<K>, cs: seq<Command<K, V>>)
    requires Ranged(o) && EquivalenceOn(o, ks) && AlikeOn(o, ks) && CommandsIn(cs, ks)
    ensures var (t, rs) := TableRun(o, Empty(INITIAL_SIZE, true), cs);
            && TableOk(o, t) && LoadOk(t)
            && MapRun(Extended(o, ks), imap[], cs) == (Meaning(Extended(o, ks), t), rs)
  {
    var t := Empty<K, V>(INITIAL_SIZE, true);
    EmptyOk<K, V>(o, INITIAL_SIZE, true);
    FlattenEmpty(t.buckets);
    assert INITIAL_SIZE == INITIAL_SIZE * Pow2(0);
    assert Meaning(Extended(o, ks), t) == imap[];
    RunOn(o, ks, t, cs);
  }

  // ---------------------------------------------------------------- what is not

  ghost predicate PutsOnly<K, V>(cs: seq<Command<K, V>>) {
    forall i :: 0 <= i < |cs| ==> cs[i].CmdPut?
  }

  lemma {:induction false} MapHasPuts<K(!new), V>(e: Keying<K>, cs: seq<Command<K, V>>, i: int, q: K)
    requires PutsOnly(cs) && 0 <= i < |cs| && e.equal(cs[i].key, q)
    ensures q in MapRun(e, imap[], cs).0
    decreases |cs|
  {
    var m := |cs| - 1;
    var none: imap<K, V> := imap[];
    assert cs == cs[..m] + [cs[m]];
    MapSnoc(e, none, cs[..m], cs[m]);
    if i < m { MapHasPuts(e, cs[..m], i, q); }
  }

  /** Just these keys are put. */
  ghost predicate PutsOf<K(!new), V>(cs: seq<Command<K, V>>, keys: seq<K>) {
    && PutsOnly(cs)
    && (forall i :: 0 <= i < |cs| ==> cs[i].key in keys)
    && (forall k :: k in keys ==> exists i :: 0 <= i < |cs| && cs[i].key == k)
  }

  lemma PutsPut<K(!new), V>(keys: seq<K>, v: V, k: K)
    requires k in keys
    ensures PutsOf(Puts(keys, v), keys) && PutsOf(Puts(keys, v) + [CmdPut(k, v)], keys)
  {
    var puts := Puts(keys, v);
    var more := puts + [CmdPut(k, v)];
    forall c | c in keys
      ensures (exists i :: 0 <= i < |puts| && puts[i].key == c) && exists i :: 0 <= i < |more| && more[i].key == c
    {
      var i :| 0 <= i < |keys| && keys[i] == c;
      assert puts[i].key == c && more[i] == puts[i];
    }
  }

  /** The commands fill a new map until it has n buckets, if it has not from the start. */
  lemma ReachSize<K(!new), V>(o: Keying<K>, keys: seq<K>, n: int, v: V) returns (cs: seq<Command<K, V>>)
    requires Ranged(o) && Equivalence(o) && Unequal(o, keys) && TableSize(n)
    requires if n == INITIAL_SIZE then keys == [] else |keys| == n / 2
    ensures PutsOf(cs, keys)
    ensures var t := TableRun(o, Empty<K, V>(INITIAL_SIZE, true), cs).0;
            TableOk(o, t) && t.autoAssign && |t.buckets| == n && t.size < n && TableIn(t, KeySet(keys))
  {
    var e := Empty<K, V>(INITIAL_SIZE, true);
    var puts := Puts(keys, v);
    PutsStored(o, keys, v);
    var t := TableRun(o, e, puts).0;
    if n == INITIAL_SIZE {
      assert puts == [];
      cs := puts;
    } else {
      LargeSize(n);
      FullTable(t);
      cs := puts + [CmdPut(keys[0], v)];
      PutsPut(keys, v, keys[0]);
      RunSnoc(o, e, puts, CmdPut(keys[0], v));
      PutAgain(o, t, keys, v);
    }
  }

  lemma LargeSize(n: int)
    requires TableSize(n) && n != INITIAL_SIZE
    ensures TableSize(n / 2) && n == 2 * (n / 2) && n / 2 >= INITIAL_SIZE
  {
    var k: nat :| n == INITIAL_SIZE * Pow2(k);
    assert n / 2 == INITIAL_SIZE * Pow2(k - 1);
  }

  /** A put at a full table makes it grow, even for a key it holds. */
  lemma PutAgain<K(!new), V>(o: Keying<K>, t: Table<K, V>, keys: seq<K>, v: V)
    requires Ranged(o) && Equivalence(o) && Unequal(o, keys) && keys != [] && Stored(o, t, keys)
    requires t.size == |t.buckets| >= INITIAL_SIZE
    ensures var r := Put(o, t, keys[0], v);
            && TableOk(o, r) && r.autoAssign && |r.buckets| == 2 * |t.buckets| && r.size == t.size
            && TableIn(r, KeySet(keys))
  {
    var n := |t.buckets|;
    ResetStored(o, t, keys, 2 * n);
    var t' := Reset(o, t, 2 * n);
    PlainOk(o, t', keys[0], v);
    assert Knows(o, t', keys[0]);
    SamePut(o, o, KeySet(keys), AllSizes(), t', keys[0], v);
  }

  lemma Differ<R>(xs: seq<R>, x: R, ys: seq<R>, y: R)
    requires x != y
    ensures xs + [x] != ys + [y]
  {
    assert (xs + [x])[|xs + [x]| - 1] == x && (ys + [y])[|ys + [y]| - 1] == y;
  }

  /** A key equal to one that was put, but met by no entry, is not found although it is in the map. */
  lemma NotFound<K(!new), V>(o: Keying<K>, e: Keying<K>, cs: seq<Command<K, V>>, i: int, x: K)
    requires Ranged(o) && Equivalence(o) && PutsOnly(cs) && 0 <= i < |cs| && e.equal(cs[i].key, x)
    requires var t := TableRun(o, Empty<K, V>(INITIAL_SIZE, true), cs).0;
             TableOk(o, t) && forall p | p in Flatten(t.buckets) :: !Hits(o, p.key, x, |t.buckets|)
    ensures var ds := cs + [CmdExists(x)];
            TableRun(o, Empty<K, V>(INITIAL_SIZE, true), ds).1 != MapRun(e, imap[], ds).1
  {
    var t0, m0: imap<K, V> := Empty<K, V>(INITIAL_SIZE, true), imap[];
    RunSnoc(o, t0, cs, CmdExists(x));
    MapSnoc(e, m0, cs, CmdExists(x));
    MapHasPuts(e, cs, i, x);
    FindExactly(o, TableRun(o, t0, cs).0, x);
    Differ(TableRun(o, t0, cs).1, Flag(false), MapRun(e, m0, cs).1, Flag(true));
  }

  /** Equal keys in different buckets at a size the map can come to have: some run tells them apart. */
  lemma Breaks<K(!new), V>(o: Keying<K>, e: Keying<K>, ks: iset<K>, keys: seq<K>, n: int, a: K, b: K, v: V)
    returns (cs: seq<Command<K, V>>)
    requires Ranged(o) && Equivalence(o) && Unequal(o, keys) && TableSize(n)
    requires if n == INITIAL_SIZE then keys == [] else |keys| == n / 2
    requires a in ks && b in ks && (forall k :: k in keys ==> k in ks)
    requires forall c, d | c in ks && d in ks :: o.equal(c, d) == e.equal(c, d)
    requires o.equal(a, b) && o.hash(a, n) != o.hash(b, n)
    ensures CommandsIn(cs, ks)
    ensures TableRun(o, Empty<K, V>(INITIAL_SIZE, true), cs).1 != MapRun(e, imap[], cs).1
  {
    cs := ReachSize(o, keys, n, v);
    if exists c :: c in keys && o.equal(c, a) {
      var c :| c in keys && o.equal(c, a);
      var x := OtherBucket(o, e, ks, n, a, b, c);
      cs := BreaksForOld(o, e, cs, keys, n, c, x);
    } else {
      cs := BreaksForNew(o, e, cs, keys, n, a, b, v);
    }
  }

  lemma OtherBucket<K(!new)>(o: Keying<K>, e: Keying<K>, ks: iset<K>, n: int, a: K, b: K, c: K) returns (x: K)
    requires Equivalence(o) && a in ks && b in ks && c in ks
    requires forall c, d | c in ks && d in ks :: o.equal(c, d) == e.equal(c, d)
    requires o.equal(a, b) && o.hash(a, n) != o.hash(b, n) && o.equal(c, a)
    ensures x in ks && o.equal(c, x) && e.equal(c, x) && o.hash(c, n) != o.hash(x, n)
  {
    x := if o.hash(c, n) == o.hash(a, n) then b else a;
  }

  lemma BreaksForOld<K(!new), V>(o: Keying<K>, e: Keying<K>, cs: seq<Command<K, V>>, keys: seq<K>, n: int, c: K, x: K)
    returns (ds: seq<Command<K, V>>)
    requires Ranged(o) && Equivalence(o) && Unequal(o, keys) && PutsOf(cs, keys)
    requires var t := TableRun(o, Empty<K, V>(INITIAL_SIZE, true), cs).0;
             TableOk(o, t) && |t.buckets| == n && TableIn(t, KeySet(keys))
    requires c in keys && o.equal(c, x) && e.equal(c, x) && o.hash(c, n) != o.hash(x, n)
    ensures ds == cs + [CmdExists(x)]
    ensures TableRun(o, Empty<K, V>(INITIAL_SIZE, true), ds).1 != MapRun(e, imap[], ds).1
  {
    ds := cs + [CmdExists(x)];
    OnlyOne(o, TableRun(o, Empty<K, V>(INITIAL_SIZE, true), cs).0, keys, c, x);
    var i :| 0 <= i < |cs| && cs[i].key == c;
    NotFound(o, e, cs, i, x);
  }

  lemma BreaksForNew<K(!new), V>(o: Keying<K>, e: Keying<K>, cs: seq<Command<K, V>>, keys: seq<K>, n: int, a: K, b: K,
                                 v: V) returns (ds: seq<Command<K, V>>)
    requires Ranged(o) && Equivalence(o) && PutsOnly(cs)
    requires var t := TableRun(o, Empty<K, V>(INITIAL_SIZE, true), cs).0;
             TableOk(o, t) && |t.buckets| == n && TableIn(t, KeySet(keys)) && t.size < n
    requires (forall c :: c in keys ==> !o.equal(c, a))
    requires o.equal(a, b) && e.equal(a, b) && o.hash(a, n) != o.hash(b, n)
    ensures ds == cs + [CmdPut(a, v)] + [CmdExists(b)]
    ensures TableRun(o, Empty<K, V>(INITIAL_SIZE, true), ds).1 != MapRun(e, imap[], ds).1
  {
    var t0 := Empty<K, V>(INITIAL_SIZE, true);
    var more := cs + [CmdPut(a, v)];
    ds := more + [CmdExists(b)];
    RunSnoc(o, t0, cs, CmdPut(a, v));
    OneMoreOther(o, TableRun(o, t0, cs).0, keys, a, b, v);
    assert PutsOnly(more) && more[|cs|].key == a;
    NotFound(o, e, more, |cs|, b);
  }

  /** Of unequal keys only c is equal to x, and it is in another bucket. */
  lemma OnlyOne<K(!new), V>(o: Keying<K>, t: Table<K, V>, keys: seq<K>, c: K, x: K)
    requires Equivalence(o) && Unequal(o, keys) && TableIn(t, KeySet(keys)) && c in keys
    requires o.equal(c, x) && o.hash(c, |t.buckets|) != o.hash(x, |t.buckets|)
    ensures forall p | p in Flatten(t.buckets) :: !Hits(o, p.key, x, |t.buckets|)
  {
    FlattenKeys(t.buckets, KeySet(keys));
    forall p | p in Flatten(t.buckets) ensures !Hits(o, p.key, x, |t.buckets|) {
      var i :| 0 <= i < |Flatten(t.buckets)| && Flatten(t.buckets)[i] == p;
      if o.equal(p.key, x) { SameKey(o, keys, p.key, c); }
    }
  }

  /** After a key unequal to all others is put, a key equal to it in another bucket is still not found. */
  lemma OneMoreOther<K(!new), V>(o: Keying<K>, t: Table<K, V>, keys: seq<K>, a: K, b: K, v: V)
    requires Ranged(o) && Equivalence(o) && TableOk(o, t) && TableIn(t, KeySet(keys)) && t.size < |t.buckets|
    requires (forall c :: c in keys ==> !o.equal(c, a)) && o.equal(a, b)
    requires o.hash(a, |t.buckets|) != o.hash(b, |t.buckets|)
    ensures var r := Put(o, t, a, v);
            TableOk(o, r) && |r.buckets| == |t.buckets|
            && forall p | p in Flatten(r.buckets) :: !Hits(o, p.key, b, |t.buckets|)
  {
    var r, all := Put(o, t, a, v), KeySet(keys + [a]);
    PlainOk(o, t, a, v);
    forall h | 0 <= h < |t.buckets| ensures KeysIn(t.buckets[h], all) { assert KeysIn(t.buckets[h], KeySet(keys)); }
    SamePut(o, o, all, AllSizes(), t, a, v);
    FlattenKeys(r.buckets, all);
    forall p | p in Flatten(r.buckets) ensures !Hits(o, p.key, b, |t.buckets|) {
      var i :| 0 <= i < |Flatten(r.buckets)| && Flatten(r.buckets)[i] == p;
      assert p.key in keys || p.key == a;
    }
  }

  /** The same, for a pair that is an equivalence on the set only. */
  lemma BreaksOn<K(!new), V>(o: Keying<K>, ks: iset<K>, n: int, a: K, b: K, v: V) returns (cs: seq<Command<K, V>>)
    requires Ranged(o) && EquivalenceOn(o, ks) && Size(o, ks, n) && a in ks && b in ks
    requires o.equal(a, b) && o.hash(a, n) != o.hash(b, n)
    ensures CommandsIn(cs, ks)
    ensures TableRun(o, Empty<K, V>(INITIAL_SIZE, true), cs).1 != MapRun(Extended(o, ks), imap[], cs).1
  {
    var w := Restricted(o, ks, AllSizes());
    var keys: seq<K> := [];
    if n != INITIAL_SIZE {
      keys :| |keys| == n / 2 && Unequal(o, keys) && forall i :: 0 <= i < n / 2 ==> keys[i] in ks;
    }
    assert Unequal(w, keys);
    LeastSize(n);
    cs := Breaks(w, Extended(o, ks), ks, keys, n, a, b, v);
    SameRun(o, w, ks, Empty<K, V>(INITIAL_SIZE, true), cs);
  }

  lemma LeastSize(n: int)
    requires TableSize(n)
    ensures n >= INITIAL_SIZE
  {}

  /** A pair serves a set of keys exactly when equal keys of it hash alike at every size the map can come to have. */
  lemma ServesExactly<K(!new), V(!new)>(o: Keying<K>, ks: iset<K>, v: V)
    requires Ranged(o) && EquivalenceOn(o, ks)
    ensures Serves(o, ks, v) <==> AlikeOn(o, ks)
  {
    if AlikeOn(o, ks) {
      forall cs: seq<Command<K, V>> | CommandsIn(cs, ks)
        ensures TableRun(o, Empty(INITIAL_SIZE, true), cs).1 == MapRun(Extended(o, ks), imap[], cs).1
      {
        NewMapRunOn(o, ks, cs);
      }
    } else {
      var a, b, n :| a in ks && b in ks && Size(o, ks, n) && o.equal(a, b) && o.hash(a, n) != o.hash(b, n);
      var cs := BreaksOn(o, ks, n, a, b, v);
    }
  }
}
