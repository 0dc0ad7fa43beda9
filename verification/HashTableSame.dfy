/** Two pairs that agree on the keys used, at the table sizes used, do the same. */
module HashTableSame {
  import opened Options
  import opened HashTable
  import opened HashTableLaws

  ghost predicate Agree<K(!new)>(o: Keying<K>, e: Keying<K>, ks: iset<K>, sizes: int -> bool) {
    && Ranged(o) && Ranged(e)
    && (forall k, n | k in ks && sizes(n) :: o.hash(k, n) == e.hash(k, n))
    && (forall a, b | a in ks && b in ks :: o.equal(a, b) == e.equal(a, b))
  }

  ghost predicate KeysIn<K, V>(ps: seq<Pair<K, V>>, ks: iset<K>) {
    forall i :: 0 <= i < |ps| ==> ps[i].key in ks
  }

  ghost predicate TableIn<K, V>(t: Table<K, V>, ks: iset<K>) {
    0 < |t.buckets| && forall h :: 0 <= h < |t.buckets| ==> KeysIn(t.buckets[h], ks)
  }

  ghost predicate CommandsIn<K, V>(cs: seq<Command<K, V>>, ks: iset<K>) {
    forall i :: 0 <= i < |cs| ==> cs[i].key in ks
  }

  lemma {:induction false} SameIndex<K(!new), V>(o: Keying<K>, e: Keying<K>, ks: iset<K>, sizes: int -> bool,
                                                 b: Bucket<K, V>, k: K)
    requires Agree(o, e, ks, sizes) && KeysIn(b, ks) && k in ks
    ensures Index(o, b, k) == Index(e, b, k)
    decreases |b|
  {
    if b != [] { SameIndex(o, e, ks, sizes, b[1..], k); }
  }

  lemma SameFind<K(!new), V>(o: Keying<K>, e: Keying<K>, ks: iset<K>, sizes: int -> bool, t: Table<K, V>, k: K)
    requires Agree(o, e, ks, sizes) && TableIn(t, ks) && sizes(|t.buckets|) && k in ks
    ensures InRange(o, t, k) && InRange(e, t, k) && Find(o, t, k) == Find(e, t, k)
  {
    SameIndex(o, e, ks, sizes, t.buckets[o.hash(k, |t.buckets|)], k);
  }

  lemma SamePut<K(!new), V>(o: Keying<K>, e: Keying<K>, ks: iset<K>, sizes: int -> bool, t: Table<K, V>, k: K, v: V)
    requires Agree(o, e, ks, sizes) && TableIn(t, ks) && sizes(|t.buckets|) && k in ks
    ensures InRange(o, t, k) && InRange(e, t, k)
    ensures PutPlain(o, t, k, v) == PutPlain(e, t, k, v) && TableIn(PutPlain(o, t, k, v), ks)
  {
    var h := o.hash(k, |t.buckets|);
    SameIndex(o, e, ks, sizes, t.buckets[h], k);
    assert KeysIn(BucketPut(o, t.buckets[h], k, v), ks);
  }

  lemma SameRemove<K(!new), V>(o: Keying<K>, e: Keying<K>, ks: iset<K>, sizes: int -> bool, t: Table<K, V>, k: K)
    requires Agree(o, e, ks, sizes) && TableIn(t, ks) && sizes(|t.buckets|) && k in ks
    ensures InRange(o, t, k) && InRange(e, t, k)
    ensures RemovePlain(o, t, k) == RemovePlain(e, t, k) && TableIn(RemovePlain(o, t, k), ks)
  {
    var h := o.hash(k, |t.buckets|);
    SameIndex(o, e, ks, sizes, t.buckets[h], k);
    assert KeysIn(BucketRemove(o, t.buckets[h], k), ks);
  }

  lemma {:induction false} SamePutAll<K(!new), V>(o: Keying<K>, e: Keying<K>, ks: iset<K>, sizes: int -> bool,
                                                  t: Table<K, V>, ps: seq<Pair<K, V>>)
    requires Agree(o, e, ks, sizes) && TableIn(t, ks) && sizes(|t.buckets|) && KeysIn(ps, ks)
    ensures PutAll(o, t, ps) == PutAll(e, t, ps) && TableIn(PutAll(o, t, ps), ks)
    decreases |ps|
  {
    if ps != [] {
      var m := |ps| - 1;
      SamePutAll(o, e, ks, sizes, t, ps[..m]);
      SamePut(o, e, ks, sizes, PutAll(o, t, ps[..m]), ps[m].key, ps[m].value);
    }
  }

  lemma {:induction false} FlattenKeys<K(!new), V>(bs: seq<Bucket<K, V>>, ks: iset<K>)
    requires forall h :: 0 <= h < |bs| ==> KeysIn(bs[h], ks)
    ensures KeysIn(Flatten(bs), ks)
    decreases |bs|
  {
    if bs != [] { FlattenKeys(bs[..|bs| - 1], ks); }
  }

  lemma SameReset<K(!new), V>(o: Keying<K>, e: Keying<K>, ks: iset<K>, sizes: int -> bool, t: Table<K, V>, n: int)
    requires Agree(o, e, ks, sizes) && TableIn(t, ks) && (n < INITIAL_SIZE || sizes(n))
    ensures Reset(o, t, n) == Reset(e, t, n) && TableIn(Reset(o, t, n), ks)
  {
    if n >= INITIAL_SIZE {
      FlattenKeys(t.buckets, ks);
      SamePutAll(o, e, ks, sizes, Empty(n, t.autoAssign), Flatten(t.buckets));
    }
  }

  /** The sizes a command may need: twice the buckets if it meets a full table, half of them if it shrinks it. */
  ghost predicate Within<K, V>(t: Table<K, V>, sizes: int -> bool) {
    var n := |t.buckets|;
    && sizes(n)
    && (t.autoAssign && t.size >= n ==> sizes(2 * n))
    && (n / 2 < INITIAL_SIZE || sizes(n / 2))
  }

  lemma SameStep<K(!new), V>(o: Keying<K>, e: Keying<K>, ks: iset<K>, sizes: int -> bool, t: Table<K, V>,
                             c: Command<K, V>)
    requires Agree(o, e, ks, sizes) && TableIn(t, ks) && Within(t, sizes) && c.key in ks
    ensures TableStep(o, t, c) == TableStep(e, t, c) && TableIn(TableStep(o, t, c).0, ks)
  {
    var n := |t.buckets|;
    SameFind(o, e, ks, sizes, t, c.key);
    match c
    case CmdPut(k, v) =>
      if t.autoAssign && t.size >= n { SameReset(o, e, ks, sizes, t, 2 * n); }
      var t' := if t.autoAssign && t.size >= n then Reset(o, t, 2 * n) else t;
      assert |t'.buckets| == n || |t'.buckets| == 2 * n;
      SamePut(o, e, ks, sizes, t', k, v);
    case CmdRemove(k) =>
      SameRemove(o, e, ks, sizes, t, k);
      SameReset(o, e, ks, sizes, RemovePlain(o, t, k), n / 2);
    case _ =>
  }

  lemma SameTableOk<K(!new), V>(o: Keying<K>, e: Keying<K>, ks: iset<K>, sizes: int -> bool, t: Table<K, V>)
    requires Agree(o, e, ks, sizes) && TableIn(t, ks) && sizes(|t.buckets|)
    ensures TableOk(o, t) <==> TableOk(e, t)
  {
    forall h | 0 <= h < |t.buckets|
      ensures Homed(o, t.buckets[h], h, |t.buckets|) <==> Homed(e, t.buckets[h], h, |t.buckets|)
      ensures Distinct(o, t.buckets[h]) <==> Distinct(e, t.buckets[h])
    {
      assert KeysIn(t.buckets[h], ks);
    }
  }

  // ---------------------------------------------------------------- at all sizes

  function AllSizes(): int -> bool {
    (n: int) => true
  }

  lemma {:induction false} SameRun<K(!new), V>(o: Keying<K>, e: Keying<K>, ks: iset<K>, t: Table<K, V>,
                                               cs: seq<Command<K, V>>)
    requires Agree(o, e, ks, AllSizes()) && TableIn(t, ks) && CommandsIn(cs, ks)
    ensures TableRun(o, t, cs) == TableRun(e, t, cs) && TableIn(TableRun(o, t, cs).0, ks)
    decreases |cs|
  {
    if cs != [] {
      SameStep(o, e, ks, AllSizes(), t, cs[0]);
      SameRun(o, e, ks, TableStep(o, t, cs[0]).0, cs[1..]);
    }
  }
}
