/** What holds of the table for any hash and equality in range, lawful together or not. */
module HashTableAnyPair {
  import opened Options
  import opened HashTable
  import opened HashTableLaws

  // ---------------------------------------------------------------- sizes

  lemma PlainSize<K(!new), V>(o: Keying<K>, t: Table<K, V>, k: K, v: V)
    requires Ranged(o) && 0 < |t.buckets| && t.size == |Flatten(t.buckets)|
    ensures InRange(o, t, k)
    ensures var r := PutPlain(o, t, k, v);
            && r.size == |Flatten(r.buckets)| == t.size + (if Find(o, t, k).Some? then 0 else 1)
            && |r.buckets| == |t.buckets| && r.autoAssign == t.autoAssign
  {
    var h := o.hash(k, |t.buckets|);
    FlattenUpdate(t.buckets, h, BucketPut(o, t.buckets[h], k, v));
  }

  lemma RemovePlainSize<K(!new), V>(o: Keying<K>, t: Table<K, V>, k: K)
    requires Ranged(o) && 0 < |t.buckets| && t.size == |Flatten(t.buckets)|
    ensures InRange(o, t, k)
    ensures var r := RemovePlain(o, t, k);
            && r.size == |Flatten(r.buckets)| == t.size - (if Find(o, t, k).Some? then 1 else 0)
            && |r.buckets| == |t.buckets| && r.autoAssign == t.autoAssign
  {
    var h := o.hash(k, |t.buckets|);
    FlattenUpdate(t.buckets, h, BucketRemove(o, t.buckets[h], k));
  }

  lemma {:induction false} PutAllSize<K(!new), V>(o: Keying<K>, n: int, auto: bool, ps: seq<Pair<K, V>>)
    requires Ranged(o) && 0 < n
    ensures var r := PutAll(o, Empty(n, auto), ps);
            r.size == |Flatten(r.buckets)| <= |ps| && (ps != [] ==> r.size >= 1)
    decreases |ps|
  {
    FlattenEmpty(Empty<K, V>(n, auto).buckets);
    if ps != [] {
      var m := |ps| - 1;
      PutAllSize(o, n, auto, ps[..m]);
      PlainSize(o, PutAll(o, Empty(n, auto), ps[..m]), ps[m].key, ps[m].value);
    }
  }

  lemma ResetSize<K(!new), V>(o: Keying<K>, t: Table<K, V>, n: int)
    requires Ranged(o) && 0 < |t.buckets| && t.size == |Flatten(t.buckets)|
    ensures var r := Reset(o, t, n);
            && r.size == |Flatten(r.buckets)| <= t.size && r.autoAssign == t.autoAssign
            && |r.buckets| == if n < INITIAL_SIZE then |t.buckets| else n
  {
    if n >= INITIAL_SIZE { PutAllSize(o, n, t.autoAssign, Flatten(t.buckets)); }
  }

  lemma PutFit<K(!new), V>(o: Keying<K>, t: Table<K, V>, k: K, v: V)
    requires Ranged(o) && Fit(t)
    ensures Fit(Put(o, t, k, v))
    ensures var t' := if t.autoAssign && t.size >= |t.buckets| then Reset(o, t, 2 * |t.buckets|) else t;
            Fit(t') && InRange(o, t', k) && Put(o, t, k, v) == PutPlain(o, t', k, v)
  {
    var n := |t.buckets|;
    ResetSize(o, t, 2 * n);
    PlainSize(o, if t.autoAssign && t.size >= n then Reset(o, t, 2 * n) else t, k, v);
  }

  lemma RemoveFit<K(!new), V>(o: Keying<K>, t: Table<K, V>, k: K)
    requires Ranged(o) && Fit(t)
    ensures Fit(RemovePlain(o, t, k)) && Fit(Remove(o, t, k))
  {
    RemovePlainSize(o, t, k);
    ResetSize(o, RemovePlain(o, t, k), |t.buckets| / 2);
  }

  /** While n buckets are refilled with at most n entries, no put finds the table full. */
  lemma RefillStep<K(!new), V>(o: Keying<K>, n: int, auto: bool, ps: seq<Pair<K, V>>, i: int)
    requires Ranged(o) && INITIAL_SIZE <= n && 0 <= i < |ps| <= n
    ensures var t, t' := PutAll(o, Empty(n, auto), ps[..i]), PutAll(o, Empty(n, auto), ps[..i + 1]);
            && t.size <= i < |t.buckets| == n && Fit(t) && Fit(t')
            && t' == PutPlain(o, t, ps[i].key, ps[i].value) == Put(o, t, ps[i].key, ps[i].value)
  {
    PutAllSize(o, n, auto, ps[..i]);
    PutAllSize(o, n, auto, ps[..i + 1]);
    assert ps[..i + 1][..i] == ps[..i];
  }

  // ---------------------------------------------------------------- shape and search

  lemma ResetTable<K(!new), V>(o: Keying<K>, t: Table<K, V>, n: int)
    requires Ranged(o) && Equivalence(o) && TableOk(o, t)
    ensures TableOk(o, Reset(o, t, n))
  {
    if n >= INITIAL_SIZE {
      EmptyOk<K, V>(o, n, t.autoAssign);
      PutAllOk(o, Empty(n, t.autoAssign), Flatten(t.buckets));
    }
  }

  /** Every run keeps each key in the bucket its hash names and no two equal keys in one bucket. */
  lemma {:induction false} RunTable<K(!new), V>(o: Keying<K>, t: Table<K, V>, cs: seq<Command<K, V>>)
    requires Ranged(o) && Equivalence(o) && TableOk(o, t)
    ensures TableOk(o, TableRun(o, t, cs).0)
    decreases |cs|
  {
    if cs != [] {
      var n := |t.buckets|;
      match cs[0] {
        case CmdPut(k, v) =>
          ResetTable(o, t, 2 * n);
          PlainOk(o, if t.autoAssign && t.size >= n then Reset(o, t, 2 * n) else t, k, v);
        case CmdRemove(k) =>
          RemovePlainOk(o, t, k);
          ResetTable(o, RemovePlain(o, t, k), n / 2);
        case _ =>
      }
      RunTable(o, TableStep(o, t, cs[0]).0, cs[1..]);
    }
  }

  lemma {:induction false} FlattenIn<K, V>(bs: seq<Bucket<K, V>>, p: Pair<K, V>) returns (h: int, j: int)
    requires p in Flatten(bs)
    ensures 0 <= h < |bs| && 0 <= j < |bs[h]| && bs[h][j] == p
    decreases |bs|
  {
    var n := |bs| - 1;
    if p in bs[n] {
      h := n;
      j :| 0 <= j < |bs[n]| && bs[n][j] == p;
    } else {
      h, j := FlattenIn(bs[..n], p);
    }
  }

  lemma FlattenHas<K, V>(bs: seq<Bucket<K, V>>, h: int, j: int)
    requires 0 <= h < |bs| && 0 <= j < |bs[h]|
    ensures bs[h][j] in Flatten(bs)
  {
    FlattenAt(bs, h, j);
  }

  /** A search for q hits an entry with key k of a table of n buckets. */
  ghost predicate Hits<K>(o: Keying<K>, k: K, q: K, n: int) {
    o.equal(k, q) && o.hash(k, n) == o.hash(q, n)
  }

  /** A lookup answers with the one entry that is equal to the key and in the key's bucket. */
  lemma FindExactly<K(!new), V>(o: Keying<K>, t: Table<K, V>, q: K)
    requires Ranged(o) && Equivalence(o) && TableOk(o, t)
    ensures InRange(o, t, q)
    ensures forall p | p in Flatten(t.buckets) :: Hits(o, p.key, q, |t.buckets|) ==> Find(o, t, q) == Some(p.value)
    ensures Find(o, t, q) == None <==> forall p | p in Flatten(t.buckets) :: !Hits(o, p.key, q, |t.buckets|)
  {
    var n := |t.buckets|;
    forall p | p in Flatten(t.buckets) && Hits(o, p.key, q, n) ensures Find(o, t, q) == Some(p.value) {
      var h, j := FlattenIn(t.buckets, p);
      assert Homed(o, t.buckets[h], h, n);
      LookupAt(o, t.buckets[h], j, q);
    }
    var h := o.hash(q, n);
    var i := Index(o, t.buckets[h], q);
    if i < |t.buckets[h]| {
      assert Homed(o, t.buckets[h], h, n);
      FlattenHas(t.buckets, h, i);
      assert Hits(o, t.buckets[h][i].key, q, n);
    }
  }

  // ---------------------------------------------------------------- the order of a chain

  /** A bucket that was empty, after these puts. */
  function Chained<K, V>(o: Keying<K>, ps: seq<Pair<K, V>>): Bucket<K, V> {
    if ps == [] then []
    else
      var p := ps[|ps| - 1];
      BucketPut(o, Chained(o, ps[..|ps| - 1]), p.key, p.value)
  }

  function Backwards<T>(xs: seq<T>): seq<T> {
    if xs == [] then [] else [xs[|xs| - 1]] + Backwards(xs[..|xs| - 1])
  }

  lemma LinkedBehind<K(!new), V>(o: Keying<K>, b: Bucket<K, V>, p: Pair<K, V>)
    requires b != [] && forall j :: 0 <= j < |b| ==> !o.equal(b[j].key, p.key)
    ensures BucketPut(o, b, p.key, p.value) == [b[0]] + ([p] + b[1..])
  {
    assert Index(o, b, p.key) == |b|;
    assert [b[0], p] + b[1..] == [b[0]] + ([p] + b[1..]);
  }

  lemma NoneEqual<K(!new), V>(o: Keying<K>, ps: seq<Pair<K, V>>, m: int, b: Bucket<K, V>)
    requires Distinct(o, ps) && 0 <= m < |ps| && forall q :: q in b ==> q in ps[..m]
    ensures forall j :: 0 <= j < |b| ==> !o.equal(b[j].key, ps[m].key)
  {
    forall j | 0 <= j < |b| ensures !o.equal(b[j].key, ps[m].key) {
      assert b[j] in ps[..m];
      var i :| 0 <= i < m && ps[i] == b[j];
    }
  }

  lemma {:induction false} BackwardsIn<T>(xs: seq<T>)
    ensures forall x :: x in Backwards(xs) ==> x in xs
    decreases |xs|
  {
    if xs != [] { BackwardsIn(xs[..|xs| - 1]); }
  }

  /** The first entry of a bucket stays in front; behind it the latest comes first. */
  lemma {:induction false} ChainOrder<K(!new), V>(o: Keying<K>, ps: seq<Pair<K, V>>)
    requires Distinct(o, ps) && ps != []
    ensures Chained(o, ps) == [ps[0]] + Backwards(ps[1..])
    decreases |ps|
  {
    var m := |ps| - 1;
    if m > 0 {
      var b := Chained(o, ps[..m]);
      ChainOrder(o, ps[..m]);
      var rest := ps[..m][1..];
      assert ps[1..][..m - 1] == rest && ps[1..][m - 1] == ps[m];
      BackwardsIn(rest);
      assert forall x :: x in rest ==> x in ps[..m];
      assert forall q :: q in b ==> q in ps[..m];
      NoneEqual(o, ps, m, b);
      LinkedBehind(o, b, ps[m]);
      assert b[1..] == Backwards(rest);
    } else {
      assert Chained(o, ps[..0]) == [];
      assert Backwards(ps[1..]) == [];
    }
  }

  // ---------------------------------------------------------------- what a rehash loses

  /** No two of the entries meet when they are put into n buckets. */
  ghost predicate NoClash<K, V>(o: Keying<K>, n: int, ps: seq<Pair<K, V>>) {
    forall i, j :: 0 <= i < j < |ps| ==> !Hits(o, ps[i].key, ps[j].key, n)
  }

  /** The buckets hold the keys of ps, each where its hash says. */
  ghost predicate Filed<K, V>(o: Keying<K>, bs: seq<Bucket<K, V>>, ps: seq<Pair<K, V>>) {
    forall p :: p in ps ==> 0 <= o.hash(p.key, |bs|) < |bs| && p in bs[o.hash(p.key, |bs|)]
  }

  ghost predicate From<K, V>(o: Keying<K>, bs: seq<Bucket<K, V>>, ps: seq<Pair<K, V>>) {
    forall h, j :: 0 <= h < |bs| && 0 <= j < |bs[h]| ==> bs[h][j] in ps && o.hash(bs[h][j].key, |bs|) == h
  }

  lemma InsertKeeps<K, V>(b: Bucket<K, V>, p: Pair<K, V>)
    ensures p in Insert(b, p) && forall q :: q in b ==> q in Insert(b, p)
    ensures forall q :: q in Insert(b, p) ==> q == p || q in b
  {
    var c := Insert(b, p);
    assert c[if b == [] then 0 else 1] == p;
    forall q | q in b ensures q in c {
      var j :| 0 <= j < |b| && b[j] == q;
      assert c[if j == 0 then 0 else j + 1] == q;
    }
  }

  lemma ClashSnoc<K(!new), V>(o: Keying<K>, n: int, ps: seq<Pair<K, V>>, p: Pair<K, V>)
    ensures NoClash(o, n, ps + [p]) <==>
            NoClash(o, n, ps) && !exists i :: 0 <= i < |ps| && Hits(o, ps[i].key, p.key, n)
  {
    var qs := ps + [p];
    assert forall i :: 0 <= i < |ps| ==> qs[i] == ps[i];
    assert qs[|ps|] == p;
    if NoClash(o, n, qs) {
      forall i | 0 <= i < |ps| ensures !Hits(o, ps[i].key, p.key, n) { assert !Hits(o, qs[i].key, qs[|ps|].key, n); }
      forall i, j | 0 <= i < j < |ps| ensures !Hits(o, ps[i].key, ps[j].key, n) {
        assert !Hits(o, qs[i].key, qs[j].key, n);
      }
    }
  }

  /** A table that holds just ps, each entry where it belongs, knows a key exactly if some entry of ps meets it. */
  lemma FiledFind<K(!new), V>(o: Keying<K>, t: Table<K, V>, ps: seq<Pair<K, V>>, k: K)
    requires Ranged(o) && 0 < |t.buckets| && Filed(o, t.buckets, ps) && From(o, t.buckets, ps)
    ensures InRange(o, t, k)
    ensures Find(o, t, k).Some? <==> exists i :: 0 <= i < |ps| && Hits(o, ps[i].key, k, |t.buckets|)
  {
    var h := o.hash(k, |t.buckets|);
    var b := t.buckets[h];
    var j := Index(o, b, k);
    if j < |b| {
      assert b[j] in ps;
      var i :| 0 <= i < |ps| && ps[i] == b[j];
      assert Hits(o, ps[i].key, k, |t.buckets|);
    }
    forall i | 0 <= i < |ps| && Hits(o, ps[i].key, k, |t.buckets|) ensures j < |b| {
      assert ps[i] in ps;
      assert ps[i] in b;
    }
  }

  lemma FiledPut<K(!new), V>(o: Keying<K>, t: Table<K, V>, ps: seq<Pair<K, V>>, p: Pair<K, V>)
    requires Ranged(o) && 0 < |t.buckets| && Filed(o, t.buckets, ps) && From(o, t.buckets, ps)
    requires InRange(o, t, p.key) && Find(o, t, p.key) == None
    ensures var r := PutPlain(o, t, p.key, p.value);
            Filed(o, r.buckets, ps + [p]) && From(o, r.buckets, ps + [p])
  {
    var h := o.hash(p.key, |t.buckets|);
    InsertKeeps(t.buckets[h], p);
    var bs := t.buckets[h := Insert(t.buckets[h], p)];
    assert PutPlain(o, t, p.key, p.value).buckets == bs;
    forall q | q in ps + [p] ensures 0 <= o.hash(q.key, |bs|) < |bs| && q in bs[o.hash(q.key, |bs|)] {
      assert q == p || q in ps;
    }
    forall g, j | 0 <= g < |bs| && 0 <= j < |bs[g]| ensures bs[g][j] in ps + [p] && o.hash(bs[g][j].key, |bs|) == g {
      if g == h && bs[g][j] != p {
        var i :| 0 <= i < |t.buckets[h]| && t.buckets[h][i] == bs[g][j];
      }
    }
  }

  /** What putting ps into empty buckets gives. */
  ghost predicate Refilled<K, V>(o: Keying<K>, t: Table<K, V>, ps: seq<Pair<K, V>>) {
    && t.size == |Flatten(t.buckets)| <= |ps|
    && (t.size == |ps| <==> NoClash(o, |t.buckets|, ps))
    && (NoClash(o, |t.buckets|, ps) ==> Filed(o, t.buckets, ps) && From(o, t.buckets, ps))
  }

  lemma RefilledStep<K(!new), V>(o: Keying<K>, t: Table<K, V>, ps: seq<Pair<K, V>>, p: Pair<K, V>)
    requires Ranged(o) && 0 < |t.buckets| && Refilled(o, t, ps)
    ensures InRange(o, t, p.key) && Refilled(o, PutPlain(o, t, p.key, p.value), ps + [p])
  {
    PlainSize(o, t, p.key, p.value);
    ClashSnoc(o, |t.buckets|, ps, p);
    if NoClash(o, |t.buckets|, ps) {
      FiledFind(o, t, ps, p.key);
      if Find(o, t, p.key) == None { FiledPut(o, t, ps, p); }
    }
  }

  /** Refilling keeps every entry exactly when no two of them meet; whatever meets is merged. */
  lemma {:induction false} RefillKeeps<K(!new), V>(o: Keying<K>, n: int, auto: bool, ps: seq<Pair<K, V>>)
    requires Ranged(o) && 0 < n
    ensures Refilled(o, PutAll(o, Empty(n, auto), ps), ps)
    decreases |ps|
  {
    if ps == [] {
      FlattenEmpty(Empty<K, V>(n, auto).buckets);
    } else {
      var m := |ps| - 1;
      RefillKeeps(o, n, auto, ps[..m]);
      RefilledStep(o, PutAll(o, Empty(n, auto), ps[..m]), ps[..m], ps[m]);
      assert ps[..m] + [ps[m]] == ps;
    }
  }

  /** A rehash into n buckets loses no entry exactly when no two entries of the table meet there. */
  lemma ResetKeeps<K(!new), V>(o: Keying<K>, t: Table<K, V>, n: int)
    requires Ranged(o) && t.size == |Flatten(t.buckets)| && n >= INITIAL_SIZE
    ensures Reset(o, t, n).size == t.size <==> NoClash(o, n, Flatten(t.buckets))
  {
    RefillKeeps(o, n, t.autoAssign, Flatten(t.buckets));
  }

  /** In a well-formed table no two entries meet at its own size. */
  lemma {:induction false} OwnNoClash<K(!new), V>(o: Keying<K>, t: Table<K, V>, m: int)
    requires TableOk(o, t) && 0 <= m <= |t.buckets|
    ensures NoClash(o, |t.buckets|, Flatten(t.buckets[..m]))
    ensures forall p :: p in Flatten(t.buckets[..m]) ==> o.hash(p.key, |t.buckets|) < m
    decreases m
  {
    if m > 0 {
      OwnNoClash(o, t, m - 1);
      assert t.buckets[..m][..m - 1] == t.buckets[..m - 1];
      var n, a, b := |t.buckets|, Flatten(t.buckets[..m - 1]), t.buckets[m - 1];
      var ps := a + b;
      assert Flatten(t.buckets[..m]) == ps;
      assert Homed(o, b, m - 1, n) && Distinct(o, b);
      forall i, j | 0 <= i < j < |ps| ensures !Hits(o, ps[i].key, ps[j].key, n) {
        if j < |a| {
          assert !Hits(o, a[i].key, a[j].key, n);
        } else if i < |a| {
          assert a[i] in a && ps[j] == b[j - |a|];
        } else {
          assert !o.equal(b[i - |a|].key, b[j - |a|].key);
        }
      }
    }
  }

  lemma TableNoClash<K(!new), V>(o: Keying<K>, t: Table<K, V>)
    requires TableOk(o, t)
    ensures NoClash(o, |t.buckets|, Flatten(t.buckets))
  {
    OwnNoClash(o, t, |t.buckets|);
    assert t.buckets[..|t.buckets|] == t.buckets;
  }
}
