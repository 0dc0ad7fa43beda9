/** What the table functions mean: refinement of a finite map, load bounds, rehash. */
module HashTableLaws {
  import opened Options
  import opened HashTable

  // ---------------------------------------------------------------- one chain

  lemma LookupConcat<K, V>(o: Keying<K>, a: Bucket<K, V>, b: Bucket<K, V>, q: K)
    ensures Lookup(o, a + b, q) == if Lookup(o, a, q).Some? then Lookup(o, a, q) else Lookup(o, b, q)
  {
    var i, j, k := Index(o, a, q), Index(o, b, q), Index(o, a + b, q);
    if i < |a| {
      assert (a + b)[i] == a[i];
      assert k <= i;
      assert (a + b)[k] == a[k];
    } else if j < |b| {
      assert (a + b)[|a| + j] == b[j];
      assert k >= |a| && (a + b)[k] == b[k - |a|];
    } else {
      forall m | 0 <= m < |a + b| ensures !o.equal((a + b)[m].key, q) {
        assert (a + b)[m] == if m < |a| then a[m] else b[m - |a|];
      }
    }
  }

  /** In a chain without duplicate keys any matching entry is the one that is found. */
  lemma LookupAt<K(!new), V>(o: Keying<K>, b: Bucket<K, V>, i: int, q: K)
    requires Equivalence(o) && Distinct(o, b)
    requires 0 <= i < |b| && o.equal(b[i].key, q)
    ensures Index(o, b, q) == i
  {
    assert o.equal(q, b[i].key);
    forall j | 0 <= j < i ensures !o.equal(b[j].key, q) {
      assert !o.equal(b[j].key, b[i].key);
    }
  }

  lemma LookupLast<K(!new), V>(o: Keying<K>, b: Bucket<K, V>, q: K)
    requires Equivalence(o) && Distinct(o, b) && b != []
    ensures var p := b[|b| - 1];
      Lookup(o, b, q) == if o.equal(p.key, q) then Some(p.value) else Lookup(o, b[..|b| - 1], q)
  {
    var m := |b| - 1;
    assert b == b[..m] + [b[m]];
    LookupConcat(o, b[..m], [b[m]], q);
    if o.equal(b[m].key, q) { LookupAt(o, b, m, q); }
  }

  lemma PutDistinct<K(!new), V>(o: Keying<K>, b: Bucket<K, V>, k: K, v: V)
    requires Equivalence(o) && Distinct(o, b)
    ensures Distinct(o, BucketPut(o, b, k, v))
  {
    var c := BucketPut(o, b, k, v);
    if Index(o, b, k) == |b| && |b| > 0 {
      assert c[0] == b[0] && c[1] == Pair(k, v);
      assert forall j :: 2 <= j < |c| ==> c[j] == b[j - 1];
      assert forall j :: 0 <= j < |b| ==> !o.equal(k, b[j].key);
    }
  }

  /** Searching a chain that is cut around one of its entries. */
  lemma LookupAround<K, V>(o: Keying<K>, a: Bucket<K, V>, p: Pair<K, V>, c: Bucket<K, V>, q: K)
    ensures Lookup(o, a + [p] + c, q)
         == if Lookup(o, a, q).Some? then Lookup(o, a, q)
            else if o.equal(p.key, q) then Some(p.value) else Lookup(o, c, q)
  {
    LookupConcat(o, a + [p], c, q);
    LookupConcat(o, a, [p], q);
  }

  lemma PutLookup<K(!new), V>(o: Keying<K>, b: Bucket<K, V>, k: K, v: V, q: K)
    requires Equivalence(o) && Distinct(o, b)
    ensures Lookup(o, BucketPut(o, b, k, v), q) == if o.equal(k, q) then Some(v) else Lookup(o, b, q)
  {
    var i := Index(o, b, k);
    if i < |b| {
      assert b == b[..i] + [b[i]] + b[i + 1..];
      assert BucketPut(o, b, k, v) == b[..i] + [Pair(b[i].key, v)] + b[i + 1..];
      LookupAround(o, b[..i], b[i], b[i + 1..], q);
      LookupAround(o, b[..i], Pair(b[i].key, v), b[i + 1..], q);
      OnlyMatch(o, b, i, k, q);
    } else if b != [] {
      assert b == [b[0]] + b[1..] && Insert(b, Pair(k, v)) == [b[0]] + [Pair(k, v)] + b[1..];
      LookupConcat(o, [b[0]], b[1..], q);
      LookupAround(o, [b[0]], Pair(k, v), b[1..], q);
      assert !o.equal(b[0].key, k);
      if o.equal(k, q) { assert o.equal(q, k); }
    }
  }

  /** When entry i matches k, a key equal to k matches entry i and nothing before it. */
  lemma OnlyMatch<K(!new), V>(o: Keying<K>, b: Bucket<K, V>, i: int, k: K, q: K)
    requires Equivalence(o) && Distinct(o, b) && 0 <= i < |b| && o.equal(b[i].key, k)
    ensures o.equal(b[i].key, q) <==> o.equal(k, q)
    ensures o.equal(k, q) ==> Lookup(o, b[..i], q) == None && Lookup(o, b[i + 1..], q) == None
  {
    assert o.equal(k, b[i].key);
    if o.equal(k, q) {
      assert o.equal(q, b[i].key);
      forall j | 0 <= j < |b| && j != i ensures !o.equal(b[j].key, q) {
        assert !o.equal(b[j].key, b[i].key);
      }
    }
  }

  lemma RemoveDistinct<K(!new), V>(o: Keying<K>, b: Bucket<K, V>, k: K)
    requires Equivalence(o) && Distinct(o, b)
    ensures Distinct(o, BucketRemove(o, b, k))
  {
  }

  lemma RemoveLookup<K(!new), V>(o: Keying<K>, b: Bucket<K, V>, k: K, q: K)
    requires Equivalence(o) && Distinct(o, b)
    ensures Lookup(o, BucketRemove(o, b, k), q) == if o.equal(k, q) then None else Lookup(o, b, q)
  {
    var i := Index(o, b, k);
    if i < |b| {
      assert b == b[..i] + [b[i]] + b[i + 1..];
      LookupAround(o, b[..i], b[i], b[i + 1..], q);
      LookupConcat(o, b[..i], b[i + 1..], q);
      OnlyMatch(o, b, i, k, q);
    } else if o.equal(k, q) {
      assert o.equal(q, k);
      assert forall m :: 0 <= m < |b| ==> !o.equal(b[m].key, q);
    }
  }

  // ---------------------------------------------------------------- the whole table

  lemma {:induction false} FlattenUpdate<K, V>(bs: seq<Bucket<K, V>>, h: int, b: Bucket<K, V>)
    requires 0 <= h < |bs|
    ensures |Flatten(bs[h := b])| == |Flatten(bs)| - |bs[h]| + |b|
  {
    var n := |bs| - 1;
    if h < n {
      assert bs[h := b][..n] == bs[..n][h := b];
      FlattenUpdate(bs[..n], h, b);
    } else {
      assert bs[h := b][..n] == bs[..n];
    }
  }

  /** Entry j of bucket h comes right after the j entries before it and all earlier buckets. */
  lemma {:induction false} FlattenAt<K, V>(bs: seq<Bucket<K, V>>, h: int, j: int)
    requires 0 <= h < |bs| && 0 <= j < |bs[h]|
    ensures Flatten(bs[..h + 1]) == Flatten(bs[..h]) + bs[h]
    ensures |Flatten(bs[..h])| + |bs[h]| <= |Flatten(bs)|
    ensures Flatten(bs)[|Flatten(bs[..h])| + j] == bs[h][j]
    decreases |bs|
  {
    var n := |bs| - 1;
    assert bs[..h + 1][..h] == bs[..h];
    if h < n {
      assert bs[..n][..h] == bs[..h];
      FlattenAt(bs[..n], h, j);
    } else {
      assert bs[..h + 1] == bs;
    }
  }

  /** Entry p of bucket h is the count-th entry in iteration order. */
  ghost predicate At<K, V>(bs: seq<Bucket<K, V>>, h: int, p: int, count: int) {
    0 <= h < |bs| && 0 <= p < |bs[h]| && count == |Flatten(bs[..h])| + p + 1
  }

  /** The buckets before h hold exactly `count` entries. */
  ghost predicate Before<K, V>(bs: seq<Bucket<K, V>>, h: int, count: int) {
    0 <= h <= |bs| && count == |Flatten(bs[..h])|
  }

  lemma AtStep<K, V>(bs: seq<Bucket<K, V>>, h: int, p: int, count: int)
    requires At(bs, h, p, count)
    ensures if p + 1 < |bs[h]|
      then At(bs, h, p + 1, count + 1) && count < |Flatten(bs)| && Flatten(bs)[count] == bs[h][p + 1]
      else Before(bs, h + 1, count)
  {
    FlattenAt(bs, h, p);
    if p + 1 < |bs[h]| { FlattenAt(bs, h, p + 1); }
  }

  lemma BeforeStep<K, V>(bs: seq<Bucket<K, V>>, h: int, count: int)
    requires Before(bs, h, count)
    ensures h == |bs| ==> count == |Flatten(bs)|
    ensures h < |bs| && bs[h] == [] ==> Before(bs, h + 1, count)
    ensures h < |bs| && bs[h] != [] ==>
      At(bs, h, 0, count + 1) && count < |Flatten(bs)| && Flatten(bs)[count] == bs[h][0]
  {
    if h == |bs| {
      assert bs[..h] == bs;
    } else if bs[h] == [] {
      assert bs[..h + 1][..h] == bs[..h];
    } else {
      FlattenAt(bs, h, 0);
    }
  }

  lemma {:induction false} FlattenEmpty<K, V>(bs: seq<Bucket<K, V>>)
    requires forall i :: 0 <= i < |bs| ==> bs[i] == []
    ensures Flatten(bs) == []
  {
    if bs != [] { FlattenEmpty(bs[..|bs| - 1]); }
  }

  lemma EmptyOk<K(!new), V>(o: Keying<K>, n: int, auto: bool)
    requires Ranged(o) && 0 < n
    ensures TableOk(o, Empty<K, V>(n, auto))
    ensures forall q :: InRange(o, Empty<K, V>(n, auto), q) && Find(o, Empty<K, V>(n, auto), q) == None
  {
    FlattenEmpty(Empty<K, V>(n, auto).buckets);
  }

  lemma FlattenPrefix<K, V>(bs: seq<Bucket<K, V>>, m: int)
    requires 0 < m <= |bs|
    ensures Flatten(bs[..m]) == Flatten(bs[..m - 1]) + bs[m - 1]
  {
    assert bs[..m][..m - 1] == bs[..m - 1];
  }

  /** Only the bucket that a key names can have an entry for it. */
  lemma ElsewhereNone<K(!new), V>(o: Keying<K>, b: Bucket<K, V>, h: int, n: int, q: K)
    requires Lawful(o) && 0 < n && Homed(o, b, h, n) && o.hash(q, n) != h
    ensures Lookup(o, b, q) == None
  {
    var i := Index(o, b, q);
    assert i < |b| ==> o.hash(b[i].key, n) == o.hash(q, n);
  }

  /** Looking a key up by its hash is the same as searching all entries in iteration order. */
  lemma {:induction false} FindPrefix<K(!new), V>(o: Keying<K>, t: Table<K, V>, m: int, q: K)
    requires Lawful(o) && TableOk(o, t) && 0 <= m <= |t.buckets|
    ensures InRange(o, t, q)
    ensures Lookup(o, Flatten(t.buckets[..m]), q)
         == if o.hash(q, |t.buckets|) < m then Find(o, t, q) else None
    decreases m
  {
    if m > 0 {
      FlattenPrefix(t.buckets, m);
      FindPrefix(o, t, m - 1, q);
      LookupConcat(o, Flatten(t.buckets[..m - 1]), t.buckets[m - 1], q);
      if o.hash(q, |t.buckets|) != m - 1 { ElsewhereNone(o, t.buckets[m - 1], m - 1, |t.buckets|, q); }
    }
  }

  lemma FindFlat<K(!new), V>(o: Keying<K>, t: Table<K, V>, q: K)
    requires Lawful(o) && TableOk(o, t)
    ensures InRange(o, t, q)
    ensures Find(o, t, q) == Lookup(o, Flatten(t.buckets), q) == MapGet(Meaning(o, t), q)
  {
    FindPrefix(o, t, |t.buckets|, q);
    assert t.buckets[..|t.buckets|] == t.buckets;
  }

  /** No two entries anywhere in the table have equal keys. */
  lemma {:induction false} FlattenDistinct<K(!new), V>(o: Keying<K>, t: Table<K, V>, m: int)
    requires Lawful(o) && TableOk(o, t) && 0 <= m <= |t.buckets|
    ensures Distinct(o, Flatten(t.buckets[..m]))
    ensures forall p :: p in Flatten(t.buckets[..m]) ==> o.hash(p.key, |t.buckets|) < m
    decreases m
  {
    if m > 0 {
      var n := |t.buckets|;
      assert t.buckets[..m][..m - 1] == t.buckets[..m - 1];
      FlattenDistinct(o, t, m - 1);
      var a: seq<Pair<K, V>>, b: Bucket<K, V> := Flatten(t.buckets[..m - 1]), t.buckets[m - 1];
      assert Homed(o, b, m - 1, n) && Distinct(o, b);
      forall i, j | 0 <= i < j < |a + b| ensures !o.equal((a + b)[i].key, (a + b)[j].key) {
        if i < |a| <= j {
          assert a[i] in a;
          assert o.hash(b[j - |a|].key, n) == m - 1;
        }
      }
    }
  }

  lemma PlainOk<K(!new), V>(o: Keying<K>, t: Table<K, V>, k: K, v: V)
    requires Ranged(o) && Equivalence(o) && TableOk(o, t)
    ensures InRange(o, t, k)
    ensures TableOk(o, PutPlain(o, t, k, v))
    ensures PutPlain(o, t, k, v).size == t.size + if Find(o, t, k).Some? then 0 else 1
  {
    var h := o.hash(k, |t.buckets|);
    var b := BucketPut(o, t.buckets[h], k, v);
    FlattenUpdate(t.buckets, h, b);
    PutDistinct(o, t.buckets[h], k, v);
    assert Homed(o, t.buckets[h], h, |t.buckets|);
    assert Homed(o, b, h, |t.buckets|);
  }

  lemma PlainFind<K(!new), V>(o: Keying<K>, t: Table<K, V>, k: K, v: V, q: K)
    requires Lawful(o) && TableOk(o, t)
    ensures InRange(o, t, k) && InRange(o, PutPlain(o, t, k, v), q) && InRange(o, t, q)
    ensures Find(o, PutPlain(o, t, k, v), q) == if o.equal(k, q) then Some(v) else Find(o, t, q)
  {
    PutLookup(o, t.buckets[o.hash(k, |t.buckets|)], k, v, q);
  }

  lemma {:induction false} PutAllOk<K(!new), V>(o: Keying<K>, t: Table<K, V>, ps: seq<Pair<K, V>>)
    requires Ranged(o) && Equivalence(o) && TableOk(o, t)
    ensures TableOk(o, PutAll(o, t, ps))
    decreases |ps|
  {
    if ps != [] {
      var n := |ps| - 1;
      PutAllOk(o, t, ps[..n]);
      PlainOk(o, PutAll(o, t, ps[..n]), ps[n].key, ps[n].value);
    }
  }

  /** Putting distinct entries into an empty table gives the map they spell, and never overfills it. */
  lemma {:induction false} RebuildFind<K(!new), V>(o: Keying<K>, n: int, auto: bool, ps: seq<Pair<K, V>>, q: K)
    requires Lawful(o) && 0 < n && Distinct(o, ps)
    ensures InRange(o, PutAll(o, Empty(n, auto), ps), q)
    ensures Find(o, PutAll(o, Empty(n, auto), ps), q) == Lookup(o, ps, q)
    decreases |ps|
  {
    EmptyOk<K, V>(o, n, auto);
    if ps != [] {
      var m := |ps| - 1;
      RebuildFind(o, n, auto, ps[..m], q);
      PutAllOk(o, Empty(n, auto), ps[..m]);
      PlainFind(o, PutAll(o, Empty(n, auto), ps[..m]), ps[m].key, ps[m].value, q);
      LookupLast(o, ps, q);
    }
  }

  lemma {:induction false} RebuildSize<K(!new), V>(o: Keying<K>, n: int, auto: bool, ps: seq<Pair<K, V>>)
    requires Lawful(o) && 0 < n && Distinct(o, ps)
    ensures PutAll(o, Empty(n, auto), ps).size == |ps|
    decreases |ps|
  {
    if ps != [] {
      var m := |ps| - 1;
      EmptyOk<K, V>(o, n, auto);
      RebuildSize(o, n, auto, ps[..m]);
      PutAllOk(o, Empty(n, auto), ps[..m]);
      PlainOk(o, PutAll(o, Empty(n, auto), ps[..m]), ps[m].key, ps[m].value);
      RebuildFind(o, n, auto, ps[..m], ps[m].key);
    }
  }

  /** The rehash keeps the number of entries and puts exactly n buckets in place. */
  lemma ResetOk<K(!new), V>(o: Keying<K>, t: Table<K, V>, n: int)
    requires Lawful(o) && TableOk(o, t)
    ensures TableOk(o, Reset(o, t, n))
    ensures Reset(o, t, n).size == t.size && Reset(o, t, n).autoAssign == t.autoAssign
    ensures |Reset(o, t, n).buckets| == if n < INITIAL_SIZE then |t.buckets| else n
  {
    if n >= INITIAL_SIZE {
      assert t.buckets[..|t.buckets|] == t.buckets;
      FlattenDistinct(o, t, |t.buckets|);
      EmptyOk<K, V>(o, n, t.autoAssign);
      PutAllOk(o, Empty(n, t.autoAssign), Flatten(t.buckets));
      RebuildSize(o, n, t.autoAssign, Flatten(t.buckets));
    }
  }

  /** The rehash keeps the map. */
  lemma ResetPreserves<K(!new), V>(o: Keying<K>, t: Table<K, V>, n: int)
    requires Lawful(o) && TableOk(o, t)
    ensures Meaning(o, Reset(o, t, n)) == Meaning(o, t)
  {
    if n >= INITIAL_SIZE {
      var ps, r := Flatten(t.buckets), Reset(o, t, n);
      assert t.buckets[..|t.buckets|] == t.buckets;
      FlattenDistinct(o, t, |t.buckets|);
      ResetOk(o, t, n);
      forall q ensures Lookup(o, Flatten(r.buckets), q) == Lookup(o, ps, q) {
        RebuildFind(o, n, t.autoAssign, ps, q);
        FindFlat(o, r, q);
      }
    }
  }

  lemma MapsAlike<K(!new), V>(a: imap<K, V>, b: imap<K, V>)
    requires forall q :: MapGet(a, q) == MapGet(b, q)
    ensures a == b
  {
    assert forall q :: (q in a <==> MapGet(a, q).Some?) && (q in b <==> MapGet(b, q).Some?);
    assert forall q :: q in a ==> a[q] == MapGet(a, q).value;
    assert forall q :: q in b ==> b[q] == MapGet(b, q).value;
  }

  lemma PlainMeaning<K(!new), V>(o: Keying<K>, t: Table<K, V>, k: K, v: V)
    requires Lawful(o) && TableOk(o, t)
    ensures InRange(o, t, k)
    ensures Meaning(o, PutPlain(o, t, k, v)) == MapPut(o, Meaning(o, t), k, v)
  {
    PlainOk(o, t, k, v);
    var r := PutPlain(o, t, k, v);
    forall q ensures MapGet(Meaning(o, r), q) == MapGet(MapPut(o, Meaning(o, t), k, v), q) {
      PlainFind(o, t, k, v, q);
      FindFlat(o, r, q);
      FindFlat(o, t, q);
    }
    MapsAlike(Meaning(o, r), MapPut(o, Meaning(o, t), k, v));
  }

  /** The table just before the new entry is stored, and after: neither is ever overfull. */
  lemma PutOk<K(!new), V>(o: Keying<K>, t: Table<K, V>, k: K, v: V)
    requires Lawful(o) && TableOk(o, t)
    ensures var n := |t.buckets|;
      var grow := t.autoAssign && t.size >= n;
      var t' := if grow then Reset(o, t, 2 * n) else t;
      var r := Put(o, t, k, v);
      && TableOk(o, t') && r == PutPlain(o, t', k, v) && TableOk(o, r)
      && r.autoAssign == t.autoAssign
      && |r.buckets| == (if grow && 2 * n >= INITIAL_SIZE then 2 * n else n)
      && t.size <= r.size <= t.size + 1
  {
    var n := |t.buckets|;
    ResetOk(o, t, 2 * n);
    PlainOk(o, if t.autoAssign && t.size >= n then Reset(o, t, 2 * n) else t, k, v);
  }

  /** Put, with the growth it may trigger, is put on the map. */
  lemma PutRefines<K(!new), V>(o: Keying<K>, t: Table<K, V>, k: K, v: V)
    requires Lawful(o) && TableOk(o, t)
    ensures TableOk(o, Put(o, t, k, v))
    ensures Meaning(o, Put(o, t, k, v)) == MapPut(o, Meaning(o, t), k, v)
    ensures Put(o, t, k, v).size == t.size + if k in Meaning(o, t) then 0 else 1
  {
    var n := |t.buckets|;
    PutOk(o, t, k, v);
    ResetOk(o, t, 2 * n);
    ResetPreserves(o, t, 2 * n);
    var t' := if t.autoAssign && t.size >= n then Reset(o, t, 2 * n) else t;
    PlainOk(o, t', k, v);
    PlainMeaning(o, t', k, v);
    FindFlat(o, t', k);
  }

  lemma RemovePlainOk<K(!new), V>(o: Keying<K>, t: Table<K, V>, k: K)
    requires Ranged(o) && Equivalence(o) && TableOk(o, t)
    ensures InRange(o, t, k)
    ensures TableOk(o, RemovePlain(o, t, k))
    ensures RemovePlain(o, t, k).size == t.size - if Find(o, t, k).Some? then 1 else 0
  {
    var h := o.hash(k, |t.buckets|);
    var b := BucketRemove(o, t.buckets[h], k);
    FlattenUpdate(t.buckets, h, b);
    RemoveDistinct(o, t.buckets[h], k);
    assert Homed(o, t.buckets[h], h, |t.buckets|);
    assert Homed(o, b, h, |t.buckets|);
  }

  lemma RemoveFind<K(!new), V>(o: Keying<K>, t: Table<K, V>, k: K, q: K)
    requires Lawful(o) && TableOk(o, t)
    ensures InRange(o, t, k) && InRange(o, RemovePlain(o, t, k), q) && InRange(o, t, q)
    ensures Find(o, RemovePlain(o, t, k), q) == if o.equal(k, q) then None else Find(o, t, q)
  {
    RemoveLookup(o, t.buckets[o.hash(k, |t.buckets|)], k, q);
  }

  lemma RemovePlainMeaning<K(!new), V>(o: Keying<K>, t: Table<K, V>, k: K)
    requires Lawful(o) && TableOk(o, t)
    ensures InRange(o, t, k)
    ensures Meaning(o, RemovePlain(o, t, k)) == MapRemove(o, Meaning(o, t), k)
  {
    var r := RemovePlain(o, t, k);
    RemovePlainOk(o, t, k);
    forall q ensures MapGet(Meaning(o, r), q) == MapGet(MapRemove(o, Meaning(o, t), k), q) {
      RemoveFind(o, t, k, q);
      FindFlat(o, r, q);
      FindFlat(o, t, q);
    }
    MapsAlike(Meaning(o, r), MapRemove(o, Meaning(o, t), k));
  }

  lemma RemoveOk<K(!new), V>(o: Keying<K>, t: Table<K, V>, k: K)
    requires Lawful(o) && TableOk(o, t)
    ensures var n, t', r := |t.buckets|, RemovePlain(o, t, k), Remove(o, t, k);
      && TableOk(o, t') && TableOk(o, r)
      && t'.size == r.size == t.size - (if Find(o, t, k).Some? then 1 else 0)
      && r.autoAssign == t'.autoAssign == t.autoAssign
      && |t'.buckets| == n
      && (if Find(o, t, k).Some? && t.autoAssign && t'.size < n / 2
          then r == Reset(o, t', n / 2) && |r.buckets| == if n / 2 < INITIAL_SIZE then n else n / 2
          else r == t')
  {
    RemovePlainOk(o, t, k);
    ResetOk(o, RemovePlain(o, t, k), |t.buckets| / 2);
  }

  /** Remove, with the shrinking it may trigger, is remove on the map. */
  lemma RemoveRefines<K(!new), V>(o: Keying<K>, t: Table<K, V>, k: K)
    requires Lawful(o) && TableOk(o, t)
    ensures TableOk(o, Remove(o, t, k))
    ensures Meaning(o, Remove(o, t, k)) == MapRemove(o, Meaning(o, t), k)
    ensures Remove(o, t, k).size == t.size - if k in Meaning(o, t) then 1 else 0
  {
    RemoveOk(o, t, k);
    FindFlat(o, t, k);
    RemovePlainMeaning(o, t, k);
    ResetPreserves(o, RemovePlain(o, t, k), |t.buckets| / 2);
  }

  /** `size` counts the equivalence classes of the map: the stored keys are one key of each class. */
  lemma SizeIsCardinality<K(!new), V>(o: Keying<K>, t: Table<K, V>)
    requires Lawful(o) && TableOk(o, t)
    ensures var ps := Flatten(t.buckets);
      && t.size == |ps| && Distinct(o, ps)
      && (forall i :: 0 <= i < |ps| ==> MapGet(Meaning(o, t), ps[i].key) == Some(ps[i].value))
      && (forall q :: q in Meaning(o, t) ==> exists i :: 0 <= i < |ps| && o.equal(ps[i].key, q))
  {
    var ps := Flatten(t.buckets);
    assert t.buckets[..|t.buckets|] == t.buckets;
    FlattenDistinct(o, t, |t.buckets|);
    forall i | 0 <= i < |ps| ensures MapGet(Meaning(o, t), ps[i].key) == Some(ps[i].value) {
      LookupAt(o, ps, i, ps[i].key);
    }
  }

  // ---------------------------------------------------------------- load

  lemma PutLoad<K(!new), V>(o: Keying<K>, t: Table<K, V>, k: K, v: V)
    requires Lawful(o) && TableOk(o, t) && t.autoAssign && LoadOk(t)
    ensures LoadOk(Put(o, t, k, v))
  {
    PutOk(o, t, k, v);
    var n := |t.buckets|;
    var e: nat :| n == INITIAL_SIZE * Pow2(e);
    if t.size >= n {
      assert 2 * n == INITIAL_SIZE * Pow2(e + 1);
    }
  }

  lemma RemoveLoad<K(!new), V>(o: Keying<K>, t: Table<K, V>, k: K)
    requires Lawful(o) && TableOk(o, t) && t.autoAssign && LoadOk(t)
    ensures LoadOk(Remove(o, t, k))
  {
    RemoveOk(o, t, k);
    var t', n := RemovePlain(o, t, k), |t.buckets|;
    var e: nat :| n == INITIAL_SIZE * Pow2(e);
    if t'.size < n / 2 && e > 0 {
      assert n / 2 == INITIAL_SIZE * Pow2(e - 1);
    }
  }

  // ---------------------------------------------------------------- whole runs

  datatype Command<+K, +V> = CmdPut(key: K, value: V) | CmdGet(key: K) | CmdExists(key: K) | CmdRemove(key: K)

  /** What a call hands back.  A get of an absent key has no result: it is outside the contract of get. */
  datatype Reply<+V> = Done | Got(got: Option<V>) | Flag(flag: bool)

  ghost function TableStep<K(!new), V>(o: Keying<K>, t: Table<K, V>, c: Command<K, V>): (r: (Table<K, V>, Reply<V>))
    requires Ranged(o) && 0 < |t.buckets|
    ensures 0 < |r.0.buckets|
  {
    match c
    case CmdPut(k, v) => (Put(o, t, k, v), Done)
    case CmdGet(k) => (t, Got(Find(o, t, k)))
    case CmdExists(k) => (t, Flag(Find(o, t, k).Some?))
    case CmdRemove(k) => (Remove(o, t, k), Flag(Find(o, t, k).Some?))
  }

  ghost function MapStep<K(!new), V>(o: Keying<K>, m: imap<K, V>, c: Command<K, V>): (imap<K, V>, Reply<V>) {
    match c
    case CmdPut(k, v) => (MapPut(o, m, k, v), Done)
    case CmdGet(k) => (m, Got(MapGet(m, k)))
    case CmdExists(k) => (m, Flag(k in m))
    case CmdRemove(k) => (MapRemove(o, m, k), Flag(k in m))
  }

  ghost function MapRun<K(!new), V>(o: Keying<K>, m: imap<K, V>, cs: seq<Command<K, V>>): (imap<K, V>, seq<Reply<V>>) {
    if cs == [] then (m, [])
    else
      var (m', r) := MapStep(o, m, cs[0]);
      var (m'', rs) := MapRun(o, m', cs[1..]);
      (m'', [r] + rs)
  }

  ghost function TableRun<K(!new), V>(o: Keying<K>, t: Table<K, V>, cs: seq<Command<K, V>>)
    : (r: (Table<K, V>, seq<Reply<V>>))
    requires Ranged(o) && 0 < |t.buckets|
    ensures 0 < |r.0.buckets|
    decreases |cs|
  {
    if cs == [] then (t, [])
    else
      var (t', r) := TableStep(o, t, cs[0]);
      var (t'', rs) := TableRun(o, t', cs[1..]);
      (t'', [r] + rs)
  }

  lemma StepRefines<K(!new), V>(o: Keying<K>, t: Table<K, V>, c: Command<K, V>)
    requires Lawful(o) && TableOk(o, t)
    ensures TableOk(o, TableStep(o, t, c).0)
    ensures MapStep(o, Meaning(o, t), c) == (Meaning(o, TableStep(o, t, c).0), TableStep(o, t, c).1)
    ensures TableStep(o, t, c).0.autoAssign == t.autoAssign
    ensures t.autoAssign && LoadOk(t) ==> LoadOk(TableStep(o, t, c).0)
  {
    FindFlat(o, t, c.key);
    match c
    case CmdPut(k, v) =>
      PutRefines(o, t, k, v);
      if t.autoAssign && LoadOk(t) { PutLoad(o, t, k, v); }
    case CmdRemove(k) =>
      RemoveRefines(o, t, k);
      if t.autoAssign && LoadOk(t) { RemoveLoad(o, t, k); }
    case CmdGet(_) =>
    case CmdExists(_) =>
  }

  /** Any run of calls answers exactly as the finite map does and ends in a table that means that map. */
  lemma {:induction false} RunRefines<K(!new), V>(o: Keying<K>, t: Table<K, V>, cs: seq<Command<K, V>>)
    requires Lawful(o) && TableOk(o, t)
    ensures var (t', rs) := TableRun(o, t, cs);
      && TableOk(o, t')
      && MapRun(o, Meaning(o, t), cs) == (Meaning(o, t'), rs)
      && (t.autoAssign && LoadOk(t) ==> LoadOk(t'))
    decreases |cs|
  {
    if cs != [] {
      StepRefines(o, t, cs[0]);
      RunRefines(o, TableStep(o, t, cs[0]).0, cs[1..]);
    }
  }

  /** A new map is empty, and every run from it stays inside the load bounds. */
  lemma NewMapRun<K(!new), V>(o: Keying<K>, cs: seq<Command<K, V>>)
    requires Lawful(o)
    ensures TableOk(o, Empty<K, V>(INITIAL_SIZE, true))
    ensures var (t', rs) := TableRun(o, Empty(INITIAL_SIZE, true), cs);
      && LoadOk(t') && TableOk(o, t')
      && MapRun(o, imap[], cs) == (Meaning(o, t'), rs)
  {
    EmptyOk<K, V>(o, INITIAL_SIZE, true);
    var t := Empty<K, V>(INITIAL_SIZE, true);
    FlattenEmpty(t.buckets);
    assert Meaning(o, t) == imap[];
    assert |t.buckets| == INITIAL_SIZE * Pow2(0);
    RunRefines(o, t, cs);
  }
}
