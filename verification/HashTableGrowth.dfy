/** How a map grows when unequal keys are put into it, for any hash in range and any equivalence. */
module HashTableGrowth {
  import opened Options
  import opened HashTable
  import opened HashTableLaws
  import opened HashTableAnyPair
  import opened HashTableSame

  // ---------------------------------------------------------------- runs, one command longer

  lemma {:induction false} RunSnoc<K(!new), V>(o: Keying<K>, t: Table<K, V>, cs: seq<Command<K, V>>, c: Command<K, V>)
    requires Ranged(o) && 0 < |t.buckets|
    ensures var (t', rs) := TableRun(o, t, cs);
            TableRun(o, t, cs + [c]) == (TableStep(o, t', c).0, rs + [TableStep(o, t', c).1])
    decreases |cs|
  {
    if cs == [] {
      assert cs + [c] == [c] && [c][1..] == [];
      assert [TableStep(o, t, c).1] + [] == [] + [TableStep(o, t, c).1];
    } else {
      var (t1, r) := TableStep(o, t, cs[0]);
      assert (cs + [c])[1..] == cs[1..] + [c];
      RunSnoc(o, t1, cs[1..], c);
      var (t', rs) := TableRun(o, t1, cs[1..]);
      assert [r] + (rs + [TableStep(o, t', c).1]) == [r] + rs + [TableStep(o, t', c).1];
    }
  }

  lemma {:induction false} MapSnoc<K(!new), V>(e: Keying<K>, m: imap<K, V>, cs: seq<Command<K, V>>, c: Command<K, V>)
    ensures var (m', rs) := MapRun(e, m, cs);
            MapRun(e, m, cs + [c]) == (MapStep(e, m', c).0, rs + [MapStep(e, m', c).1])
    decreases |cs|
  {
    if cs == [] {
      assert cs + [c] == [c] && [c][1..] == [];
      assert [MapStep(e, m, c).1] + [] == [] + [MapStep(e, m, c).1];
    } else {
      var (m1, r) := MapStep(e, m, cs[0]);
      assert (cs + [c])[1..] == cs[1..] + [c];
      MapSnoc(e, m1, cs[1..], c);
      var (m', rs) := MapRun(e, m1, cs[1..]);
      assert [r] + (rs + [MapStep(e, m', c).1]) == [r] + rs + [MapStep(e, m', c).1];
    }
  }

  // ---------------------------------------------------------------- keys that are found

  ghost predicate Unequal<K>(o: Keying<K>, keys: seq<K>) {
    forall i, j :: 0 <= i < j < |keys| ==> !o.equal(keys[i], keys[j])
  }

  ghost predicate Knows<K(!new), V>(o: Keying<K>, t: Table<K, V>, k: K)
    requires Ranged(o) && 0 < |t.buckets|
  {
    Find(o, t, k).Some?
  }

  lemma IndexFinds<K, V>(o: Keying<K>, b: Bucket<K, V>, k: K, j: int)
    requires 0 <= j < |b| && o.equal(b[j].key, k)
    ensures Index(o, b, k) < |b|
  {}

  lemma BucketPutKnows<K(!new), V>(o: Keying<K>, b: Bucket<K, V>, k: K, v: V, q: K)
    requires Equivalence(o)
    ensures Index(o, BucketPut(o, b, k, v), k) < |BucketPut(o, b, k, v)|
    ensures Index(o, b, q) < |b| ==> Index(o, BucketPut(o, b, k, v), q) < |BucketPut(o, b, k, v)|
  {
    var c, i, j := BucketPut(o, b, k, v), Index(o, b, k), Index(o, b, q);
    if i < |b| {
      IndexFinds(o, c, k, i);
      if j < |b| { IndexFinds(o, c, q, j); }
    } else {
      IndexFinds(o, c, k, if b == [] then 0 else 1);
      if j < |b| { IndexFinds(o, c, q, if j == 0 then 0 else j + 1); }
    }
  }

  lemma PutKnows<K(!new), V>(o: Keying<K>, t: Table<K, V>, k: K, v: V, q: K)
    requires Ranged(o) && Equivalence(o) && 0 < |t.buckets|
    ensures InRange(o, t, k)
    ensures Knows(o, PutPlain(o, t, k, v), k)
    ensures Knows(o, t, q) ==> Knows(o, PutPlain(o, t, k, v), q)
  {
    BucketPutKnows(o, t.buckets[o.hash(k, |t.buckets|)], k, v, q);
  }

  /** Whatever a refill merges, it still finds every key. */
  lemma {:induction false} RefillKnows<K(!new), V>(o: Keying<K>, n: int, auto: bool, ps: seq<Pair<K, V>>, i: int)
    requires Ranged(o) && Equivalence(o) && 0 < n && 0 <= i < |ps|
    ensures Knows(o, PutAll(o, Empty(n, auto), ps), ps[i].key)
    decreases |ps|
  {
    var m := |ps| - 1;
    PutKnows(o, PutAll(o, Empty(n, auto), ps[..m]), ps[m].key, ps[m].value, ps[i].key);
    if i < m { RefillKnows(o, n, auto, ps[..m], i); }
  }

  /** A key is known by an entry that is equal to it and in its bucket. */
  lemma KnownBy<K(!new), V>(o: Keying<K>, t: Table<K, V>, k: K) returns (g: int)
    requires Ranged(o) && Equivalence(o) && TableOk(o, t) && Knows(o, t, k)
    ensures 0 <= g < |Flatten(t.buckets)| && Hits(o, Flatten(t.buckets)[g].key, k, |t.buckets|)
  {
    FindExactly(o, t, k);
    var ps := Flatten(t.buckets);
    var p :| p in ps && Hits(o, p.key, k, |t.buckets|);
    g :| 0 <= g < |ps| && ps[g] == p;
  }

  lemma {:induction false} Pigeons(gs: seq<int>, n: nat)
    requires forall i :: 0 <= i < |gs| ==> 0 <= gs[i] < n
    requires forall i, j :: 0 <= i < j < |gs| ==> gs[i] != gs[j]
    ensures |gs| <= n
    decreases n
  {
    if gs != [] {
      assert 0 <= gs[0] < n;
      var rest := gs;
      if n - 1 in gs {
        var k :| 0 <= k < |gs| && gs[k] == n - 1;
        rest := gs[..k] + gs[k + 1..];
        assert forall i :: 0 <= i < |rest| ==> rest[i] == gs[if i < k then i else i + 1];
      }
      assert forall i :: 0 <= i < |gs| ==> gs[i] in gs;
      Pigeons(rest, n - 1);
    }
  }

  lemma {:induction false} Witnesses<K(!new), V>(o: Keying<K>, t: Table<K, V>, keys: seq<K>) returns (gs: seq<int>)
    requires Ranged(o) && Equivalence(o) && TableOk(o, t)
    requires forall i :: 0 <= i < |keys| ==> Knows(o, t, keys[i])
    ensures |gs| == |keys|
    ensures forall i :: 0 <= i < |gs| ==>
              0 <= gs[i] < |Flatten(t.buckets)| && Hits(o, Flatten(t.buckets)[gs[i]].key, keys[i], |t.buckets|)
    decreases |keys|
  {
    if keys == [] {
      gs := [];
    } else {
      var m := |keys| - 1;
      gs := Witnesses(o, t, keys[..m]);
      var g := KnownBy(o, t, keys[m]);
      gs := gs + [g];
    }
  }

  lemma MeetThrough<K(!new)>(o: Keying<K>, c: K, a: K, b: K, n: int)
    requires Equivalence(o)
    ensures Hits(o, c, a, n) && Hits(o, c, b, n) ==> Hits(o, a, b, n)
  {}

  /** Known keys that do not meet are known by different entries. */
  lemma KnownCount<K(!new), V>(o: Keying<K>, t: Table<K, V>, keys: seq<K>)
    requires Ranged(o) && Equivalence(o) && TableOk(o, t)
    requires forall i :: 0 <= i < |keys| ==> Knows(o, t, keys[i])
    requires forall i, j :: 0 <= i < j < |keys| ==> !Hits(o, keys[i], keys[j], |t.buckets|)
    ensures |keys| <= t.size
  {
    var gs := Witnesses(o, t, keys);
    forall i, j | 0 <= i < j < |gs| ensures gs[i] != gs[j] {
      MeetThrough(o, Flatten(t.buckets)[gs[i]].key, keys[i], keys[j], |t.buckets|);
    }
    Pigeons(gs, |Flatten(t.buckets)|);
  }

  // ---------------------------------------------------------------- putting unequal keys

  ghost function KeySet<K(!new)>(keys: seq<K>): iset<K> {
    iset k | k in keys
  }

  /** The table holds one entry for each of the keys and nothing else. */
  ghost predicate Stored<K(!new), V>(o: Keying<K>, t: Table<K, V>, keys: seq<K>)
    requires Ranged(o)
  {
    && TableOk(o, t) && t.autoAssign && t.size == |keys| && TableIn(t, KeySet(keys))
    && forall i :: 0 <= i < |keys| ==> Knows(o, t, keys[i])
  }

  /** Never overfull, and beyond the first size more than half full. */
  ghost predicate Grown<K, V>(t: Table<K, V>) {
    var n := |t.buckets|;
    TableSize(n) && t.size <= n && (n == INITIAL_SIZE || n / 2 < t.size)
  }

  lemma SameKey<K(!new)>(o: Keying<K>, keys: seq<K>, a: K, b: K)
    requires Equivalence(o) && Unequal(o, keys) && a in keys && b in keys && o.equal(a, b)
    ensures a == b
  {
    var i :| 0 <= i < |keys| && keys[i] == a;
    var j :| 0 <= j < |keys| && keys[j] == b;
    assert o.equal(keys[j], keys[i]);
  }

  /** Unequal keys never meet. */
  lemma StoredNoClash<K(!new), V>(o: Keying<K>, t: Table<K, V>, keys: seq<K>, n: int)
    requires Ranged(o) && Equivalence(o) && Unequal(o, keys) && TableOk(o, t) && TableIn(t, KeySet(keys))
    ensures NoClash(o, n, Flatten(t.buckets))
  {
    var ps := Flatten(t.buckets);
    TableNoClash(o, t);
    FlattenKeys(t.buckets, KeySet(keys));
    forall i, j | 0 <= i < j < |ps| ensures !Hits(o, ps[i].key, ps[j].key, n) {
      assert !Hits(o, ps[i].key, ps[j].key, |t.buckets|);
      if o.equal(ps[i].key, ps[j].key) { SameKey(o, keys, ps[i].key, ps[j].key); }
    }
  }

  lemma ResetStored<K(!new), V>(o: Keying<K>, t: Table<K, V>, keys: seq<K>, n: int)
    requires Ranged(o) && Equivalence(o) && Unequal(o, keys) && Stored(o, t, keys) && INITIAL_SIZE <= n
    ensures Stored(o, Reset(o, t, n), keys)
  {
    var ps := Flatten(t.buckets);
    StoredNoClash(o, t, keys, n);
    ResetKeeps(o, t, n);
    ResetTable(o, t, n);
    SameReset(o, o, KeySet(keys), AllSizes(), t, n);
    FlattenKeys(t.buckets, KeySet(keys));
    forall i | 0 <= i < |keys| ensures Knows(o, Reset(o, t, n), keys[i]) {
      var g := KnownBy(o, t, keys[i]);
      SameKey(o, keys, ps[g].key, keys[i]);
      RefillKnows(o, n, t.autoAssign, ps, g);
    }
  }

  lemma UnequalInit<K(!new)>(o: Keying<K>, keys: seq<K>, k: K)
    requires Unequal(o, keys + [k])
    ensures Unequal(o, keys) && forall c :: c in keys ==> !o.equal(c, k)
  {
    var all := keys + [k];
    assert forall i :: 0 <= i < |keys| ==> all[i] == keys[i];
    assert all[|keys|] == k;
    forall i, j | 0 <= i < j < |keys| ensures !o.equal(keys[i], keys[j]) { assert !o.equal(all[i], all[j]); }
    forall c | c in keys ensures !o.equal(c, k) {
      var i :| 0 <= i < |keys| && keys[i] == c;
      assert !o.equal(all[i], all[|keys|]);
    }
  }

  /** A key unequal to all stored ones becomes one more entry. */
  lemma PlainStored<K(!new), V>(o: Keying<K>, t: Table<K, V>, keys: seq<K>, k: K, v: V)
    requires Ranged(o) && Equivalence(o) && Unequal(o, keys + [k]) && Stored(o, t, keys)
    ensures InRange(o, t, k) && Stored(o, PutPlain(o, t, k, v), keys + [k])
  {
    UnequalInit(o, keys, k);
    FindExactly(o, t, k);
    FlattenKeys(t.buckets, KeySet(keys));
    forall p | p in Flatten(t.buckets) ensures !Hits(o, p.key, k, |t.buckets|) {
      var i :| 0 <= i < |Flatten(t.buckets)| && Flatten(t.buckets)[i] == p;
      assert p.key in keys;
    }
    PlainOk(o, t, k, v);
    var all := KeySet(keys + [k]);
    assert TableIn(t, all) by {
      forall h | 0 <= h < |t.buckets| ensures KeysIn(t.buckets[h], all) { assert KeysIn(t.buckets[h], KeySet(keys)); }
    }
    SamePut(o, o, all, AllSizes(), t, k, v);
    forall i | 0 <= i < |keys + [k]| ensures Knows(o, PutPlain(o, t, k, v), (keys + [k])[i]) {
      PutKnows(o, t, k, v, (keys + [k])[i]);
      assert i < |keys| ==> (keys + [k])[i] == keys[i];
    }
  }

  lemma DoubleSize(n: int)
    requires TableSize(n)
    ensures n >= INITIAL_SIZE && TableSize(2 * n)
  {
    var e: nat :| n == INITIAL_SIZE * Pow2(e);
    assert 2 * n == INITIAL_SIZE * Pow2(e + 1);
  }

  lemma PutStored<K(!new), V>(o: Keying<K>, t: Table<K, V>, keys: seq<K>, k: K, v: V)
    requires Ranged(o) && Equivalence(o) && Unequal(o, keys + [k]) && Stored(o, t, keys) && Grown(t)
    ensures Stored(o, Put(o, t, k, v), keys + [k]) && Grown(Put(o, t, k, v))
  {
    var n := |t.buckets|;
    DoubleSize(n);
    UnequalInit(o, keys, k);
    ResetStored(o, t, keys, 2 * n);
    var t' := if t.size >= n then Reset(o, t, 2 * n) else t;
    PlainStored(o, t', keys, k, v);
  }

  function Puts<K, V>(keys: seq<K>, v: V): seq<Command<K, V>> {
    seq(|keys|, i requires 0 <= i < |keys| => CmdPut(keys[i], v))
  }

  /** A new map stores unequal keys one by one, whatever the hash does. */
  lemma {:induction false} PutsStored<K(!new), V>(o: Keying<K>, keys: seq<K>, v: V)
    requires Ranged(o) && Equivalence(o) && Unequal(o, keys)
    ensures var t := TableRun(o, Empty<K, V>(INITIAL_SIZE, true), Puts(keys, v)).0;
            Stored(o, t, keys) && Grown(t)
    decreases |keys|
  {
    var e := Empty<K, V>(INITIAL_SIZE, true);
    if keys == [] {
      EmptyOk<K, V>(o, INITIAL_SIZE, true);
      FlattenEmpty(e.buckets);
      assert INITIAL_SIZE == INITIAL_SIZE * Pow2(0);
      assert Puts(keys, v) == [];
    } else {
      var m := |keys| - 1;
      assert keys == keys[..m] + [keys[m]];
      assert Puts(keys, v) == Puts(keys[..m], v) + [CmdPut(keys[m], v)];
      PutsStored(o, keys[..m], v);
      RunSnoc(o, e, Puts(keys[..m], v), CmdPut(keys[m], v));
      PutStored(o, TableRun(o, e, Puts(keys[..m], v)).0, keys[..m], keys[m], v);
    }
  }

  lemma {:induction false} Pow2Order(a: nat, b: nat)
    requires a < b
    ensures 2 * Pow2(a) <= Pow2(b)
    decreases b
  {
    if a < b - 1 { Pow2Order(a, b - 1); }
  }

  /** A grown table that holds 8 * 2^k entries has exactly as many buckets. */
  lemma FullTable<K, V>(t: Table<K, V>)
    requires Grown(t) && TableSize(t.size)
    ensures |t.buckets| == t.size
  {
    var m: nat :| |t.buckets| == INITIAL_SIZE * Pow2(m);
    var k: nat :| t.size == INITIAL_SIZE * Pow2(k);
    if m < k { Pow2Order(m, k); }
    if k < m { Pow2Order(k, m); }
  }
}
