/** How a map whose pair is not lawful loses an entry: two equal keys part when it grows and meet when it shrinks. */
module HashTableLoss {
  import opened Options
  import opened HashTable
  import opened HashTableLaws
  import opened HashTableAnyPair
  import opened HashTableSame
  import opened HashTableGrowth

  lemma RemoveKnows<K(!new), V>(o: Keying<K>, t: Table<K, V>, k: K, q: K)
    requires Ranged(o) && Equivalence(o) && 0 < |t.buckets| && !o.equal(k, q) && Knows(o, t, q)
    ensures InRange(o, t, k) && Knows(o, RemovePlain(o, t, k), q)
  {
    var b := t.buckets[o.hash(k, |t.buckets|)];
    var i, j := Index(o, b, k), Index(o, b, q);
    if i < |b| && j < |b| { IndexFinds(o, BucketRemove(o, b, k), q, if j < i then j else j - 1); }
  }

  /** The table knows unequal keys, a among them, and an equal key b in another bucket, and has no others. */
  ghost predicate Both<K(!new), V>(o: Keying<K>, t: Table<K, V>, keys: seq<K>, all: seq<K>, a: K, b: K)
    requires Ranged(o)
  {
    && TableOk(o, t) && t.autoAssign && |t.buckets| == 16 && TableIn(t, KeySet(all + [a, b]))
    && Knows(o, t, a) && Knows(o, t, b)
    && forall i :: 0 <= i < |keys| ==> Knows(o, t, keys[i])
  }

  /** All the keys of the run, a unequal to the others, b equal to a but apart from it in 16 buckets, not in 8. */
  ghost predicate Setting<K(!new)>(o: Keying<K>, all: seq<K>, a: K, b: K) {
    && Ranged(o) && Equivalence(o) && |all| == 8 && Unequal(o, all + [a])
    && o.equal(a, b) && o.hash(a, 16) != o.hash(b, 16) && o.hash(a, 8) == o.hash(b, 8)
  }

  lemma Others<K(!new)>(o: Keying<K>, all: seq<K>, a: K, b: K)
    requires Setting(o, all, a, b)
    ensures Unequal(o, all) && forall c :: c in all ==> !o.equal(c, a) && !o.equal(c, b)
  {
    UnequalInit(o, all, a);
    assert o.equal(b, a);
  }

  lemma AfterPuts<K(!new), V>(o: Keying<K>, all: seq<K>, a: K, b: K, v: V)
    requires Setting(o, all, a, b)
    ensures var t := TableRun(o, Empty<K, V>(INITIAL_SIZE, true), Puts(all + [a], v)).0;
            t.size == 9 && |t.buckets| == 16 && Stored(o, t, all + [a])
  {
    PutsStored(o, all + [a], v);
    var t := TableRun(o, Empty<K, V>(INITIAL_SIZE, true), Puts(all + [a], v)).0;
    var m: nat :| |t.buckets| == INITIAL_SIZE * Pow2(m);
    if m > 1 { Pow2Order(1, m); }
    assert m == 1;
  }

  lemma AfterSecond<K(!new), V>(o: Keying<K>, t: Table<K, V>, all: seq<K>, a: K, b: K, v: V)
    requires Setting(o, all, a, b) && t.size == 9 && |t.buckets| == 16 && Stored(o, t, all + [a])
    ensures var r := Put(o, t, b, v); r.size == 10 && Both(o, r, all, all, a, b)
  {
    var keys := all + [a];
    Others(o, all, a, b);
    assert keys[|all|] == a;
    assert Knows(o, t, keys[|all|]);
    FlattenKeys(t.buckets, KeySet(keys));
    forall p | p in Flatten(t.buckets) ensures !Hits(o, p.key, b, 16) {
      var i :| 0 <= i < |Flatten(t.buckets)| && Flatten(t.buckets)[i] == p;
      assert p.key in all || p.key == a;
    }
    FindExactly(o, t, b);
    PlainOk(o, t, b, v);
    var more := KeySet(all + [a, b]);
    forall h | 0 <= h < |t.buckets| ensures KeysIn(t.buckets[h], more) { assert KeysIn(t.buckets[h], KeySet(keys)); }
    SamePut(o, o, more, AllSizes(), t, b, v);
    PutKnows(o, t, b, v, a);
    forall i | 0 <= i < |all| ensures Knows(o, Put(o, t, b, v), all[i]) {
      assert keys[i] == all[i];
      PutKnows(o, t, b, v, all[i]);
    }
  }

  /** Taking one of the other keys out leaves the rest. */
  lemma AfterRemoval<K(!new), V>(o: Keying<K>, t: Table<K, V>, keys: seq<K>, all: seq<K>, a: K, b: K)
    requires Setting(o, all, a, b) && keys != [] && Both(o, t, keys, all, a, b) && Unequal(o, keys)
    requires forall k :: k in keys ==> k in all
    ensures var r := RemovePlain(o, t, keys[0]); r.size == t.size - 1 && Both(o, r, keys[1..], all, a, b)
  {
    Others(o, all, a, b);
    var k := keys[0];
    RemovePlainOk(o, t, k);
    SameRemove(o, o, KeySet(all + [a, b]), AllSizes(), t, k);
    RemoveKnows(o, t, k, a);
    RemoveKnows(o, t, k, b);
    forall i | 0 <= i < |keys[1..]| ensures Knows(o, RemovePlain(o, t, k), keys[1..][i]) {
      assert !o.equal(keys[0], keys[i + 1]);
      RemoveKnows(o, t, k, keys[i + 1]);
    }
  }

  /** The entry that knows one of the keys has that very key. */
  lemma OwnEntry<K(!new), V>(o: Keying<K>, t: Table<K, V>, keys: seq<K>, all: seq<K>, a: K, b: K, k: K) returns (g: int)
    requires Setting(o, all, a, b) && Both(o, t, keys, all, a, b) && Knows(o, t, k) && k in all + [a, b]
    ensures 0 <= g < |Flatten(t.buckets)| && Flatten(t.buckets)[g].key == k
  {
    Others(o, all, a, b);
    FlattenKeys(t.buckets, KeySet(all + [a, b]));
    g := KnownBy(o, t, k);
    var c := Flatten(t.buckets)[g].key;
    assert c in all || c == a || c == b;
    if c in all && k in all { SameKey(o, all, c, k); }
  }

  /** The rehash into 8 buckets merges a and b and keeps the others. */
  lemma AfterShrink<K(!new), V>(o: Keying<K>, t: Table<K, V>, keys: seq<K>, all: seq<K>, a: K, b: K)
    requires Setting(o, all, a, b) && Both(o, t, keys, all, a, b) && Unequal(o, keys + [a])
    requires (forall k :: k in keys ==> k in all) && t.size == |keys| + 2
    ensures Reset(o, t, 8).size == |keys| + 1
  {
    var ps, r := Flatten(t.buckets), Reset(o, t, 8);
    var g := OwnEntry(o, t, keys, all, a, b, a);
    var h := OwnEntry(o, t, keys, all, a, b, b);
    assert Hits(o, a, b, 8) && Hits(o, b, a, 8);
    assert !NoClash(o, 8, ps);
    RefillKeeps(o, 8, true, ps);
    ResetTable(o, t, 8);
    var rest := keys + [a];
    forall i | 0 <= i < |rest| ensures Knows(o, r, rest[i]) {
      assert rest[i] in keys || rest[i] == a;
      assert rest[i] in keys ==> Knows(o, t, rest[i]) by {
        if i < |keys| { assert Knows(o, t, keys[i]); }
      }
      var j := OwnEntry(o, t, keys, all, a, b, rest[i]);
      RefillKnows(o, 8, true, ps, j);
    }
    KnownCount(o, r, rest);
  }

  /** A removal that leaves at least half of 16 buckets full does not shrink; one that leaves seven entries does. */
  lemma RemoveStep<K(!new), V>(o: Keying<K>, t: Table<K, V>, keys: seq<K>, all: seq<K>, a: K, b: K)
    requires Setting(o, all, a, b) && keys != [] && Both(o, t, keys, all, a, b) && Unequal(o, keys)
    requires (forall k :: k in keys ==> k in all) && t.size > 7
    ensures var r := Remove(o, t, keys[0]);
            if t.size > 8 then r.size == t.size - 1 && Both(o, r, keys[1..], all, a, b)
            else r == Reset(o, RemovePlain(o, t, keys[0]), 8)
  {
    assert Knows(o, t, keys[0]);
    AfterRemoval(o, t, keys, all, a, b);
    RemoveCases(o, t, keys[0]);
  }

  lemma RemoveCases<K(!new), V>(o: Keying<K>, t: Table<K, V>, k: K)
    requires Ranged(o) && |t.buckets| == 16 && t.autoAssign && Knows(o, t, k)
    ensures var r := RemovePlain(o, t, k); Remove(o, t, k) == if r.size < 8 then Reset(o, r, 8) else r
  {}

  lemma UnequalTail<K(!new)>(o: Keying<K>, keys: seq<K>, k: nat)
    requires Unequal(o, keys) && k <= |keys|
    ensures Unequal(o, keys[k..])
  {}

  /** Eight other keys, a, b, then three of the others out: the third removal takes two entries off. */
  lemma RunLoses<K(!new), V>(o: Keying<K>, all: seq<K>, a: K, b: K, v: V, w: V)
    requires Setting(o, all, a, b)
    ensures var t0 := Empty<K, V>(INITIAL_SIZE, true);
            var cs := Puts(all + [a], v) + [CmdPut(b, w)] + [CmdRemove(all[0])] + [CmdRemove(all[1])];
            TableRun(o, t0, cs).0.size == 8 && TableRun(o, t0, cs + [CmdRemove(all[2])]).0.size == 6
  {
    var t0 := Empty<K, V>(INITIAL_SIZE, true);
    var c1 := Puts(all + [a], v);
    AfterPuts(o, all, a, b, v);
    StepsLose(o, TableRun(o, t0, c1).0, all, a, b, w);
    RunStates(o, t0, c1, b, w, all[0], all[1], all[2]);
  }

  lemma StepsLose<K(!new), V>(o: Keying<K>, t1: Table<K, V>, all: seq<K>, a: K, b: K, w: V)
    requires Setting(o, all, a, b) && t1.size == 9 && |t1.buckets| == 16 && Stored(o, t1, all + [a])
    ensures var t := TableStep(o, TableStep(o, TableStep(o, t1, CmdPut(b, w)).0, CmdRemove(all[0])).0,
                               CmdRemove(all[1])).0;
            t.size == 8 && TableStep(o, t, CmdRemove(all[2])).0.size == 6
  {
    AfterSecond(o, t1, all, a, b, w);
    var t2 := Put(o, t1, b, w);
    ThreeRemovals(o, t2, all, a, b);
    var t3 := Remove(o, t2, all[0]);
    StepsAre(o, t1, CmdPut(b, w), t2);
    StepsAre(o, t2, CmdRemove(all[0]), t3);
    StepsAre(o, t3, CmdRemove(all[1]), Remove(o, t3, all[1]));
    StepsAre(o, Remove(o, t3, all[1]), CmdRemove(all[2]), Remove(o, Remove(o, t3, all[1]), all[2]));
  }

  lemma StepsAre<K(!new), V>(o: Keying<K>, t: Table<K, V>, c: Command<K, V>, r: Table<K, V>)
    requires Ranged(o) && 0 < |t.buckets|
    requires match c case CmdPut(k, v) => r == Put(o, t, k, v) case CmdRemove(k) => r == Remove(o, t, k) case _ => false
    ensures TableStep(o, t, c).0 == r && 0 < |r.buckets|
  {}

  lemma RunStates<K(!new), V>(o: Keying<K>, t0: Table<K, V>, cs: seq<Command<K, V>>, b: K, w: V, x: K, y: K, z: K)
    requires Ranged(o) && 0 < |t0.buckets|
    ensures var t1, ds := TableRun(o, t0, cs).0, cs + [CmdPut(b, w)] + [CmdRemove(x)] + [CmdRemove(y)];
            var t2 := TableStep(o, TableStep(o, TableStep(o, t1, CmdPut(b, w)).0, CmdRemove(x)).0, CmdRemove(y)).0;
            TableRun(o, t0, ds).0 == t2 && TableRun(o, t0, ds + [CmdRemove(z)]).0 == TableStep(o, t2, CmdRemove(z)).0
  {
    RunSnoc(o, t0, cs, CmdPut(b, w));
    RunSnoc(o, t0, cs + [CmdPut(b, w)], CmdRemove(x));
    RunSnoc(o, t0, cs + [CmdPut(b, w)] + [CmdRemove(x)], CmdRemove(y));
    RunSnoc(o, t0, cs + [CmdPut(b, w)] + [CmdRemove(x)] + [CmdRemove(y)], CmdRemove(z));
  }

  lemma ThreeRemovals<K(!new), V>(o: Keying<K>, t: Table<K, V>, all: seq<K>, a: K, b: K)
    requires Setting(o, all, a, b) && t.size == 10 && Both(o, t, all, all, a, b)
    ensures var r := Remove(o, Remove(o, t, all[0]), all[1]);
            0 < |r.buckets| && r.size == 8 && Remove(o, r, all[2]).size == 6
  {
    Others(o, all, a, b);
    UnequalTail(o, all, 1);
    UnequalTail(o, all, 2);
    UnequalTail(o, all + [a], 3);
    assert (all + [a])[3..] == all[3..] + [a];
    assert all[1..][1..] == all[2..] && all[2..][1..] == all[3..];
    RemoveStep(o, t, all, all, a, b);
    var t1 := Remove(o, t, all[0]);
    RemoveStep(o, t1, all[1..], all, a, b);
    var t2 := Remove(o, t1, all[1]);
    RemoveStep(o, t2, all[2..], all, a, b);
    AfterRemoval(o, t2, all[2..], all, a, b);
    AfterShrink(o, RemovePlain(o, t2, all[2]), all[3..], all, a, b);
  }
}
