/**
 * The use the URL parser makes of a map: a name that the map knows is answered by it, any other name is resolved and
 * then put.  When every name gets its own address.
 */
module HostAddresses {
  import opened Options
  import opened HashTable
  import opened HashTableLaws
  import opened HashTableAnyPair
  import opened HashTableSame
  import opened HashTableGrowth
  import opened HashTableOn
  import opened HashTableApart

  /** One URL's turn: the name of its host, and whether resolving it would succeed. */
  datatype Visit<+K> = Visit(name: K, resolves: bool)

  /** The map afterwards and the address the URL gets.  Without one it is dropped. */
  ghost function Look<K(!new), V>(o: Keying<K>, t: Table<K, V>, ip: K -> V, c: Visit<K>): (r: (Table<K, V>, Option<V>))
    requires Ranged(o) && 0 < |t.buckets|
    ensures 0 < |r.0.buckets|
  {
    if Find(o, t, c.name).Some? then (t, Find(o, t, c.name))
    else if c.resolves then (Put(o, t, c.name, ip(c.name)), Some(ip(c.name)))
    else (t, None)
  }

  ghost function LookAll<K(!new), V>(o: Keying<K>, t: Table<K, V>, ip: K -> V, cs: seq<Visit<K>>)
    : (r: (Table<K, V>, seq<Option<V>>))
    requires Ranged(o) && 0 < |t.buckets|
    ensures 0 < |r.0.buckets| && |r.1| == |cs|
    decreases |cs|
  {
    if cs == [] then (t, [])
    else
      var m := |cs| - 1;
      var (t', rs) := LookAll(o, t, ip, cs[..m]);
      var (t'', r) := Look(o, t', ip, cs[m]);
      (t'', rs + [r])
  }

  ghost predicate VisitsIn<K>(cs: seq<Visit<K>>, ks: iset<K>) {
    forall i :: 0 <= i < |cs| ==> cs[i].name in ks
  }

  /** The address is that of the name, and there is one unless the name cannot be resolved. */
  ghost predicate Right<K, V(!new)>(ip: K -> V, c: Visit<K>, r: Option<V>) {
    r == Some(ip(c.name)) || (r == None && !c.resolves)
  }

  ghost predicate AllRight<K, V(!new)>(ip: K -> V, cs: seq<Visit<K>>, rs: seq<Option<V>>) {
    |rs| == |cs| && forall i :: 0 <= i < |cs| ==> Right(ip, cs[i], rs[i])
  }

  /** Whatever the addresses are, in every sequence of turns each URL gets the address of its own host. */
  ghost predicate OwnAddresses<K(!new), V(!new)>(o: Keying<K>, ks: iset<K>, v: V)
    requires Ranged(o)
  {
    forall ip: K -> V, cs: seq<Visit<K>> | VisitsIn(cs, ks) ::
      AllRight(ip, cs, LookAll(o, Empty(INITIAL_SIZE, true), ip, cs).1)
  }

  /** The sizes the map can come to have with names of the set: 8, or a larger one of which more than half are there. */
  ghost predicate Reach<K(!new)>(o: Keying<K>, ks: iset<K>, n: int) {
    TableSize(n) && (n == INITIAL_SIZE || Holds(Exact(o), ks, n / 2 + 1))
  }

  ghost predicate NamesApart<K(!new)>(o: Keying<K>, ks: iset<K>) {
    forall n | Reach(o, ks, n) :: ApartAt(o, ks, n)
  }

  ghost function Reachable<K(!new)>(o: Keying<K>, ks: iset<K>): int -> bool {
    (n: int) => Reach(o, ks, n)
  }

  // ---------------------------------------------------------------- names apart get their own addresses

  /** The map holds names of the set with their own addresses only. */
  ghost predicate Faithful<K(!new), V(!new)>(o: Keying<K>, ks: iset<K>, ip: K -> V, t: Table<K, V>) {
    && Twin(o, ks, t) && t.autoAssign && Reach(o, ks, |t.buckets|)
    && forall k | k in Meaning(Exact(o), t) :: Meaning(Exact(o), t)[k] == ip(k)
  }

  lemma HalfReach<K(!new)>(o: Keying<K>, ks: iset<K>, n: int)
    requires Reach(o, ks, n)
    ensures n >= INITIAL_SIZE && (n / 2 < INITIAL_SIZE || Reach(o, ks, n / 2))
  {
    LeastSize(n);
    if n != INITIAL_SIZE {
      LargeSize(n);
      HoldsLess(Exact(o), ks, n / 2 + 1, n / 2 / 2 + 1);
    }
  }

  /** The keys of a full table and one that is not in it. */
  lemma OneMoreHolds<K(!new), V>(o: Keying<K>, ks: iset<K>, t: Table<K, V>, k: K)
    requires Twin(o, ks, t) && k in ks && t.size >= |t.buckets|
    requires InRange(o, t, k) && Find(Exact(o), t, k) == None
    ensures Holds(Exact(o), ks, |t.buckets| + 1)
  {
    var x, ps, n := Exact(o), Flatten(t.buckets), |t.buckets|;
    ExactLawful(o);
    SizeIsCardinality(x, t);
    FindFlat(x, t, k);
    FlattenKeys(t.buckets, ks);
    var keys := seq(n + 1, i requires 0 <= i < n + 1 => if i < n then ps[i].key else k);
    assert Unequal(x, keys);
    assert |keys| == n + 1 && forall i :: 0 <= i < n + 1 ==> keys[i] in ks;
  }

  lemma LookWithin<K(!new), V>(o: Keying<K>, ks: iset<K>, t: Table<K, V>, k: K)
    requires Twin(o, ks, t) && Reach(o, ks, |t.buckets|) && k in ks
    requires InRange(o, t, k) && Find(Exact(o), t, k) == None
    ensures Within(t, Reachable(o, ks)) && |t.buckets| >= INITIAL_SIZE
  {
    var n := |t.buckets|;
    HalfReach(o, ks, n);
    if t.size >= n {
      OneMoreHolds(o, ks, t, k);
      DoubleSize(n);
      assert 2 * n / 2 == n;
    }
  }

  lemma LookRight<K(!new), V(!new)>(o: Keying<K>, ks: iset<K>, ip: K -> V, t: Table<K, V>, c: Visit<K>)
    requires Faithful(o, ks, ip, t) && NamesApart(o, ks) && c.name in ks
    ensures Right(ip, c, Look(o, t, ip, c).1) && Faithful(o, ks, ip, Look(o, t, ip, c).0)
  {
    var x, k := Exact(o), c.name;
    ExactLawful(o);
    TwinRemove(o, ks, t, k);
    FindFlat(x, t, k);
    if Find(o, t, k) == None && c.resolves {
      LookWithin(o, ks, t, k);
      PutRight(o, ks, ip, t, k);
    }
  }

  lemma PutRight<K(!new), V(!new)>(o: Keying<K>, ks: iset<K>, ip: K -> V, t: Table<K, V>, k: K)
    requires Faithful(o, ks, ip, t) && NamesApart(o, ks) && k in ks
    requires Within(t, Reachable(o, ks)) && |t.buckets| >= INITIAL_SIZE
    ensures Faithful(o, ks, ip, Put(o, t, k, ip(k)))
  {
    var x, c := Exact(o), CmdPut(k, ip(k));
    ExactLawful(o);
    TwinStep(o, ks, t, c, Reachable(o, ks));
    StepSize(x, t, c, Reachable(o, ks));
    PutRefines(x, t, k, ip(k));
    PutOk(x, t, k, ip(k));
  }

  lemma NewFaithful<K(!new), V(!new)>(o: Keying<K>, ks: iset<K>, ip: K -> V)
    requires Ranged(o) && Equivalence(o) && NamesApart(o, ks)
    ensures Faithful(o, ks, ip, Empty<K, V>(INITIAL_SIZE, true))
  {
    FirstSize();
    NewTwin<K, V>(o, ks);
    FlattenEmpty(Empty<K, V>(INITIAL_SIZE, true).buckets);
  }

  lemma LookSnoc<K(!new), V>(o: Keying<K>, t: Table<K, V>, ip: K -> V, cs: seq<Visit<K>>, c: Visit<K>)
    requires Ranged(o) && 0 < |t.buckets|
    ensures var (t', rs) := LookAll(o, t, ip, cs);
            LookAll(o, t, ip, cs + [c]) == (Look(o, t', ip, c).0, rs + [Look(o, t', ip, c).1])
  {
    assert (cs + [c])[..|cs|] == cs;
  }

  lemma AllRightSnoc<K, V(!new)>(ip: K -> V, cs: seq<Visit<K>>, rs: seq<Option<V>>, c: Visit<K>, r: Option<V>)
    requires AllRight(ip, cs, rs) && Right(ip, c, r)
    ensures AllRight(ip, cs + [c], rs + [r])
  {}

  lemma {:induction false} LooksRight<K(!new), V(!new)>(o: Keying<K>, ks: iset<K>, ip: K -> V, cs: seq<Visit<K>>)
    requires Ranged(o) && Equivalence(o) && NamesApart(o, ks) && VisitsIn(cs, ks)
    ensures Faithful(o, ks, ip, LookAll(o, Empty(INITIAL_SIZE, true), ip, cs).0)
    ensures AllRight(ip, cs, LookAll(o, Empty(INITIAL_SIZE, true), ip, cs).1)
    decreases |cs|
  {
    if cs == [] {
      NewFaithful(o, ks, ip);
    } else {
      var c, most := cs[|cs| - 1], cs[..|cs| - 1];
      assert cs == most + [c];
      LooksRight(o, ks, ip, most);
      var e := Empty<K, V>(INITIAL_SIZE, true);
      var t := LookAll(o, e, ip, most).0;
      LookRight(o, ks, ip, t, c);
      LookSnoc(o, e, ip, most, c);
      AllRightSnoc(ip, most, LookAll(o, e, ip, most).1, c, Look(o, t, ip, c).1);
    }
  }

  // ---------------------------------------------------------------- names that meet do not

  function Names<K>(keys: seq<K>): seq<Visit<K>> {
    seq(|keys|, i requires 0 <= i < |keys| => Visit(keys[i], true))
  }

  lemma StoredMisses<K(!new), V>(o: Keying<K>, t: Table<K, V>, keys: seq<K>, k: K)
    requires Ranged(o) && Equivalence(o) && Stored(o, t, keys) && Unequal(o, keys + [k])
    ensures InRange(o, t, k) && Find(o, t, k) == None
  {
    UnequalInit(o, keys, k);
    FindExactly(o, t, k);
    FlattenKeys(t.buckets, KeySet(keys));
    forall p | p in Flatten(t.buckets) ensures !Hits(o, p.key, k, |t.buckets|) {
      var i :| 0 <= i < |Flatten(t.buckets)| && Flatten(t.buckets)[i] == p;
      assert p.key in keys;
    }
  }

  /** The names are in the map, one entry each, and it has come to a size that holds them. */
  ghost predicate AllIn<K(!new), V>(o: Keying<K>, ks: iset<K>, t: Table<K, V>, keys: seq<K>) {
    && Twin(o, ks, t) && Size(Exact(o), ks, |t.buckets|)
    && Stored(Exact(o), t, keys) && Grown(t)
  }

  lemma AllInStep<K(!new), V>(o: Keying<K>, ks: iset<K>, t: Table<K, V>, ip: K -> V, keys: seq<K>, k: K, n: int)
    requires AllIn(o, ks, t, keys) && Unequal(Exact(o), keys + [k]) && k in ks
    requires ApartBelow(o, ks, n) && INITIAL_SIZE < n && n % 2 == 0 && |keys| < n / 2
    ensures AllIn(o, ks, Look(o, t, ip, Visit(k, true)).0, keys + [k])
  {
    var x, c := Exact(o), CmdPut(k, ip(k));
    ExactLawful(o);
    StoredMisses(x, t, keys, k);
    TwinRemove(o, ks, t, k);
    PutsWithin(o, ks, t, keys, n);
    TwinStep(o, ks, t, c, SizesBelow(o, ks, n));
    StepOn(x, ks, t, c);
    PutStored(x, t, keys, k, ip(k));
  }

  lemma NewAllIn<K(!new), V>(o: Keying<K>, ks: iset<K>)
    requires Ranged(o) && Equivalence(o) && ApartAt(o, ks, INITIAL_SIZE)
    ensures AllIn(o, ks, Empty<K, V>(INITIAL_SIZE, true), [])
  {
    FirstSize();
    NewTwin<K, V>(o, ks);
    FlattenEmpty(Empty<K, V>(INITIAL_SIZE, true).buckets);
  }

  lemma {:induction false} LookStored<K(!new), V>(o: Keying<K>, ks: iset<K>, ip: K -> V, keys: seq<K>, n: int)
    requires Ranged(o) && Equivalence(o) && ApartBelow(o, ks, n) && INITIAL_SIZE < n && n % 2 == 0
    requires Unequal(Exact(o), keys) && |keys| <= n / 2 && forall k :: k in keys ==> k in ks
    ensures AllIn(o, ks, LookAll(o, Empty(INITIAL_SIZE, true), ip, Names(keys)).0, keys)
    decreases |keys|
  {
    FirstSize();
    if keys == [] {
      NewAllIn<K, V>(o, ks);
      assert Names(keys) == [];
    } else {
      var e: Table<K, V>, m := Empty(INITIAL_SIZE, true), |keys| - 1;
      assert keys == keys[..m] + [keys[m]];
      assert Names(keys) == Names(keys[..m]) + [Visit(keys[m], true)];
      LookStored(o, ks, ip, keys[..m], n);
      LookSnoc(o, e, ip, Names(keys[..m]), Visit(keys[m], true));
      AllInStep(o, ks, LookAll(o, e, ip, Names(keys[..m])).0, ip, keys[..m], keys[m], n);
    }
  }

  /** One name more than the map has room for. */
  lemma LookGrows<K(!new), V>(o: Keying<K>, ks: iset<K>, t: Table<K, V>, ip: K -> V, keys: seq<K>, k: K, n: int)
    requires AllIn(o, ks, t, keys) && Unequal(Exact(o), keys + [k]) && k in ks
    requires TableSize(n) && n != INITIAL_SIZE && |keys| == n / 2
    ensures Roomy(o, Look(o, t, ip, Visit(k, true)).0, n)
  {
    ExactLawful(o);
    StoredMisses(Exact(o), t, keys, k);
    TwinRemove(o, ks, t, k);
    LargeSize(n);
    FullTable(t);
    TwinIsOk(o, ks, t);
    PutAtFull(o, t, k, ip(k));
  }

  lemma LookLarge<K(!new), V>(o: Keying<K>, ks: iset<K>, ip: K -> V, most: seq<K>, last: K, n: int)
    requires Ranged(o) && Equivalence(o) && TableSize(n) && n != INITIAL_SIZE && ApartBelow(o, ks, n)
    requires Unequal(Exact(o), most + [last]) && |most| == n / 2 && last in ks && forall k :: k in most ==> k in ks
    ensures Roomy(o, LookAll(o, Empty<K, V>(INITIAL_SIZE, true), ip, Names(most) + [Visit(last, true)]).0, n)
  {
    var e := Empty<K, V>(INITIAL_SIZE, true);
    LargeSize(n);
    UnequalInit(Exact(o), most, last);
    LookStored(o, ks, ip, most, n);
    LookSnoc(o, e, ip, Names(most), Visit(last, true));
    LookGrows(o, ks, LookAll(o, e, ip, Names(most)).0, ip, most, last, n);
  }

  lemma LookReach<K(!new), V>(o: Keying<K>, ks: iset<K>, ip: K -> V, n: int) returns (cs: seq<Visit<K>>)
    requires Ranged(o) && Equivalence(o) && Reach(o, ks, n) && ApartBelow(o, ks, n)
    ensures VisitsIn(cs, ks) && Roomy(o, LookAll(o, Empty<K, V>(INITIAL_SIZE, true), ip, cs).0, n)
  {
    if n == INITIAL_SIZE {
      cs := [];
      EmptyOk<K, V>(o, INITIAL_SIZE, true);
      FlattenEmpty(Empty<K, V>(INITIAL_SIZE, true).buckets);
    } else {
      var keys := DifferentKeys(o, ks, n / 2 + 1);
      var most, last := keys[..n / 2], keys[n / 2];
      assert keys == most + [last];
      LookLarge(o, ks, ip, most, last, n);
      cs := Names(most) + [Visit(last, true)];
    }
  }

  /** Of two names that meet, the second gets the address the first one got. */
  lemma SameAnswer<K(!new), V>(o: Keying<K>, t: Table<K, V>, ip: K -> V, a: K, b: K)
    requires Ranged(o) && Equivalence(o) && Roomy(o, t, |t.buckets|) && Hits(o, a, b, |t.buckets|)
    ensures var (t', r) := Look(o, t, ip, Visit(a, true)); Look(o, t', ip, Visit(b, true)).1 == r && r.Some?
  {
    var h := o.hash(a, |t.buckets|);
    if Find(o, t, a) == None {
      PlainOk(o, t, a, ip(a));
      PutLookup(o, t.buckets[h], a, ip(a), b);
    } else {
      FindExactly(o, t, a);
      FindExactly(o, t, b);
      var i := Index(o, t.buckets[h], a);
      LookupAt(o, t.buckets[h], i, b);
    }
  }

  lemma OneIsWrong<K(!new), V(!new)>(o: Keying<K>, ip: K -> V, cs: seq<Visit<K>>, n: int, a: K, b: K)
    requires Ranged(o) && Equivalence(o) && Hits(o, a, b, n) && ip(a) != ip(b)
    requires Roomy(o, LookAll(o, Empty(INITIAL_SIZE, true), ip, cs).0, n)
    ensures var ds := cs + [Visit(a, true)] + [Visit(b, true)];
            !AllRight(ip, ds, LookAll(o, Empty(INITIAL_SIZE, true), ip, ds).1)
  {
    var e, c1, m := Empty<K, V>(INITIAL_SIZE, true), cs + [Visit(a, true)], |cs|;
    var ds := c1 + [Visit(b, true)];
    LookSnoc(o, e, ip, cs, Visit(a, true));
    LookSnoc(o, e, ip, c1, Visit(b, true));
    SameAnswer(o, LookAll(o, e, ip, cs).0, ip, a, b);
    var rs := LookAll(o, e, ip, ds).1;
    assert ds[m] == Visit(a, true) && ds[m + 1] == Visit(b, true);
    assert rs[m] == rs[m + 1];
    assert !Right(ip, ds[m], rs[m]) || !Right(ip, ds[m + 1], rs[m + 1]);
  }

  /** Below the first reachable size at which names meet, none meet at all. */
  lemma FirstMeeting<K(!new)>(o: Keying<K>, ks: iset<K>, n: int)
    requires Reach(o, ks, n) && forall m | Reach(o, ks, m) && m < n :: ApartAt(o, ks, m)
    ensures ApartBelow(o, ks, n)
  {
    forall m | Size(Exact(o), ks, m) && m < n ensures ApartAt(o, ks, m) {
      LeastSize(m);
      var i: nat :| m == INITIAL_SIZE * Pow2(i);
      var j: nat :| n == INITIAL_SIZE * Pow2(j);
      if j < i { Pow2Order(j, i); }
      Pow2Order(i, j);
      HoldsLess(Exact(o), ks, n / 2 + 1, m / 2 + 1);
      assert Reach(o, ks, m);
    }
  }

  lemma {:induction false} WrongAddress<K(!new), V(!new)>(o: Keying<K>, ks: iset<K>, n: int, v: V, w: V)
    returns (ip: K -> V, cs: seq<Visit<K>>)
    requires Ranged(o) && Equivalence(o) && v != w && Reach(o, ks, n) && !ApartAt(o, ks, n)
    ensures VisitsIn(cs, ks) && !AllRight(ip, cs, LookAll(o, Empty(INITIAL_SIZE, true), ip, cs).1)
    decreases n
  {
    LeastSize(n);
    if forall m | Reach(o, ks, m) && m < n :: ApartAt(o, ks, m) {
      FirstMeeting(o, ks, n);
      var a, b :| a in ks && b in ks && a != b && Hits(o, a, b, n);
      ip := k => if k == a then v else w;
      cs := LookReach(o, ks, ip, n);
      OneIsWrong(o, ip, cs, n, a, b);
      cs := cs + [Visit(a, true)] + [Visit(b, true)];
    } else {
      var m :| Reach(o, ks, m) && m < n && !ApartAt(o, ks, m);
      LeastSize(m);
      ip, cs := WrongAddress(o, ks, m, v, w);
    }
  }

  /** Every URL gets its own host's address exactly when no two names meet at a size that the map can come to have. */
  lemma OwnAddressesExactly<K(!new), V(!new)>(o: Keying<K>, ks: iset<K>, v: V, w: V)
    requires Ranged(o) && Equivalence(o) && v != w
    ensures OwnAddresses(o, ks, v) <==> NamesApart(o, ks)
  {
    if NamesApart(o, ks) {
      forall ip: K -> V, cs: seq<Visit<K>> | VisitsIn(cs, ks)
        ensures AllRight(ip, cs, LookAll(o, Empty(INITIAL_SIZE, true), ip, cs).1)
      {
        LooksRight(o, ks, ip, cs);
      }
    } else {
      var n :| Reach(o, ks, n) && !ApartAt(o, ks, n);
      var ip, cs := WrongAddress(o, ks, n, v, w);
    }
  }
}
