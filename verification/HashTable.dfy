/**
 * The value-level specification of the chained hash map: what a bucket array with its
 * chains means, and what put, remove and the rehash do to it.  The class in HashMap.dfy
 * is proved to follow these functions step by step on the heap.
 */
module HashTable {
  import opened Options

  datatype Pair<+K, +V> = Pair(key: K, value: V)

  /** A bucket, in link order: the inline head first, then its overflow chain. */
  type Bucket<+K, +V> = seq<Pair<K, V>>

  datatype Table<+K, +V> = Table(buckets: seq<Bucket<K, V>>, size: int, autoAssign: bool)

  /** The two function pointers a map is created with. */
  datatype Keying<!K> = Keying(hash: (K, int) -> int, equal: (K, K) -> bool)

  const INITIAL_SIZE := 8

  /** Hashes are bucket numbers.  This much every map needs. */
  ghost predicate Ranged<K(!new)>(o: Keying<K>) {
    forall k, n :: 0 < n ==> 0 <= o.hash(k, n) < n
  }

  ghost predicate Equivalence<K(!new)>(o: Keying<K>) {
    && (forall a :: o.equal(a, a))
    && (forall a, b :: o.equal(a, b) ==> o.equal(b, a))
    && (forall a, b, c :: o.equal(a, b) && o.equal(b, c) ==> o.equal(a, c))
  }

  /** `equal` is an equivalence, and equal keys name the same bucket at every table size. */
  ghost predicate Lawful<K(!new)>(o: Keying<K>) {
    && Ranged(o) && Equivalence(o)
    && (forall a, b, n :: o.equal(a, b) && 0 < n ==> o.hash(a, n) == o.hash(b, n))
  }

  // ---------------------------------------------------------------- buckets

  /** Position of the entry for `k`, or the length of the chain when there is none. */
  function Index<K, V>(o: Keying<K>, b: Bucket<K, V>, k: K): (i: nat)
    ensures i <= |b|
    ensures i < |b| ==> o.equal(b[i].key, k)
    ensures forall j :: 0 <= j < i ==> !o.equal(b[j].key, k)
  {
    if b == [] then 0
    else if o.equal(b[0].key, k) then 0
    else 1 + Index(o, b[1..], k)
  }

  function Lookup<K, V>(o: Keying<K>, b: Bucket<K, V>, k: K): Option<V> {
    var i := Index(o, b, k);
    if i < |b| then Some(b[i].value) else None
  }

  /** A new entry is linked directly behind the inline head. */
  function Insert<K, V>(b: Bucket<K, V>, p: Pair<K, V>): Bucket<K, V> {
    if b == [] then [p] else [b[0], p] + b[1..]
  }

  /** An entry that exists keeps its key and its place and gets the new value. */
  function BucketPut<K, V>(o: Keying<K>, b: Bucket<K, V>, k: K, v: V): Bucket<K, V> {
    var i := Index(o, b, k);
    if i < |b| then b[i := Pair(b[i].key, v)] else Insert(b, Pair(k, v))
  }

  function BucketRemove<K, V>(o: Keying<K>, b: Bucket<K, V>, k: K): Bucket<K, V> {
    var i := Index(o, b, k);
    if i < |b| then b[..i] + b[i + 1..] else b
  }

  // ---------------------------------------------------------------- tables

  /** All entries in iteration order: bucket by bucket, each in link order. */
  function Flatten<K, V>(bs: seq<Bucket<K, V>>): seq<Pair<K, V>> {
    if bs == [] then [] else Flatten(bs[..|bs| - 1]) + bs[|bs| - 1]
  }

  function Empty<K, V>(n: nat, autoAssign: bool): Table<K, V> {
    Table(seq(n, _ => []), 0, autoAssign)
  }

  function Find<K, V>(o: Keying<K>, t: Table<K, V>, k: K): Option<V>
    requires InRange(o, t, k)
  {
    Lookup(o, t.buckets[o.hash(k, |t.buckets|)], k)
  }

  predicate InRange<K, V>(o: Keying<K>, t: Table<K, V>, k: K) {
    0 <= o.hash(k, |t.buckets|) < |t.buckets|
  }

  /** Put without the growth test. */
  function PutPlain<K, V>(o: Keying<K>, t: Table<K, V>, k: K, v: V): Table<K, V>
    requires InRange(o, t, k)
  {
    var h := o.hash(k, |t.buckets|);
    var b := BucketPut(o, t.buckets[h], k, v);
    Table(t.buckets[h := b], t.size + |b| - |t.buckets[h]|, t.autoAssign)
  }

  ghost function PutAll<K(!new), V>(o: Keying<K>, t: Table<K, V>, ps: seq<Pair<K, V>>): (r: Table<K, V>)
    requires Ranged(o) && 0 < |t.buckets|
    ensures |r.buckets| == |t.buckets| && r.autoAssign == t.autoAssign
  {
    if ps == [] then t
    else
      var r := PutAll(o, t, ps[..|ps| - 1]);
      PutPlain(o, r, ps[|ps| - 1].key, ps[|ps| - 1].value)
  }

  /** The rehash: read everything out in iteration order, put it back into n empty buckets. */
  ghost function Reset<K(!new), V>(o: Keying<K>, t: Table<K, V>, n: int): (r: Table<K, V>)
    requires Ranged(o)
  {
    if n < INITIAL_SIZE then t else PutAll(o, Empty(n, t.autoAssign), Flatten(t.buckets))
  }

  ghost function Put<K(!new), V>(o: Keying<K>, t: Table<K, V>, k: K, v: V): Table<K, V>
    requires Ranged(o) && 0 < |t.buckets|
  {
    var n := |t.buckets|;
    var t' := if t.autoAssign && t.size >= n then Reset(o, t, 2 * n) else t;
    PutPlain(o, t', k, v)
  }

  function RemovePlain<K, V>(o: Keying<K>, t: Table<K, V>, k: K): Table<K, V>
    requires InRange(o, t, k)
  {
    var h := o.hash(k, |t.buckets|);
    var b := BucketRemove(o, t.buckets[h], k);
    Table(t.buckets[h := b], t.size + |b| - |t.buckets[h]|, t.autoAssign)
  }

  ghost function Remove<K(!new), V>(o: Keying<K>, t: Table<K, V>, k: K): Table<K, V>
    requires Ranged(o) && 0 < |t.buckets|
  {
    var t' := RemovePlain(o, t, k);
    var n := |t.buckets|;
    if Find(o, t, k).Some? && t.autoAssign && t'.size < n / 2 then Reset(o, t', n / 2) else t'
  }

  // ---------------------------------------------------------------- representation invariant

  ghost predicate Distinct<K, V>(o: Keying<K>, ps: seq<Pair<K, V>>) {
    forall i, j :: 0 <= i < j < |ps| ==> !o.equal(ps[i].key, ps[j].key)
  }

  /** Every key of bucket i hashes to i. */
  ghost predicate Homed<K, V>(o: Keying<K>, b: Bucket<K, V>, i: int, n: int) {
    forall j :: 0 <= j < |b| ==> o.hash(b[j].key, n) == i
  }

  ghost predicate TableOk<K, V>(o: Keying<K>, t: Table<K, V>) {
    && 0 < |t.buckets|
    && t.size == |Flatten(t.buckets)|
    && (forall i :: 0 <= i < |t.buckets| ==> Homed(o, t.buckets[i], i, |t.buckets|))
    && (forall i :: 0 <= i < |t.buckets| ==> Distinct(o, t.buckets[i]))
  }

  /** What holds between any two calls, whatever the pair: with automatic sizing the table is never overfull. */
  ghost predicate Fit<K, V>(t: Table<K, V>) {
    && t.size == |Flatten(t.buckets)|
    && INITIAL_SIZE <= |t.buckets|
    && (t.autoAssign ==> t.size <= |t.buckets|)
  }

  function Pow2(k: nat): (p: nat)
    ensures p >= 1
  {
    if k == 0 then 1 else 2 * Pow2(k - 1)
  }

  /** The numbers of buckets a map can come to have. */
  ghost predicate TableSize(n: int) {
    exists k: nat :: n == INITIAL_SIZE * Pow2(k)
  }

  /** The load bounds: 8 * 2^k buckets, at least half full unless at the minimum, never overfull. */
  ghost predicate LoadOk<K, V>(t: Table<K, V>) {
    var n := |t.buckets|;
    && TableSize(n)
    && (n == INITIAL_SIZE || n / 2 <= t.size)
    && t.size <= n
  }

  // ---------------------------------------------------------------- meaning

  /** The finite map modulo `equal`, keyed by every key that is equal to a stored one. */
  ghost function Meaning<K(!new), V>(o: Keying<K>, t: Table<K, V>): imap<K, V> {
    var ps := Flatten(t.buckets);
    imap q: K | Lookup(o, ps, q).Some? :: Lookup(o, ps, q).value
  }

  ghost function MapPut<K(!new), V>(o: Keying<K>, m: imap<K, V>, k: K, v: V): imap<K, V> {
    imap q: K | o.equal(k, q) || q in m :: if o.equal(k, q) then v else m[q]
  }

  ghost function MapRemove<K(!new), V>(o: Keying<K>, m: imap<K, V>, k: K): imap<K, V> {
    imap q: K | q in m && !o.equal(k, q) :: m[q]
  }

  ghost function MapGet<K, V>(m: imap<K, V>, k: K): Option<V> {
    if k in m then Some(m[k]) else None
  }
}
