/** The chained hash map itself: an array of heads, overflow entries linked behind them. */
module HashMap {
  import opened Options
  import opened HashTable
  import opened HashEntries
  import opened HashChains
  import Laws = HashTableLaws
  import Any = HashTableAnyPair

  class HashMap<K(!new), V> {
    const keying: Keying<K>
    var size: int
    var listSize: int
    var list: array<Entry<K, V>>
    var autoAssign: bool

    ghost var chains: seq<seq<Entry<K, V>>>
    ghost var buckets: seq<Bucket<K, V>>
    ghost var nodes: set<object>

    /** The heap shape alone: heads, chains and fields spell `Contents()`. */
    ghost predicate Shaped()
      reads this, nodes
    {
      && this !in nodes
      && listSize == |buckets|
      && Linked(list, chains, buckets, nodes)
    }

    ghost predicate Valid()
      reads this, nodes
    {
      && Shaped()
      && Ranged(keying) && Equivalence(keying)
      && Fit(Contents())
    }

    ghost function Contents(): Table<K, V>
      reads this
    {
      Table(buckets, size, autoAssign)
    }

    constructor (keying: Keying<K>)
      requires Ranged(keying) && Equivalence(keying)
      ensures Valid() && fresh(nodes)
      ensures this.keying == keying && Contents() == Empty(8, true)
    {
      this.keying := keying;
      size, listSize, autoAssign := 0, INITIAL_SIZE, true;
      buckets := Empty<K, V>(INITIAL_SIZE, true).buckets;
      var heads: array<Entry<K, V>>;
      ghost var cs: seq<seq<Entry<K, V>>>;
      ghost var ns: set<object>;
      heads, cs, ns := BlankHeads(INITIAL_SIZE);
      list, chains, nodes := heads, cs, ns;
      Laws.FlattenEmpty<K, V>(Empty<K, V>(INITIAL_SIZE, true).buckets);
    }

    method Exists(key: K) returns (found: bool)
      requires Valid()
      ensures found == Find(keying, Contents(), key).Some?
      ensures Lawful(keying) && TableOk(keying, Contents()) ==> found == (key in Meaning(keying, Contents()))
    {
      if Lawful(keying) && TableOk(keying, Contents()) { Laws.FindFlat(keying, Contents(), key); }
      var index := keying.hash(key, listSize);
      ghost var c, b := chains[index], buckets[index];
      assert ChainOk(c, b, index);
      var entry: Entry?<K, V> := list[index];
      if entry.key == None { return false; }
      if keying.equal(entry.key.value, key) { return true; }
      if entry.next == null { return false; }
      ghost var j := 0;
      while entry != null
        invariant 0 <= j <= |c|
        invariant entry != null ==> j < |c| && entry == c[j]
        invariant entry == null ==> j == |c|
        invariant forall i :: 0 <= i < j ==> !keying.equal(b[i].key, key)
        decreases |c| - j
      {
        if keying.equal(entry.key.value, key) { return true; }
        entry := entry.next;
        j := j + 1;
      }
      return false;
    }

    /** Only for a key that is present: the search loop does not stop at an absent one. */
    method Get(key: K) returns (value: V)
      requires Valid() && Find(keying, Contents(), key).Some?
      ensures Some(value) == Find(keying, Contents(), key)
      ensures Lawful(keying) && TableOk(keying, Contents()) ==> Some(value) == MapGet(Meaning(keying, Contents()), key)
    {
      if Lawful(keying) && TableOk(keying, Contents()) { Laws.FindFlat(keying, Contents(), key); }
      var index := keying.hash(key, listSize);
      ghost var c, b := chains[index], buckets[index];
      assert ChainOk(c, b, index);
      ghost var at := Index(keying, b, key);
      var entry: Entry?<K, V> := list[index];
      ghost var j := 0;
      while entry != null && !keying.equal(entry.key.value, key)
        invariant 0 <= j <= at && entry == c[j]
        decreases |c| - j
      {
        entry := entry.next;
        j := j + 1;
      }
      value := entry.value.value;
    }

    /** Put without the growth test: overwrite in place, fill an empty head, or link behind it. */
    method PutPlain(key: K, value: V)
      requires Shaped() && InRange(keying, Contents(), key) && Equivalence(keying)
      modifies this, nodes
      ensures Shaped() && fresh(nodes - old(nodes))
      ensures Contents() == HashTable.PutPlain(keying, old(Contents()), key, value)
    {
      var index := keying.hash(key, listSize);
      ghost var c, b := chains[index], buckets[index];
      assert ChainOk(c, b, index);
      if list[index].key == None {
        size := size + 1;
        FillBucket(list, chains, buckets, nodes, index, key, value);
        buckets := buckets[index := [Pair(key, value)]];
        return;
      }
      var current: Entry?<K, V> := list[index];
      ghost var j := 0;
      while current != null
        invariant 0 <= j <= |c|
        invariant current != null ==> j < |c| && current == c[j]
        invariant current == null ==> j == |c|
        invariant forall i :: 0 <= i < j ==> !keying.equal(b[i].key, key)
        decreases |c| - j
      {
        if keying.equal(key, current.key.value) {
          assert j == Index(keying, b, key);
          OverwriteIn(list, chains, buckets, nodes, index, current, j, value);
          buckets := buckets[index := b[j := Pair(b[j].key, value)]];
          return;
        }
        current := current.next;
        j := j + 1;
      }
      assert Index(keying, b, key) == |b|;
      var entry := LinkInto(list, chains, buckets, nodes, index, key, value);
      nodes := nodes + {entry};
      chains := chains[index := [c[0], entry] + c[1..]];
      buckets := buckets[index := Insert(b, Pair(key, value))];
      size := size + 1;
    }

    method Put(key: K, value: V)
      requires Valid()
      modifies this, nodes
      ensures Valid() && fresh(nodes - old(nodes))
      ensures Contents() == HashTable.Put(keying, old(Contents()), key, value)
      decreases if autoAssign && size >= listSize then 2 else 0, 1
    {
      Any.PutFit(keying, Contents(), key, value);
      Grow();
      PutPlain(key, value);
    }

    /** The growth test: a full map is rehashed to twice the size. */
    method Grow()
      requires Valid()
      modifies this, nodes
      ensures Valid() && fresh(nodes - old(nodes))
      ensures Contents() == if old(autoAssign && size >= listSize)
                            then Reset(keying, old(Contents()), 2 * old(listSize)) else old(Contents())
      decreases if autoAssign && size >= listSize then 2 else 0, 0
    {
      if autoAssign && size >= listSize {
        ResetHashMap(2 * listSize);
      }
    }

    /** Remove without the shrinking test. */
    method RemovePlain(key: K) returns (result: bool)
      requires Shaped() && InRange(keying, Contents(), key) && Equivalence(keying)
      modifies this, nodes
      ensures Shaped() && nodes == old(nodes)
      ensures result == Find(keying, old(Contents()), key).Some?
      ensures Contents() == HashTable.RemovePlain(keying, old(Contents()), key)
    {
      var index := keying.hash(key, listSize);
      var entry: Entry?<K, V> := list[index];
      assert ChainOk(chains[index], buckets[index], index);
      if entry.key == None { return false; }
      if keying.equal(entry.key.value, key) {
        RemoveHead(index);
        return true;
      }
      var p;
      ghost var j;
      p, entry, j := SearchOverflow(index, key);
      if entry == null { return false; }
      RemoveOverflow(index, p, entry, j);
      return true;
    }

    ghost function Without(index: int, j: nat): Table<K, V>
      requires 0 <= index < |buckets| && j < |buckets[index]|
      reads this
    {
      Table(buckets[index := buckets[index][..j] + buckets[index][j + 1..]], size - 1, autoAssign)
    }

    method RemoveHead(index: int)
      requires Shaped() && 0 <= index < listSize && list[index].key != None
      modifies this, nodes
      ensures old(buckets[index]) != [] && Shaped() && nodes == old(nodes)
      ensures Contents() == old(Without(index, 0))
    {
      ghost var b := buckets[index];
      assert ChainOk(chains[index], b, index);
      assert b[..0] + b[1..] == b[1..];
      size := size - 1;
      ghost var c := TakeFrom(list, chains, buckets, nodes, index);
      chains := chains[index := c];
      buckets := buckets[index := b[1..]];
    }

    method RemoveOverflow(index: int, p: Entry<K, V>, entry: Entry<K, V>, ghost j: nat)
      requires Shaped() && 0 <= index < listSize && 0 < j < |buckets[index]| && j < |chains[index]|
      requires entry == chains[index][j] && p == chains[index][j - 1]
      modifies this, nodes
      ensures Shaped() && nodes == old(nodes) && Contents() == old(Without(index, j))
    {
      ghost var c, b := chains[index], buckets[index];
      size := size - 1;
      UnlinkFrom(list, chains, buckets, nodes, index, p, entry, j);
      chains := chains[index := c[..j] + c[j + 1..]];
      buckets := buckets[index := b[..j] + b[j + 1..]];
    }

    /** The search behind the head, with the predecessor of what it finds. */
    method SearchOverflow(index: int, key: K) returns (p: Entry<K, V>, entry: Entry?<K, V>, ghost j: nat)
      requires Shaped() && 0 <= index < listSize && list[index].key != None
      requires !keying.equal(list[index].key.value, key)
      ensures j == Index(keying, buckets[index], key)
      ensures if entry == null then j == |buckets[index]|
              else 0 < j < |buckets[index]| == |chains[index]| && entry == chains[index][j] && p == chains[index][j - 1]
    {
      ghost var c, b := chains[index], buckets[index];
      assert ChainOk(c, b, index);
      p := list[index];
      entry := p.next;
      j := 1;
      while entry != null
        invariant 1 <= j <= |c| && p == c[j - 1]
        invariant entry != null ==> j < |c| && entry == c[j]
        invariant entry == null ==> j == |c|
        invariant forall i :: 0 <= i < j ==> !keying.equal(b[i].key, key)
        decreases |c| - j
      {
        if keying.equal(entry.key.value, key) { return; }
        p := entry;
        entry := entry.next;
        j := j + 1;
      }
    }

    method Remove(key: K) returns (result: bool)
      requires Valid()
      modifies this, nodes
      ensures Valid() && fresh(nodes - old(nodes))
      ensures result == Find(keying, old(Contents()), key).Some?
      ensures Lawful(keying) && TableOk(keying, old(Contents())) ==> result == (key in Meaning(keying, old(Contents())))
      ensures Contents() == HashTable.Remove(keying, old(Contents()), key)
      decreases 3
    {
      if Lawful(keying) && TableOk(keying, Contents()) { Laws.FindFlat(keying, Contents(), key); }
      Any.RemoveFit(keying, Contents(), key);
      result := RemovePlain(key);
      if result && autoAssign && size < listSize / 2 {
        ResetHashMap(listSize / 2);
      }
    }

    /** The rehash.  None of its puts can start another one: fewer than n entries are in place. */
    method ResetHashMap(n: int)
      requires Valid() && (n < INITIAL_SIZE || size <= n)
      modifies this, nodes
      ensures Valid() && fresh(nodes - old(nodes))
      ensures Contents() == HashTable.Reset(keying, old(Contents()), n)
      decreases 1
    {
      if n < INITIAL_SIZE { return; }
      ghost var ps, auto := Flatten(buckets), autoAssign;
      var temp := new Option<Pair<K, V>>[size](_ => None);
      var length := size;
      CopyEntries(temp);
      Rebucket(n);
      Refill(temp, length, n, auto, ps);
    }

    /** Put the saved entries back into the n new buckets, in the order they were read. */
    method Refill(temp: array<Option<Pair<K, V>>>, length: int, ghost n: int, ghost auto: bool,
                  ghost ps: seq<Pair<K, V>>)
      requires Valid() && INITIAL_SIZE <= n && temp !in nodes
      requires Contents() == Empty(n, auto) && length == temp.Length == |ps| <= n
      requires forall m :: 0 <= m < length ==> temp[m] == Some(ps[m])
      modifies this, nodes
      ensures Valid() && fresh(nodes - old(nodes)) && Contents() == PutAll(keying, Empty(n, auto), ps)
      decreases 1, 1
    {
      for i := 0 to length
        invariant temp !in nodes && fresh(nodes - old(nodes))
        invariant forall m :: 0 <= m < length ==> temp[m] == Some(ps[m])
        invariant Valid()
        invariant Contents() == PutAll(keying, Empty(n, auto), ps[..i])
      {
        PutBack(temp[i].value, n, auto, ps, i);
      }
      assert ps[..length] == ps;
    }

    /** One put of the refill loop: i of the entries `ps` are back in the n new buckets. */
    method PutBack(p: Pair<K, V>, ghost n: int, ghost auto: bool, ghost ps: seq<Pair<K, V>>, ghost i: int)
      requires Valid() && INITIAL_SIZE <= n && 0 <= i < |ps| <= n && p == ps[i]
      requires Contents() == PutAll(keying, Empty(n, auto), ps[..i])
      modifies this, nodes
      ensures Valid() && fresh(nodes - old(nodes)) && listSize == n && size <= i + 1
      ensures Contents() == PutAll(keying, Empty(n, auto), ps[..i + 1])
      decreases 1, 0
    {
      Any.RefillStep(keying, n, auto, ps, i);
      Put(p.key, p.value);
    }

    /** Drop every chain and make n empty heads. */
    method Rebucket(n: int)
      requires Valid() && INITIAL_SIZE <= n
      modifies this
      ensures Valid() && fresh(nodes) && Contents() == Empty(n, old(autoAssign))
    {
      size := 0;
      listSize := n;
      buckets := Empty<K, V>(n, autoAssign).buckets;
      list, chains, nodes := BlankHeads(n);
      Laws.FlattenEmpty<K, V>(Empty<K, V>(n, autoAssign).buckets);
    }

    /** Drain an iterator over the unchanged map into an array of exactly `size` slots. */
    method CopyEntries(temp: array<Option<Pair<K, V>>>)
      requires Shaped() && temp.Length == size == |Flatten(buckets)| && temp !in nodes
      modifies temp
      ensures forall i :: 0 <= i < temp.Length ==> temp[i] == Some(Flatten(buckets)[i])
    {
      ghost var ps := Flatten(buckets);
      var cursor := new HashMapIterator(this);
      var index := 0;
      while cursor.HasNext()
        invariant cursor.Valid() && cursor.hashMap == this && index == cursor.count <= size
        invariant forall i :: 0 <= i < index ==> temp[i] == Some(ps[i])
        decreases size - index
        modifies cursor, temp
      {
        cursor.Next();
        assert cursor.Shows(ps[index]);
        var p := Pair(cursor.entry.key.value, cursor.entry.value.value);
        assert p == ps[index];
        assert forall i :: 0 <= i < index ==> temp[i] == Some(ps[i]);
        label L:
        temp[index] := Some(p);
        assert forall i :: 0 <= i < index ==> temp[i] == old@L(temp[i]);
        assert temp[index] == Some(ps[index]);
        assert forall i :: 0 <= i < index ==> temp[i] == Some(ps[i]);
        assert forall i :: 0 <= i < index + 1 ==> temp[i] == Some(ps[i]);
        index := index + 1;
      }
    }
  }

  /** `count` entries have been handed out; `entry` is the last of them. */
  class HashMapIterator<K(!new), V> {
    var entry: Entry?<K, V>
    var count: int
    var hashCode: int
    const hashMap: HashMap<K, V>
    ghost var place: int

    ghost predicate Valid()
      reads this, hashMap, hashMap.nodes
    {
      && hashMap.Shaped() && this !in hashMap.nodes
      && hashMap.size == |Flatten(hashMap.buckets)|
      && if entry == null then count == 0 && hashCode == -1
         else (
           && Laws.At(hashMap.buckets, hashCode, place, count)
           && place < |hashMap.chains[hashCode]| && entry == hashMap.chains[hashCode][place])
    }

    constructor (hashMap: HashMap<K, V>)
      requires hashMap.Shaped() && hashMap.size == |Flatten(hashMap.buckets)|
      ensures Valid() && this.hashMap == hashMap && count == 0
    {
      this.hashMap := hashMap;
      count, hashCode, entry, place := 0, -1, null, 0;
    }

    predicate HasNext()
      reads this, hashMap
    {
      count < hashMap.size
    }

    /** Hands out the entries of the map in order, one a call, and stays put after the last. */
    method Next()
      requires Valid()
      modifies this
      ensures Valid()
      ensures if old(HasNext())
        then count == old(count) + 1 <= hashMap.size && Shows(Flatten(hashMap.buckets)[old(count)])
        else unchanged(this)
    {
      if HasNext() {
        ghost var bs := hashMap.buckets;
        if entry != null {
          assert ChainOk(hashMap.chains[hashCode], bs[hashCode], hashCode);
          Laws.AtStep(bs, hashCode, place, count);
        }
        if entry != null && entry.next != null {
          count := count + 1;
          entry := entry.next;
          place := place + 1;
        } else {
          hashCode := hashCode + 1;
          NextBucket();
        }
      }
    }

    /** The scan for the next head in use; fewer than `size` entries lie behind, so there is one. */
    method NextBucket()
      requires hashMap.Shaped() && this !in hashMap.nodes
      requires Laws.Before(hashMap.buckets, hashCode, count) && count < hashMap.size == |Flatten(hashMap.buckets)|
      modifies this
      ensures Valid() && count == old(count) + 1 <= hashMap.size && Shows(Flatten(hashMap.buckets)[old(count)])
    {
      ghost var bs := hashMap.buckets;
      while hashCode < hashMap.listSize
        invariant Laws.Before(bs, hashCode, count) && count == old(count)
      {
        assert ChainOk(hashMap.chains[hashCode], bs[hashCode], hashCode);
        Laws.BeforeStep(bs, hashCode, count);
        if hashMap.list[hashCode].key != None {
          count := count + 1;
          entry := hashMap.list[hashCode];
          place := 0;
          return;
        }
        hashCode := hashCode + 1;
      }
      Laws.BeforeStep(bs, hashCode, count);
    }

    ghost predicate Shows(p: Pair<K, V>)
      reads this, entry
    {
      entry != null && entry.key == Some(p.key) && entry.value == Some(p.value)
    }
  }
}
