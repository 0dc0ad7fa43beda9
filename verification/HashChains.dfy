/** The shape of one bucket of the chained hash map: the head and the entries linked behind it. */
module HashEntries {
  import opened Options
  import opened HashTable
  import opened Sequences

  /** An entry; a head without a key marks an empty bucket.  `home` names the bucket it serves. */
  class Entry<K, V> {
    var key: Option<K>
    var value: Option<V>
    var next: Entry?<K, V>
    ghost var home: int

    constructor (key: Option<K>, value: Option<V>, next: Entry?<K, V>, ghost home: int)
      ensures this.key == key && this.value == value && this.next == next && this.home == home
    {
      this.key, this.value, this.next, this.home := key, value, next, home;
    }
  }

  /** `c` is the linked chain of bucket `home` and holds exactly the entries `b`. */
  ghost predicate ChainOk<K, V>(c: seq<Entry<K, V>>, b: Bucket<K, V>, home: int)
    reads c
  {
    && c != []
    && (forall j :: 0 <= j < |c| ==> c[j].home == home)
    && (forall j :: 0 <= j < |c| - 1 ==> c[j].next != null && c[j].next == c[j + 1])
    && c[|c| - 1].next == null
    && Injective(c)
    && if c[0].key == None then |c| == 1 && b == []
       else |b| == |c| && forall j :: 0 <= j < |c| ==> c[j].key == Some(b[j].key) && c[j].value == Some(b[j].value)
  }
}

/** What is done to one bucket, and to one bucket among all. */
module HashChains {
  import opened Options
  import opened HashTable
  import opened HashEntries
  import opened Sequences

  method SetHead<K, V>(head: Entry<K, V>, key: K, value: V, ghost home: int)
    requires ChainOk([head], [], home)
    modifies head
    ensures ChainOk([head], [Pair(key, value)], home)
  {
    head.key := Some(key);
    head.value := Some(value);
    head.next := null;
  }

  method Overwrite<K, V>(ghost c: seq<Entry<K, V>>, ghost b: Bucket<K, V>, ghost home: int,
                         current: Entry<K, V>, ghost j: nat, value: V)
    requires ChainOk(c, b, home) && j < |b| && current == c[j]
    modifies current
    ensures ChainOk(c, b[j := Pair(b[j].key, value)], home)
  {
    current.value := Some(value);
  }

  /** A new entry goes between the head and the rest of the chain. */
  method LinkBehind<K, V>(ghost c: seq<Entry<K, V>>, ghost b: Bucket<K, V>, ghost home: int,
                          head: Entry<K, V>, key: K, value: V) returns (entry: Entry<K, V>)
    requires ChainOk(c, b, home) && b != [] && head == c[0]
    modifies head
    ensures fresh(entry) && ChainOk([head, entry] + c[1..], Insert(b, Pair(key, value)), home)
  {
    entry := new Entry<K, V>(Some(key), Some(value), head.next, home);
    head.next := entry;
    InsertedSecond(c, entry);
    InsertedSecond(b, Pair(key, value));
    InjectiveInsert(c, 1, entry);
  }

  /** Removing the head's entry: its successor, if any, is copied into the inline head. */
  method TakeHead<K, V>(ghost c: seq<Entry<K, V>>, ghost b: Bucket<K, V>, ghost home: int, head: Entry<K, V>)
    returns (ghost c': seq<Entry<K, V>>)
    requires ChainOk(c, b, home) && b != [] && head == c[0]
    modifies head
    ensures ChainOk(c', b[1..], home) && c'[0] == head
    ensures forall e :: e in c' ==> e in c
  {
    if head.next != null {
      SecondTaken(c, b, home);
      c' := [head] + c[2..];
      var temp := head.next;
      head.key := temp.key;
      head.value := temp.value;
      head.next := temp.next;
      assert forall j :: 1 <= j < |c'| ==> c'[j] == c[j + 1];
    } else {
      assert |c| == 1;
      c' := c;
      head.key := None;
      head.value := None;
    }
  }

  lemma SecondTaken<K, V>(c: seq<Entry<K, V>>, b: Bucket<K, V>, home: int)
    requires ChainOk(c, b, home) && b != [] && c[0].next != null
    ensures |c| > 1 && Injective([c[0]] + c[2..]) && c[1] !in [c[0]] + c[2..]
  {
    InjectiveRemove(c, 1);
    assert [c[0]] + c[2..] == c[..1] + c[2..];
  }

  /** Removing an overflow entry: its predecessor is linked past it. */
  method Unlink<K, V>(ghost c: seq<Entry<K, V>>, ghost b: Bucket<K, V>, ghost home: int,
                      p: Entry<K, V>, entry: Entry<K, V>, ghost j: nat)
    requires ChainOk(c, b, home) && 0 < j < |b| && p == c[j - 1] && entry == c[j]
    modifies p
    ensures ChainOk(c[..j] + c[j + 1..], b[..j] + b[j + 1..], home)
  {
    RemovedAt(c, j);
    RemovedAt(b, j);
    InjectiveRemove(c, j);
    p.next := entry.next;
  }

  // ---------------------------------------------------------------- the array of chains

  /** Every head of `list` starts its own chain, and chain i spells bucket i; all of it lives in `nodes`. */
  ghost predicate Linked<K, V>(list: array<Entry<K, V>>, chains: seq<seq<Entry<K, V>>>,
                               buckets: seq<Bucket<K, V>>, nodes: set<object>)
    reads nodes
  {
    && list in nodes
    && list.Length == |chains| == |buckets|
    && (forall i {:trigger ChainOk(chains[i], buckets[i], i)} :: 0 <= i < |chains| ==>
          Owned(chains[i], nodes) && ChainOk(chains[i], buckets[i], i) && list[i] == chains[i][0])
  }

  ghost predicate Owned<K, V>(c: seq<Entry<K, V>>, nodes: set<object>) {
    forall e :: e in c ==> e in nodes
  }

  /** n empty heads, as after the allocation and clearing loops. */
  method BlankHeads<K, V>(n: int)
    returns (heads: array<Entry<K, V>>, ghost cs: seq<seq<Entry<K, V>>>, ghost nodes: set<object>)
    requires 0 < n
    ensures fresh(nodes) && heads.Length == n
    ensures Linked(heads, cs, Empty<K, V>(n, true).buckets, nodes)
  {
    var first := new Entry<K, V>(None, None, null, 0);
    heads := new Entry<K, V>[n](_ => first);
    cs := [[first]];
    var i := 1;
    while i < n
      invariant 1 <= i <= n == heads.Length && |cs| == i
      invariant forall j :: 0 <= j < i ==> cs[j] == [heads[j]] && fresh(heads[j]) && ChainOk(cs[j], [], j)
    {
      var e := new Entry<K, V>(None, None, null, i);
      heads[i] := e;
      cs := cs + [[e]];
      i := i + 1;
    }
    assert forall j :: 0 <= j < n ==> heads[j] in heads[..];
    nodes := {heads as object} + set e | e in heads[..] :: e as object;
    assert forall j :: 0 <= j < n ==> Owned(cs[j], nodes);
  }

  method FillBucket<K, V>(list: array<Entry<K, V>>, ghost chains: seq<seq<Entry<K, V>>>,
                          ghost buckets: seq<Bucket<K, V>>, ghost nodes: set<object>, index: int, key: K, value: V)
    requires Linked(list, chains, buckets, nodes) && 0 <= index < list.Length && list[index].key == None
    modifies nodes
    ensures Linked(list, chains, buckets[index := [Pair(key, value)]], nodes)
  {
    assert ChainOk(chains[index], buckets[index], index);
    assert chains[index] == [list[index]];
    SetHead(list[index], key, value, index);
    forall i | 0 <= i < |chains| && i != index ensures ChainOk(chains[i], buckets[i], i) {
      assert old(ChainOk(chains[i], buckets[i], i));
    }
  }

  method OverwriteIn<K, V>(list: array<Entry<K, V>>, ghost chains: seq<seq<Entry<K, V>>>,
                           ghost buckets: seq<Bucket<K, V>>, ghost nodes: set<object>,
                           ghost index: int, current: Entry<K, V>, ghost j: nat, value: V)
    requires Linked(list, chains, buckets, nodes) && 0 <= index < list.Length
    requires j < |chains[index]| && j < |buckets[index]| && current == chains[index][j]
    modifies nodes
    ensures Linked(list, chains, buckets[index := buckets[index][j := Pair(buckets[index][j].key, value)]], nodes)
  {
    assert ChainOk(chains[index], buckets[index], index);
    Overwrite(chains[index], buckets[index], index, current, j, value);
    forall i | 0 <= i < |chains| && i != index ensures ChainOk(chains[i], buckets[i], i) {
      assert old(ChainOk(chains[i], buckets[i], i));
    }
  }

  method LinkInto<K, V>(list: array<Entry<K, V>>, ghost chains: seq<seq<Entry<K, V>>>,
                        ghost buckets: seq<Bucket<K, V>>, ghost nodes: set<object>, index: int, key: K, value: V)
    returns (entry: Entry<K, V>)
    requires Linked(list, chains, buckets, nodes) && 0 <= index < list.Length && list[index].key != None
    requires chains[index] != []
    modifies nodes
    ensures fresh(entry)
    ensures Linked(list, chains[index := [chains[index][0], entry] + chains[index][1..]],
                   buckets[index := Insert(buckets[index], Pair(key, value))], nodes + {entry})
  {
    assert ChainOk(chains[index], buckets[index], index);
    entry := LinkBehind(chains[index], buckets[index], index, list[index], key, value);
    ghost var cs := chains[index := [chains[index][0], entry] + chains[index][1..]];
    ghost var bs := buckets[index := Insert(buckets[index], Pair(key, value))];
    forall i | 0 <= i < |cs|
      ensures Owned(cs[i], nodes + {entry}) && ChainOk(cs[i], bs[i], i) && list[i] == cs[i][0]
    {
      if i != index { assert old(ChainOk(chains[i], buckets[i], i)) && cs[i] == chains[i] && bs[i] == buckets[i]; }
    }
  }

  method TakeFrom<K, V>(list: array<Entry<K, V>>, ghost chains: seq<seq<Entry<K, V>>>,
                        ghost buckets: seq<Bucket<K, V>>, ghost nodes: set<object>, index: int)
    returns (ghost c: seq<Entry<K, V>>)
    requires Linked(list, chains, buckets, nodes) && 0 <= index < list.Length && list[index].key != None
    modifies nodes
    ensures buckets[index] != [] && Linked(list, chains[index := c], buckets[index := buckets[index][1..]], nodes)
  {
    assert ChainOk(chains[index], buckets[index], index);
    assert buckets[index] != [];
    c := TakeHead(chains[index], buckets[index], index, list[index]);
    assert Owned(c, nodes);
    ghost var cs, bs := chains[index := c], buckets[index := buckets[index][1..]];
    forall i | 0 <= i < |cs|
      ensures Owned(cs[i], nodes) && ChainOk(cs[i], bs[i], i) && list[i] == cs[i][0]
    {
      if i != index { assert old(ChainOk(chains[i], buckets[i], i)) && cs[i] == chains[i] && bs[i] == buckets[i]; }
    }
  }

  method UnlinkFrom<K, V>(list: array<Entry<K, V>>, ghost chains: seq<seq<Entry<K, V>>>,
                          ghost buckets: seq<Bucket<K, V>>, ghost nodes: set<object>,
                          ghost index: int, p: Entry<K, V>, entry: Entry<K, V>, ghost j: nat)
    requires Linked(list, chains, buckets, nodes) && 0 <= index < list.Length
    requires 0 < j < |buckets[index]| && j < |chains[index]|
    requires p == chains[index][j - 1] && entry == chains[index][j]
    modifies nodes
    ensures Linked(list, chains[index := chains[index][..j] + chains[index][j + 1..]],
                   buckets[index := buckets[index][..j] + buckets[index][j + 1..]], nodes)
  {
    assert ChainOk(chains[index], buckets[index], index);
    ghost var c' := chains[index][..j] + chains[index][j + 1..];
    assert c'[0] == list[index] && Owned(c', nodes);
    Unlink(chains[index], buckets[index], index, p, entry, j);
    forall i | 0 <= i < |chains| && i != index ensures ChainOk(chains[i], buckets[i], i) {
      assert old(ChainOk(chains[i], buckets[i], i));
    }
  }
}
