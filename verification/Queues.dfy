/** The URL queues: a ring and its length, and the parser's sweep that moves URLs between them. */
module Queues {
  import opened RingShape
  import opened Rings

  class Queue<T> {
    const head: Node<T>
    var bufSize: int
    ghost var elems: seq<Node<T>>
    ghost var nodes: set<Node<T>>

    ghost predicate Valid()
      reads this, nodes
    {
      Contains(nodes, [head] + elems) && Ring([head] + elems) && bufSize == |elems|
    }

    constructor (dummy: T)
      ensures Valid() && elems == [] && fresh(nodes)
    {
      head := new Node(dummy);
      bufSize := 0;
      elems := [];
      nodes := {};
      new;
      nodes := {head};
      InitListHead(head);
      assert [head] + elems == [head];
    }

    method Push(e: Node<T>)
      requires Valid() && e !in nodes
      modifies this, nodes, e
      ensures Valid() && elems == old(elems) + [e] && nodes == old(nodes) + {e}
    {
      ListAddTail(e, head, [head] + elems);
      bufSize := bufSize + 1;
      elems := elems + [e];
      nodes := nodes + {e};
      assert [head] + elems == [head] + old(elems) + [e];
    }

    /** First in, first out; nothing on an empty queue. */
    method Pop() returns (e: Node?<T>)
      requires Valid()
      modifies this, nodes
      ensures Valid()
      ensures if old(elems) == [] then e == null && elems == [] && nodes == old(nodes)
              else e == old(elems)[0] && elems == old(elems)[1..] && nodes == old(nodes) - {e}
      ensures e != null ==> e.next == null && e.prev == null
    {
      NextIsAhead(0);
      if head.next == head { return null; }
      e := head.next;
      DeleteFirst(e);
    }

    /** Also the sweep's deletion of the element it stands on. */
    method DeleteFirst(e: Node<T>)
      requires Valid() && elems != [] && e == elems[0]
      modifies this, nodes
      ensures Valid() && elems == old(elems)[1..] && nodes == old(nodes) - {e}
      ensures e.next == null && e.prev == null
    {
      ghost var xs := [head] + elems;
      ListDel(e, xs, 1);
      bufSize := bufSize - 1;
      elems := elems[1..];
      nodes := nodes - {e};
      assert [head] + elems == xs[..1] + xs[2..];
    }

    ghost function Ahead(k: int): Node<T>
      reads this
      requires 0 <= k <= |elems|
    {
      Succ([head] + elems, k)
    }

    lemma NextIsAhead(k: int)
      requires Valid() && 0 <= k <= |elems|
      ensures ([head] + elems)[k].next == Ahead(k)
    {
      assert Linked(([head] + elems)[k], Succ([head] + elems, k));
    }

    method IsEmpty() returns (empty: bool)
      requires Valid()
      ensures empty <==> elems == []
    {
      empty := bufSize == 0;
    }
  }

  ghost predicate Contains<T>(nodes: set<T>, xs: seq<T>) {
    forall i :: 0 <= i < |xs| ==> xs[i] in nodes
  }

  function Data<T>(ns: seq<Node<T>>): (ds: seq<T>)
    ensures |ds| == |ns|
  {
    seq(|ns|, i requires 0 <= i < |ns| => ns[i].data)
  }

  /** The elements whose visit ends in success, in order. */
  function Kept<T>(ds: seq<T>, resolved: seq<bool>): seq<T>
    requires |ds| == |resolved|
  {
    var n := |ds| - 1;
    if ds == [] then [] else Kept(ds[..n], resolved[..n]) + if resolved[n] then [ds[n]] else []
  }

  ghost predicate Apart<T>(a: Queue<T>, b: Queue<T>)
    reads a, b
  {
    a != b && a.nodes !! b.nodes
  }

  lemma KeptNext<T>(before: seq<T>, visited: seq<Node<T>>, pos: Node<T>, resolved: seq<bool>)
    requires |visited| < |resolved|
    ensures before + Kept(Data(visited + [pos]), resolved[..|visited| + 1])
         == before + Kept(Data(visited), resolved[..|visited|]) + if resolved[|visited|] then [pos.data] else []
  {
    assert Data(visited + [pos])[..|visited|] == Data(visited);
    assert resolved[..|visited| + 1][..|visited|] == resolved[..|visited|];
  }

  lemma NextRound<T>(visited: seq<T>, left: seq<T>)
    requires left != []
    ensures visited + left == visited + [left[0]] + left[1..]
  {
  }

  /** One round: unlink the URL, and if it resolves queue it for fetching. */
  method SweepOne<T>(surl: Queue<T>, ourl: Queue<T>, pos: Node<T>, resolved: bool)
    requires surl.Valid() && ourl.Valid() && Apart(surl, ourl) && surl.elems != [] && pos == surl.elems[0]
    modifies surl, ourl, surl.nodes, ourl.nodes
    ensures surl.Valid() && ourl.Valid() && Apart(surl, ourl) && surl.elems == old(surl.elems)[1..]
    ensures Data(ourl.elems) == Data(old(ourl.elems)) + if resolved then [pos.data] else []
    ensures surl.nodes <= old(surl.nodes) && fresh(ourl.nodes - old(ourl.nodes))
  {
    surl.DeleteFirst(pos);
    if resolved {
      var node := new Node(pos.data);
      ourl.Push(node);
    }
  }

  /**
   * The parser's pass over the URLs to resolve.  The iteration keeps the next node in hand while it
   * unlinks the current one; what resolves goes on the other queue.  `resolved` tells for each visit whether it did,
   * so the same host may resolve once and not again.
   */
  method Sweep<T>(surl: Queue<T>, ourl: Queue<T>, resolved: seq<bool>) returns (ghost visited: seq<Node<T>>)
    requires surl.Valid() && ourl.Valid() && Apart(surl, ourl) && |resolved| == |surl.elems|
    modifies surl, ourl, surl.nodes, ourl.nodes
    ensures surl.Valid() && ourl.Valid() && surl.elems == [] && visited == old(surl.elems)
    ensures Data(ourl.elems) == Data(old(ourl.elems)) + Kept(Data(old(surl.elems)), resolved)
  {
    visited := [];
    var i := 0;
    ghost var all, before := surl.elems, ourl.elems;
    surl.NextIsAhead(0);
    var pos: Node<T> := surl.head.next;
    surl.NextIsAhead(if surl.elems == [] then 0 else 1);
    var n: Node<T> := pos.next;
    assert Data(ourl.elems) == Data(before) + Kept(Data(visited), resolved[..0]);
    while pos != surl.head
      invariant surl.Valid() && ourl.Valid() && Apart(surl, ourl)
      invariant all == visited + surl.elems && i == |visited|
      invariant pos == surl.Ahead(0) && n == surl.Ahead(if surl.elems == [] then 0 else 1)
      invariant Data(ourl.elems) == Data(before) + Kept(Data(visited), resolved[..i])
      invariant surl.nodes <= old(surl.nodes) && fresh(ourl.nodes - old(ourl.nodes))
      decreases |surl.elems|
    {
      KeptNext(Data(before), visited, pos, resolved);
      NextRound(visited, surl.elems);
      visited := visited + [pos];
      SweepOne(surl, ourl, pos, resolved[i]);
      i := i + 1;
      pos := n;
      surl.NextIsAhead(if surl.elems == [] then 0 else 1);
      n := n.next;
    }
    assert resolved[..i] == resolved;
  }
}
