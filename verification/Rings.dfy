/** The shape of the intrusive circular doubly linked list. */
module RingShape {
  import opened Sequences

  /** struct list_head, inside the record it links. */
  class Node<T> {
    const data: T
    var next: Node?<T>
    var prev: Node?<T>

    constructor (data: T)
      ensures this.data == data
    {
      this.data := data;
      next, prev := null, null;
    }
  }

  function Succ<T>(xs: seq<T>, i: int): T
    requires 0 <= i < |xs|
  {
    if i + 1 < |xs| then xs[i + 1] else xs[0]
  }

  /** `xs`, head first, is one cycle: each node's next is the following one, whose prev leads back. */
  ghost predicate Ring<T>(xs: seq<Node<T>>)
    reads xs
  {
    && xs != []
    && Injective(xs)
    && (forall i :: 0 <= i < |xs| ==> Linked(xs[i], Succ(xs, i)))
  }

  ghost predicate Linked<T>(a: Node<T>, b: Node<T>)
    reads a, b
  {
    a.next == b && b.prev == a
  }

  lemma SuccInsert<T>(xs: seq<Node<T>>, i: int, node: Node<T>, k: int)
    requires 0 <= i < |xs| && 0 <= k <= |xs|
    ensures var ys := xs[..i + 1] + [node] + xs[i + 1..];
            && |ys| == |xs| + 1
            && ys[k] == (if k <= i then xs[k] else if k == i + 1 then node else xs[k - 1])
            && Succ(ys, k) == if k == i then node else if k < i then Succ(xs, k) else Succ(xs, k - 1)
  {}
}

/** Its operations: a ring of nodes, one of them the list head. */
module Rings {
  import opened Sequences
  import opened RingShape

  method InitListHead<T>(list: Node<T>)
    modifies list
    ensures Ring([list])
  {
    list.prev := list;
    list.next := list;
  }

  /** Link a new node in behind position i. */
  method ListAddBetween<T>(node: Node<T>, prev: Node<T>, next: Node<T>, ghost xs: seq<Node<T>>, ghost i: int)
    requires Ring(xs) && node !in xs && 0 <= i < |xs| && prev == xs[i] && next == Succ(xs, i)
    modifies node, prev, next
    ensures Ring(xs[..i + 1] + [node] + xs[i + 1..])
  {
    next.prev := node;
    node.next := next;
    node.prev := prev;
    prev.next := node;
    ghost var ys := xs[..i + 1] + [node] + xs[i + 1..];
    InjectiveInsert(xs, i + 1, node);
    forall k | 0 <= k < |ys| ensures Linked(ys[k], Succ(ys, k)) {
      SuccInsert(xs, i, node, k);
      if k < i { assert old(Linked(xs[k], Succ(xs, k))); }
      if k > i + 1 { assert old(Linked(xs[k - 1], Succ(xs, k - 1))); }
    }
  }

  method ListAdd<T>(node: Node<T>, head: Node<T>, ghost xs: seq<Node<T>>)
    requires Ring(xs) && node !in xs && head == xs[0]
    modifies node, xs
    ensures Ring([head, node] + xs[1..])
  {
    assert Linked(xs[0], Succ(xs, 0));
    ListAddBetween(node, head, head.next, xs, 0);
    assert xs[..1] + [node] + xs[1..] == [head, node] + xs[1..];
  }

  method ListAddTail<T>(node: Node<T>, head: Node<T>, ghost xs: seq<Node<T>>)
    requires Ring(xs) && node !in xs && head == xs[0]
    modifies node, xs
    ensures Ring(xs + [node])
  {
    ghost var n := |xs| - 1;
    assert Linked(xs[n], Succ(xs, n));
    ListAddBetween(node, head.prev, head, xs, n);
    assert xs[..n + 1] + [node] + xs[n + 1..] == xs + [node];
  }

  /** Unlink position k, which is not the head; the node itself is left as it is. */
  method Unlink<T>(prev: Node<T>, next: Node<T>, ghost xs: seq<Node<T>>, ghost k: int)
    requires Ring(xs) && 0 < k < |xs| && prev == xs[k - 1] && next == Succ(xs, k)
    modifies prev, next
    ensures Ring(xs[..k] + xs[k + 1..])
    ensures xs[k] !in xs[..k] + xs[k + 1..]
  {
    prev.next := next;
    next.prev := prev;
    ghost var ys := xs[..k] + xs[k + 1..];
    InjectiveRemove(xs, k);
    forall i | 0 <= i < |ys| ensures Linked(ys[i], Succ(ys, i)) {
      assert ys[i] == xs[if i < k then i else i + 1];
      if i < k - 1 { assert old(Linked(xs[i], Succ(xs, i))); }
      if i >= k { assert old(Linked(xs[i + 1], Succ(xs, i + 1))); }
    }
  }

  method ListDel<T>(entry: Node<T>, ghost xs: seq<Node<T>>, ghost k: int)
    requires Ring(xs) && 0 < k < |xs| && entry == xs[k]
    modifies xs
    ensures Ring(xs[..k] + xs[k + 1..])
    ensures entry.next == null && entry.prev == null && entry !in xs[..k] + xs[k + 1..]
  {
    assert Linked(xs[k - 1], Succ(xs, k - 1)) && Linked(xs[k], Succ(xs, k));
    Unlink(entry.prev, entry.next, xs, k);
    entry.next := null;
    entry.prev := null;
  }

  /** The new node takes the old one's place; the old one keeps its pointers. */
  method ListReplace<T>(old': Node<T>, new': Node<T>, ghost xs: seq<Node<T>>, ghost k: int)
    requires Ring(xs) && 0 < k < |xs| && old' == xs[k] && new' !in xs
    modifies new', xs
    ensures Ring(xs[k := new']) && old'.next == old(old'.next) && old'.prev == old(old'.prev)
  {
    assert Linked(xs[k - 1], Succ(xs, k - 1)) && Linked(xs[k], Succ(xs, k));
    new'.prev := old'.prev;
    new'.next := old'.next;
    old'.prev.next := new';
    old'.next.prev := new';
    ghost var ys := xs[k := new'];
    forall i | 0 <= i < |ys| ensures Linked(ys[i], Succ(ys, i)) {
      if i != k && i != k - 1 { assert old(Linked(xs[i], Succ(xs, i))); }
    }
  }

  /** Move a node to the front of a list, of another one or of its own. */
  method ListMove<T>(node: Node<T>, head: Node<T>, ghost from: seq<Node<T>>, ghost k: int, ghost to: seq<Node<T>>)
    requires Ring(from) && 0 < k < |from| && node == from[k] && Ring(to) && head == to[0]
    requires from == to || forall x :: x in from ==> x !in to
    modifies from, to
    ensures from != to ==> Ring(from[..k] + from[k + 1..]) && Ring([head, node] + to[1..])
    ensures from == to ==> Ring([head, node] + (from[..k] + from[k + 1..])[1..])
  {
    TakeOut(node, from, k, to);
    ghost var rest := from[..k] + from[k + 1..];
    AddBeside(node, head, if from == to then rest else to, if from == to then [] else rest);
  }

  /** The second half of a move, which leaves the ring the node came from alone. */
  method AddBeside<T>(node: Node<T>, head: Node<T>, ghost xs: seq<Node<T>>, ghost other: seq<Node<T>>)
    requires Ring(xs) && node !in xs && head == xs[0]
    requires other != [] ==> Ring(other) && node !in other && forall x :: x in other ==> x !in xs
    modifies node, xs
    ensures Ring([head, node] + xs[1..]) && (other != [] ==> Ring(other))
  {
    ListAdd(node, head, xs);
    forall i | 0 <= i < |other| ensures Linked(other[i], Succ(other, i)) {
      assert old(Linked(other[i], Succ(other, i)));
      assert other[i] in other && Succ(other, i) in other;
    }
  }

  method AddTailBeside<T>(node: Node<T>, head: Node<T>, ghost xs: seq<Node<T>>, ghost other: seq<Node<T>>)
    requires Ring(xs) && node !in xs && head == xs[0]
    requires other != [] ==> Ring(other) && node !in other && forall x :: x in other ==> x !in xs
    modifies node, xs
    ensures Ring(xs + [node]) && (other != [] ==> Ring(other))
  {
    ListAddTail(node, head, xs);
    forall i | 0 <= i < |other| ensures Linked(other[i], Succ(other, i)) {
      assert old(Linked(other[i], Succ(other, i)));
      assert other[i] in other && Succ(other, i) in other;
    }
  }

  method ListMoveTail<T>(node: Node<T>, head: Node<T>, ghost from: seq<Node<T>>, ghost k: int, ghost to: seq<Node<T>>)
    requires Ring(from) && 0 < k < |from| && node == from[k] && Ring(to) && head == to[0]
    requires from == to || forall x :: x in from ==> x !in to
    modifies from, to
    ensures from != to ==> Ring(from[..k] + from[k + 1..]) && Ring(to + [node])
    ensures from == to ==> Ring(from[..k] + from[k + 1..] + [node])
  {
    TakeOut(node, from, k, to);
    ghost var rest := from[..k] + from[k + 1..];
    AddTailBeside(node, head, if from == to then rest else to, if from == to then [] else rest);
  }

  /** The first half of a move: the node's neighbours are linked to each other. */
  method TakeOut<T>(node: Node<T>, ghost from: seq<Node<T>>, ghost k: int, ghost to: seq<Node<T>>)
    requires Ring(from) && 0 < k < |from| && node == from[k]
    requires from == to || (Ring(to) && forall x :: x in from ==> x !in to)
    modifies from
    ensures Ring(from[..k] + from[k + 1..]) && node !in from[..k] + from[k + 1..]
    ensures forall x :: x in from[..k] + from[k + 1..] ==> x in from
    ensures from != to ==> Ring(to) && node !in to
  {
    assert Linked(from[k - 1], Succ(from, k - 1)) && Linked(from[k], Succ(from, k));
    assert node.prev in from && node.next in from;
    Unlink(node.prev, node.next, from, k);
  }

  /** Around a ring, next and prev undo each other. */
  lemma NextPrevInverse<T>(xs: seq<Node<T>>, k: int)
    requires Ring(xs) && 0 <= k < |xs|
    ensures xs[k].next != null && xs[k].next.prev == xs[k]
    ensures xs[k].prev != null && xs[k].prev.next == xs[k]
  {
    var j := if k > 0 then k - 1 else |xs| - 1;
    assert Linked(xs[k], Succ(xs, k)) && Linked(xs[j], Succ(xs, j));
  }
}
