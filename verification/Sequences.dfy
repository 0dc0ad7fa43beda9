/** Sequences without repetition: the node sequences behind every linked structure here. */
module Sequences {
  ghost predicate Injective<T>(s: seq<T>) {
    forall i, j :: 0 <= i < j < |s| ==> s[i] != s[j]
  }

  lemma InjectiveInsert<T>(s: seq<T>, k: int, x: T)
    requires Injective(s) && 0 <= k <= |s| && x !in s
    ensures Injective(s[..k] + [x] + s[k..])
  {
    var t := s[..k] + [x] + s[k..];
    assert forall i :: 0 <= i < |t| ==> t[i] == if i < k then s[i] else if i == k then x else s[i - 1];
  }

  lemma RemovedAt<T>(s: seq<T>, k: int)
    requires 0 <= k < |s|
    ensures |s[..k] + s[k + 1..]| == |s| - 1
    ensures forall i {:trigger (s[..k] + s[k + 1..])[i]} :: 0 <= i < |s| - 1 ==>
              (s[..k] + s[k + 1..])[i] == s[if i < k then i else i + 1]
  {}

  lemma InsertedSecond<T>(s: seq<T>, x: T)
    requires s != []
    ensures forall i {:trigger ([s[0], x] + s[1..])[i]} :: 0 <= i <= |s| ==>
              ([s[0], x] + s[1..])[i] == if i == 1 then x else s[if i == 0 then 0 else i - 1]
    ensures [s[0], x] + s[1..] == s[..1] + [x] + s[1..]
  {}

  lemma InjectiveRemove<T>(s: seq<T>, k: int)
    requires Injective(s) && 0 <= k < |s|
    ensures Injective(s[..k] + s[k + 1..]) && s[k] !in s[..k] + s[k + 1..]
  {
    var t := s[..k] + s[k + 1..];
    assert forall i :: 0 <= i < |t| ==> t[i] == s[if i < k then i else i + 1];
  }
}
