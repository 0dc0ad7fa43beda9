/** NUL-terminated text inside a larger buffer. */
module CText {
  const NUL: char := '\0'

  function Nul(a: seq<char>, i: nat): (n: nat)
    requires i <= |a|
    ensures i <= n <= |a| && (n < |a| ==> a[n] == NUL)
    ensures forall k :: i <= k < n ==> a[k] != NUL
    decreases |a| - i
  {
    if i == |a| || a[i] == NUL then i else Nul(a, i + 1)
  }

  /** The text a char pointer to position i stands for. */
  function Text(a: seq<char>, i: nat): string
    requires i <= |a|
  {
    a[i..Nul(a, i)]
  }

  ghost predicate Terminated(a: seq<char>) {
    NUL in a
  }

  lemma TextIs(a: seq<char>, i: nat, n: nat)
    requires i <= n < |a| && a[n] == NUL && forall k :: i <= k < n ==> a[k] != NUL
    ensures Text(a, i) == a[i..n]
  {}

  lemma NulFound(a: seq<char>)
    requires Terminated(a)
    ensures Nul(a, 0) < |a|
  {}

  function FirstOf(s: string, c: char): (j: nat)
    ensures j <= |s| && (j < |s| ==> s[j] == c)
    ensures forall k :: 0 <= k < j ==> s[k] != c
  {
    if s == "" || s[0] == c then 0 else 1 + FirstOf(s[1..], c)
  }

  lemma FirstOfIs(s: string, c: char, j: nat)
    requires j <= |s| && (j < |s| ==> s[j] == c) && forall k :: 0 <= k < j ==> s[k] != c
    ensures FirstOf(s, c) == j
  {}

  /** The position of the NUL that ends the text at start. */
  method StrEnd(buf: array<char>, start: nat) returns (n: nat)
    requires start <= buf.Length && Nul(buf[..], start) < buf.Length
    ensures n == Nul(buf[..], start)
  {
    n := start;
    while buf[n] != NUL
      invariant start <= n <= Nul(buf[..], start)
      decreases buf.Length - n
    {
      n := n + 1;
    }
    assert buf[..][n] == NUL;
  }

  method StrLen(buf: array<char>) returns (n: nat)
    requires Terminated(buf[..])
    ensures n < buf.Length && buf[n] == NUL && Text(buf[..], 0) == buf[..n]
    ensures forall k :: 0 <= k < n ==> buf[k] != NUL
  {
    NulFound(buf[..]);
    n := StrEnd(buf, 0);
    TextIs(buf[..], 0, n);
  }

  /** The position of the first c in the text, if it has one. */
  method StrChr(buf: array<char>, c: char) returns (found: bool, p: nat)
    requires Terminated(buf[..]) && c != NUL
    ensures p < buf.Length && p == FirstOf(Text(buf[..], 0), c)
    ensures found <==> c in Text(buf[..], 0)
    ensures buf[p] == if found then c else NUL
  {
    var n := StrLen(buf);
    ghost var s := Text(buf[..], 0);
    p := 0;
    while p < n && buf[p] != c
      invariant p <= n && forall k :: 0 <= k < p ==> s[k] != c
    {
      p := p + 1;
    }
    FirstOfIs(s, c, p);
    found := p < n;
  }
}
