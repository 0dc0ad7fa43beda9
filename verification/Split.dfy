/** Cutting a string at a separator of any length: what the tokens are. */
module Splits {
  predicate At(s: string, sep: string, i: int) {
    0 <= i && i + |sep| <= |s| && s[i..i + |sep|] == sep
  }

  /** The tokens from start on, for a scan that has reached j without meeting a separator. */
  function Scan(s: string, sep: string, start: nat, j: nat): (ts: seq<string>)
    requires sep != "" && start <= j && start <= |s|
    ensures ts != []
    decreases |s| - j
  {
    if j + |sep| > |s| then [s[start..]]
    else if At(s, sep, j) then [s[start..j]] + Scan(s, sep, j + |sep|, j + |sep|)
    else Scan(s, sep, start, j + 1)
  }

  function Pieces(s: string, sep: string): seq<string>
    requires sep != ""
  {
    Scan(s, sep, 0, 0)
  }

  /** What is cut off so far and what the scan still yields make up all the pieces. */
  ghost predicate Sofar(done: seq<string>, s: string, sep: string, start: int, j: int)
    requires sep != ""
  {
    0 <= start <= j && start <= |s| && done + Scan(s, sep, start, j) == Pieces(s, sep)
  }

  lemma SofarHit(done: seq<string>, s: string, sep: string, start: int, j: int)
    requires sep != "" && Sofar(done, s, sep, start, j) && At(s, sep, j)
    ensures Sofar(done + [s[start..j]], s, sep, j + |sep|, j + |sep|)
  {
    var rest := Scan(s, sep, j + |sep|, j + |sep|);
    assert (done + [s[start..j]]) + rest == done + ([s[start..j]] + rest);
  }

  lemma SofarMiss(done: seq<string>, s: string, sep: string, start: int, j: int)
    requires sep != "" && Sofar(done, s, sep, start, j) && !At(s, sep, j) && j + |sep| <= |s|
    ensures Sofar(done, s, sep, start, j + 1)
  {}

  lemma SofarEnd(done: seq<string>, s: string, sep: string, start: int, j: int)
    requires sep != "" && Sofar(done, s, sep, start, j) && j + |sep| > |s|
    ensures done + [s[start..]] == Pieces(s, sep)
  {}

  /** The empty string has no tokens at all, not one empty token. */
  function Tokens(s: string, sep: string): seq<string>
    requires sep != ""
  {
    if s == "" then [] else Pieces(s, sep)
  }

  function Join(ts: seq<string>, sep: string): string {
    if ts == [] then "" else if |ts| == 1 then ts[0] else ts[0] + sep + Join(ts[1..], sep)
  }

  /** No separator starts in the first n places. */
  ghost predicate NoneBefore(s: string, sep: string, n: int) {
    forall i :: 0 <= i < n ==> !At(s, sep, i)
  }

  ghost predicate Contains(s: string, sep: string) {
    !NoneBefore(s, sep, |s|)
  }

  /** With a separator put behind it, the first separator is the one put there. */
  ghost predicate Ends(t: string, sep: string) {
    NoneBefore(t + sep, sep, |t|)
  }

  /** Tokens that no separator cuts, not even one that starts in a token and ends in the separator behind it. */
  ghost predicate Clean(ts: seq<string>, sep: string) {
    ts != [] && if |ts| == 1 then !Contains(ts[0], sep) else Ends(ts[0], sep) && Clean(ts[1..], sep)
  }

  // ---------------------------------------------------------------- occurrences in parts

  /** Inside u, an occurrence in p + u + w is one in u. */
  lemma AtInside(p: string, u: string, w: string, sep: string, i: int)
    requires 0 <= i && i + |sep| <= |u|
    ensures At(p + u + w, sep, |p| + i) == At(u, sep, i)
  {
    var s := p + u + w;
    assert s[|p| + i..|p| + i + |sep|] == u[i..i + |sep|];
  }

  lemma TokenLast(s: string, sep: string, start: nat, j: nat)
    requires start <= j && start <= |s| < j + |sep|
    requires forall i :: start <= i < j ==> !At(s, sep, i)
    ensures !Contains(s[start..], sep)
  {
    var p, u := s[..start], s[start..];
    assert s == p + u + "";
    forall i | 0 <= i < |u| ensures !At(u, sep, i) {
      if i + |sep| <= |u| { AtInside(p, u, "", sep, i); }
    }
  }

  lemma TokenEnds(s: string, sep: string, start: nat, j: nat)
    requires sep != "" && start <= j && At(s, sep, j)
    requires forall i :: start <= i < j ==> !At(s, sep, i)
    ensures Ends(s[start..j], sep)
  {
    var p, u, w := s[..start], s[start..j] + sep, s[j + |sep|..];
    assert s[start..j + |sep|] == s[start..j] + s[j..j + |sep|];
    assert s == p + u + w;
    forall i | 0 <= i < j - start ensures !At(u, sep, i) { AtInside(p, u, w, sep, i); }
  }

  /** The first occurrence from j on; the length of s if there is none. */
  function IndexFrom(s: string, sep: string, j: nat): (i: nat)
    requires sep != "" && j <= |s|
    ensures j <= i <= |s| && (i < |s| ==> At(s, sep, i))
    ensures forall k :: j <= k < i ==> !At(s, sep, k)
    decreases |s| - j
  {
    if j + |sep| > |s| then |s| else if At(s, sep, j) then j else IndexFrom(s, sep, j + 1)
  }

  function IndexOf(s: string, sep: string): (i: nat)
    requires sep != ""
    ensures i <= |s|
  {
    IndexFrom(s, sep, 0)
  }

  lemma IndexIs(s: string, sep: string, i: nat)
    requires sep != "" && At(s, sep, i) && NoneBefore(s, sep, i)
    ensures IndexOf(s, sep) == i
  {}

  /** More text behind does not move an occurrence. */
  lemma IndexStays(s: string, sep: string, more: string)
    requires sep != "" && IndexOf(s, sep) < |s|
    ensures IndexOf(s + more, sep) == IndexOf(s, sep)
  {
    var i := IndexOf(s, sep);
    forall k | 0 <= k <= i ensures At(s + more, sep, k) == At(s, sep, k) {
      AtInside("", s, more, sep, k);
      assert "" + s + more == s + more;
    }
    IndexIs(s + more, sep, i);
  }

  /** The first occurrence splits s into what ends there and the rest, and only one split is such. */
  lemma IndexParts(a: string, sep: string, b: string)
    requires sep != ""
    ensures Ends(a, sep) <==> IndexOf(a + sep + b, sep) == |a|
  {
    var s := a + sep + b;
    assert At(s, sep, |a|) by { assert s[|a|..|a| + |sep|] == sep; }
    forall k | 0 <= k < |a| ensures At(s, sep, k) == At(a + sep, sep, k) {
      AtInside("", a + sep, b, sep, k);
      assert "" + (a + sep) + b == s;
    }
    assert NoneBefore(s, sep, |a|) <==> Ends(a, sep);
    assert NoneBefore(s, sep, IndexFrom(s, sep, 0));
  }

  // ---------------------------------------------------------------- joining

  lemma JoinCons(t: string, ts: seq<string>, sep: string)
    requires ts != []
    ensures Join([t] + ts, sep) == t + sep + Join(ts, sep)
  {
    assert ([t] + ts)[1..] == ts;
  }

  lemma CutAt(s: string, sep: string, start: nat, j: nat)
    requires start <= j && At(s, sep, j)
    ensures s[start..j] + sep + s[j + |sep|..] == s[start..]
  {
    assert s[start..] == s[start..j] + s[j..j + |sep|] + s[j + |sep|..];
  }

  lemma {:induction false} JoinScan(s: string, sep: string, start: nat, j: nat)
    requires sep != "" && start <= j && start <= |s|
    ensures Join(Scan(s, sep, start, j), sep) == s[start..]
    decreases |s| - j
  {
    if j + |sep| > |s| {
    } else if At(s, sep, j) {
      var next := j + |sep|;
      JoinScan(s, sep, next, next);
      JoinCons(s[start..j], Scan(s, sep, next, next), sep);
      CutAt(s, sep, start, j);
    } else {
      JoinScan(s, sep, start, j + 1);
    }
  }

  /** Joining the tokens with the separator gives the string back. */
  lemma JoinOfTokens(s: string, sep: string)
    requires sep != ""
    ensures Join(Tokens(s, sep), sep) == s
  {
    JoinScan(s, sep, 0, 0);
    assert s[0..] == s;
  }

  // ---------------------------------------------------------------- which token lists are splits

  lemma CleanCons(t: string, ts: seq<string>, sep: string)
    requires Ends(t, sep) && Clean(ts, sep)
    ensures Clean([t] + ts, sep)
  {
    assert ([t] + ts)[1..] == ts;
  }

  lemma {:induction false} ScanClean(s: string, sep: string, start: nat, j: nat)
    requires sep != "" && start <= j && start <= |s|
    requires forall i :: start <= i < j ==> !At(s, sep, i)
    ensures Clean(Scan(s, sep, start, j), sep)
    decreases |s| - j
  {
    if j + |sep| > |s| {
      TokenLast(s, sep, start, j);
    } else if At(s, sep, j) {
      var next := j + |sep|;
      ScanClean(s, sep, next, next);
      TokenEnds(s, sep, start, j);
      CleanCons(s[start..j], Scan(s, sep, next, next), sep);
    } else {
      ScanClean(s, sep, start, j + 1);
    }
  }

  lemma ScanLast(p: string, t: string, sep: string, j: nat)
    requires sep != "" && !Contains(t, sep) && |p| <= j
    ensures Scan(p + t, sep, |p|, j) == [t]
    decreases |p + t| - j
  {
    if j + |sep| <= |p + t| {
      AtInside(p, t, "", sep, j - |p|);
      assert p + t + "" == p + t;
      ScanLast(p, t, sep, j + 1);
    }
  }

  lemma ScanFirst(p: string, t: string, sep: string, w: string, j: nat)
    requires sep != "" && Ends(t, sep) && |p| <= j <= |p + t|
    ensures var s, next := p + (t + sep) + w, |p + t| + |sep|;
            Scan(s, sep, |p|, j) == [t] + Scan(s, sep, next, next)
    decreases |p + t| - j
  {
    var s := p + (t + sep) + w;
    AtInside(p, t + sep, w, sep, j - |p|);
    if j < |p + t| {
      ScanFirst(p, t, sep, w, j + 1);
    } else {
      assert (t + sep)[|t|..|t| + |sep|] == sep;
      assert s[|p|..j] == t;
    }
  }

  lemma JoinApart(p: string, ts: seq<string>, sep: string)
    requires |ts| > 1
    ensures p + Join(ts, sep) == p + (ts[0] + sep) + Join(ts[1..], sep)
    ensures ts == [ts[0]] + ts[1..]
  {}

  lemma {:induction false} ScanOfJoin(p: string, ts: seq<string>, sep: string, s: string)
    requires sep != "" && Clean(ts, sep) && s == p + Join(ts, sep)
    ensures Scan(s, sep, |p|, |p|) == ts
    decreases |ts|
  {
    if |ts| == 1 {
      ScanLast(p, ts[0], sep, |p|);
      assert ts == [ts[0]];
    } else {
      JoinApart(p, ts, sep);
      ScanFirst(p, ts[0], sep, Join(ts[1..], sep), |p|);
      ScanOfJoin(p + (ts[0] + sep), ts[1..], sep, s);
    }
  }

  /** The pieces of s are the one clean token list that joins to s. */
  lemma PiecesUnique(s: string, sep: string, ts: seq<string>)
    requires sep != ""
    ensures ts == Pieces(s, sep) <==> Join(ts, sep) == s && Clean(ts, sep)
  {
    JoinScan(s, sep, 0, 0);
    assert s[0..] == s;
    ScanClean(s, sep, 0, 0);
    if Clean(ts, sep) {
      ScanOfJoin("", ts, sep, Join(ts, sep));
      assert "" + Join(ts, sep) == Join(ts, sep);
    }
  }

  lemma EndsContainsNone(t: string, sep: string)
    requires Ends(t, sep)
    ensures !Contains(t, sep)
  {
    forall i | 0 <= i < |t| ensures !At(t, sep, i) {
      if i + |sep| <= |t| {
        AtInside("", t, sep, sep, i);
        assert "" + t + sep == t + sep;
      }
    }
  }

  lemma {:induction false} CleanContainsNone(ts: seq<string>, sep: string, k: nat)
    requires Clean(ts, sep) && k < |ts|
    ensures !Contains(ts[k], sep)
    decreases k
  {
    if |ts| > 1 {
      if k == 0 { EndsContainsNone(ts[0], sep); } else { CleanContainsNone(ts[1..], sep, k - 1); }
    }
  }

  lemma NoTokenContains(s: string, sep: string)
    requires sep != ""
    ensures forall t :: t in Tokens(s, sep) ==> !Contains(t, sep)
  {
    ScanClean(s, sep, 0, 0);
    var ts := Pieces(s, sep);
    forall k | 0 <= k < |ts| ensures !Contains(ts[k], sep) { CleanContainsNone(ts, sep, k); }
  }

  // ---------------------------------------------------------------- one-character separators

  lemma AtChar(t: string, c: char, i: nat)
    ensures At(t, [c], i) <==> i < |t| && t[i] == c
  {
    if i < |t| { assert t[i..i + 1] == [t[i]]; }
  }

  lemma ContainsChar(t: string, c: char)
    ensures Contains(t, [c]) <==> c in t
    ensures Ends(t, [c]) <==> c !in t
  {
    forall i: nat ensures At(t, [c], i) <==> i < |t| && t[i] == c { AtChar(t, c, i); }
    var u := t + [c];
    forall i: nat ensures At(u, [c], i) <==> i < |u| && u[i] == c { AtChar(u, c, i); }
    assert forall i :: 0 <= i < |t| ==> u[i] == t[i];
  }

  lemma {:induction false} CleanChars(ts: seq<string>, c: char)
    ensures Clean(ts, [c]) <==> ts != [] && forall t :: t in ts ==> c !in t
    decreases |ts|
  {
    if ts != [] {
      ContainsChar(ts[0], c);
      CleanChars(ts[1..], c);
    }
  }

  /** Splitting undoes joining separator-free tokens; only the single empty token is lost. */
  lemma TokensOfJoin(ts: seq<string>, c: char)
    requires forall t :: t in ts ==> c !in t
    ensures Tokens(Join(ts, [c]), [c]) == if ts == [""] then [] else ts
  {
    CleanChars(ts, c);
    if ts != [] {
      PiecesUnique(Join(ts, [c]), [c], ts);
      if |ts| == 1 { assert ts == [ts[0]]; }
    }
  }

  lemma {:induction false} JoinConcat(a: seq<string>, b: seq<string>, sep: string)
    requires a != [] && b != []
    ensures Join(a + b, sep) == Join(a, sep) + sep + Join(b, sep)
    decreases |a|
  {
    assert (a + b)[1..] == a[1..] + b;
    if |a| > 1 { JoinConcat(a[1..], b, sep); }
  }

  /** Texts set side by side with a separator between them are split side by side. */
  lemma PiecesConcat(a: string, b: string, c: char)
    ensures Pieces(a + [c] + b, [c]) == Pieces(a, [c]) + Pieces(b, [c])
  {
    var x, y := Pieces(a, [c]), Pieces(b, [c]);
    PiecesUnique(a, [c], x);
    PiecesUnique(b, [c], y);
    JoinConcat(x, y, [c]);
    CleanChars(x, c);
    CleanChars(y, c);
    CleanChars(x + y, c);
    PiecesUnique(a + [c] + b, [c], x + y);
  }
}

/** The loop that cuts, with its growing token array. */
module Splitting {
  import opened Splits

  lemma AtFirst(s: string, sep: string, j: nat)
    requires sep != "" && j + |sep| <= |s|
    ensures At(s, sep, j) <==> (|sep| == 1 && s[j] == sep[0]) || s[j..j + |sep|] == sep
  {
    if |sep| == 1 { assert s[j..j + 1] == [s[j]]; }
  }

  /** The token array starts with five slots and doubles; every store is within it. */
  method SplitLen(s: string, sep: string) returns (tokens: array?<string>, count: nat)
    ensures tokens == null <==> sep == ""
    ensures tokens != null ==> count <= tokens.Length && tokens[..count] == Tokens(s, sep)
    ensures tokens != null ==> fresh(tokens) && (tokens.Length == 5 || tokens.Length <= 2 * count)
  {
    if |sep| < 1 { return null, 0; }
    var vector := new string[5];
    if |s| == 0 { return vector, 0; }
    var elements, start, j := 0, 0, 0;
    ghost var done: seq<string> := [];
    while j < |s| - (|sep| - 1)
      invariant fresh(vector) && (vector.Length == 5 || vector.Length <= 2 * (elements + 1))
      invariant 0 <= start <= j && start <= |s| && 0 <= elements < vector.Length
      invariant vector[..elements] == done
      invariant Sofar(done, s, sep, start, j)
    {
      vector := MakeSlot(vector, elements);
      AtFirst(s, sep, j);
      if (|sep| == 1 && s[j] == sep[0]) || s[j..j + |sep|] == sep {
        done := CutToken(vector, elements, s, sep, start, j, done);
        elements := elements + 1;
        start := j + |sep|;
        j := start - 1;
      } else {
        SofarMiss(done, s, sep, start, j);
      }
      j := j + 1;
    }
    SofarEnd(done, s, sep, start, j);
    Store(vector, elements, s[start..]);
    elements := elements + 1;
    return vector, elements;
  }

  /** Store the token that ends at j. */
  method CutToken(tokens: array<string>, elements: nat, s: string, sep: string, start: nat, j: nat,
                  ghost done: seq<string>) returns (ghost more: seq<string>)
    requires elements < tokens.Length && tokens[..elements] == done
    requires sep != "" && Sofar(done, s, sep, start, j) && At(s, sep, j)
    modifies tokens
    ensures tokens[..elements + 1] == more && Sofar(more, s, sep, j + |sep|, j + |sep|)
  {
    SofarHit(done, s, sep, start, j);
    more := done + [s[start..j]];
    Store(tokens, elements, s[start..j]);
  }

  method Store(tokens: array<string>, elements: nat, t: string)
    requires elements < tokens.Length
    modifies tokens
    ensures tokens[..elements + 1] == old(tokens[..elements]) + [t]
  {
    tokens[elements] := t;
  }

  /** The array itself while it has two free slots, else a copy twice as long. */
  method MakeSlot(tokens: array<string>, elements: nat) returns (bigger: array<string>)
    requires elements < tokens.Length
    ensures bigger == tokens || (fresh(bigger) && bigger.Length == 2 * tokens.Length)
    ensures bigger != tokens <==> tokens.Length < elements + 2
    ensures bigger[..elements] == tokens[..elements]
  {
    if tokens.Length >= elements + 2 { return tokens; }
    bigger := new string[tokens.Length * 2];
    for i := 0 to elements
      invariant bigger[..i] == tokens[..i]
    {
      bigger[i] := tokens[i];
    }
  }
}
