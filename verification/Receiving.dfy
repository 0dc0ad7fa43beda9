/** The receive loop over its one buffer. */
module Receiving {
  import opened Configs
  import opened CString
  import opened CText
  import opened Headers
  import opened Numbers
  import opened Options
  import opened Responses
  import opened Splits
  import opened Splitting

  const HTML_MAXLEN := 1024 * 1024

  // ---------------------------------------------------------------- searching and cutting

  lemma AtText(a: seq<char>, start: nat, pat: string, p: nat)
    requires start <= p && start <= |a| && p + |pat| <= Nul(a, start)
    ensures At(Text(a, start), pat, p - start) <==> a[p..p + |pat|] == pat
  {
    var t := Text(a, start);
    var u, v := t[p - start..p - start + |pat|], a[p..p + |pat|];
    forall k | 0 <= k < |pat| ensures u[k] == v[k] { assert u[k] == t[p - start + k] == a[p + k]; }
    assert u == v;
  }

  method StrStr(buf: array<char>, start: nat, pat: string) returns (found: bool, p: nat)
    requires start <= buf.Length && Nul(buf[..], start) < buf.Length && pat != ""
    ensures p == start + IndexOf(Text(buf[..], start), pat)
    ensures found <==> p < Nul(buf[..], start)
  {
    var n := StrEnd(buf, start);
    ghost var t := Text(buf[..], start);
    p := start;
    while p + |pat| <= n && buf[p..p + |pat|] != pat
      invariant start <= p <= n && IndexFrom(t, pat, p - start) == IndexOf(t, pat)
    {
      AtText(buf[..], start, pat, p);
      assert buf[..][p..p + |pat|] == buf[p..p + |pat|];
      p := p + 1;
    }
    found := p + |pat| <= n;
    if found {
      AtText(buf[..], start, pat, p);
      assert buf[..][p..p + |pat|] == buf[p..p + |pat|];
    } else {
      p := n;
    }
  }

  /** A line cut off at p, and the rest behind its line end. */
  lemma CutLine(a: seq<char>, start: nat, p: nat)
    requires start <= p && start <= |a| && p + 2 <= Nul(a, start) < |a|
    ensures Text(a[p := NUL], start) == Text(a, start)[..p - start]
    ensures Nul(a[p := NUL], p + 2) == Nul(a, start)
    ensures Text(a[p := NUL], p + 2) == Text(a, start)[p - start + 2..]
  {
    var b, n := a[p := NUL], Nul(a, start);
    TextIs(b, start, p);
    TextIs(b, p + 2, n);
    NulIs(b, p + 2, n);
  }

  lemma NulIs(a: seq<char>, i: nat, n: nat)
    requires i <= n < |a| && a[n] == NUL && forall k :: i <= k < n ==> a[k] != NUL
    ensures Nul(a, i) == n
  {}

  method CutOff(buf: array<char>, start: nat, p: nat)
    requires start <= p && start <= buf.Length && p + 2 <= Nul(buf[..], start) < buf.Length
    modifies buf
    ensures Text(buf[..], start) == old(Text(buf[..], start))[..p - start]
    ensures Nul(buf[..], p + 2) == Nul(old(buf[..]), start)
    ensures Text(buf[..], p + 2) == old(Text(buf[..], start))[p - start + 2..]
    ensures forall k :: p < k < buf.Length ==> buf[k] == old(buf[k])
  {
    CutLine(buf[..], start, p);
    ghost var a := buf[..];
    buf[p] := NUL;
    assert buf[..] == a[p := NUL];
  }

  // ---------------------------------------------------------------- the header

  method Status(line: string) returns (code: int)
    ensures code == StatusOf(line)
  {
    var tokens, c := SplitLen(line, " ");
    if c == 3 {
      assert tokens[..c][1] == tokens[1];
      code := Atoi(tokens[1]);
    } else {
      code := 600;
    }
  }

  method Field(h: Header, line: string) returns (r: Header)
    ensures r == WithField(h, line)
  {
    var tokens, c := SplitLen(line, ":");
    r := h;
    if c == 2 {
      assert tokens[..c][0] == tokens[0] && tokens[..c][1] == tokens[1];
      if Lower(tokens[0]) == "content-type" {
        var cs := new CStr(tokens[1]);
        cs.Trim(BLANKS);
        r := h.(contentType := Some(cs.buf[..cs.len]));
      }
    }
  }

  lemma NextField(h: Header, s: string, i: nat, line: string, rest: string, next: Header)
    requires i == IndexOf(s, CRLF) < |s| && i + 2 <= |s| && line == s[..i] && rest == s[i + 2..]
    requires next == WithField(h, line)
    ensures WithFields(next, rest) == WithFields(h, s)
  {}

  /** A field line a time from start, for as long as line ends follow; behind the text nothing changes. */
  method ParseFields(buf: array<char>, from: nat, h0: Header) returns (h: Header)
    requires from <= buf.Length && Nul(buf[..], from) < buf.Length
    modifies buf
    ensures h == WithFields(h0, old(Text(buf[..], from)))
    ensures forall k :: Nul(old(buf[..]), from) <= k < buf.Length ==> buf[k] == old(buf[k])
  {
    ghost var n, rest := Nul(buf[..], from), Text(buf[..], from);
    ghost var goal := WithFields(h0, rest);
    h := h0;
    var start := from;
    var found, p := StrStr(buf, start, CRLF);
    while found
      invariant start <= n && Nul(buf[..], start) == n && Text(buf[..], start) == rest
      invariant p == start + IndexOf(rest, CRLF) && (found <==> p < n)
      invariant WithFields(h, rest) == goal
      invariant forall k :: n <= k < buf.Length ==> buf[k] == old(buf[k])
      decreases n - start
    {
      assert At(rest, CRLF, p - start);
      CutOff(buf, start, p);
      var next := Field(h, Text(buf[..], start));
      NextField(h, rest, p - start, Text(buf[..], start), rest[p - start + 2..], next);
      h := next;
      rest := rest[p - start + 2..];
      start := p + 2;
      found, p := StrStr(buf, start, CRLF);
    }
  }

  /** Cuts the header text into lines in place; behind the text nothing changes. */
  method ParseHeader(buf: array<char>) returns (h: Header)
    requires Terminated(buf[..])
    modifies buf
    ensures h == HeaderOf(old(Text(buf[..], 0)))
    ensures forall k :: |old(Text(buf[..], 0))| <= k < buf.Length ==> buf[k] == old(buf[k])
  {
    NulFound(buf[..]);
    ghost var a := buf[..];
    h := Header(0, None);
    var found, p := StrStr(buf, 0, CRLF);
    if found {
      assert At(Text(a, 0), CRLF, p);
      CutOff(buf, 0, p);
      var code := Status(Text(buf[..], 0));
      h := ParseFields(buf, p + 2, Header(code, None));
    }
  }

  // ---------------------------------------------------------------- the loop

  class Response {
    var body: array<char>
    var len: nat
    var truncHead: bool
    var header: Option<Header>
    var bodyLen: nat

    constructor ()
      ensures body.Length == 1_048_576 && fresh(body) && len == 0 && !truncHead && header == None
    {
      body := new char[HTML_MAXLEN];
      len := 0;
      truncHead := false;
      header := None;
      bodyLen := 0;
    }

    /** The buffer and flags show how far the stream has come. */
    ghost predicate Holds(o: Responses.Outcome<Header>)
      reads this, body
    {
      && body.Length == HTML_MAXLEN && len < body.Length
      && match o
         case NoHeader(text) => !truncHead && header == None && body[..len] == text
         case Accepted(h, b) => truncHead && header == Some(h) && body[..len] == b
         case Rejected(h) => header == Some(h)
    }

    method Store(bytes: string)
      requires len + |bytes| < body.Length
      modifies this`len, body
      ensures len == old(len) + |bytes| && body[..len] == old(body[..len]) + bytes && body[len] == NUL
    {
      forall i | 0 <= i < |bytes| { body[len + i] := bytes[i]; }
      body[len + |bytes|] := NUL;
      len := len + |bytes|;
    }

    /** Moves the text at q to the front, in place and front to back; it ends at its first NUL. */
    method Shift(q: nat)
      requires q <= len < body.Length && body[len] == NUL
      modifies this`len, body
      ensures len < body.Length && body[..len] == Visible(old(body[q..len])) && body[len] == NUL
    {
      ghost var text := body[q..len];
      ghost var n := Nul(text, 0);
      var i, p := 0, q;
      while body[p] != NUL
        invariant len == old(len) && 0 <= i <= n && p == q + i
        invariant forall k :: 0 <= k < i ==> body[k] == text[k]
        invariant forall k :: p <= k < len ==> body[k] == text[k - q]
        invariant body[len] == NUL
        decreases |text| - i
      {
        assert p < len ==> body[p] == text[i];
        body[i] := body[p];
        i := i + 1;
        p := p + 1;
      }
      assert p < len ==> body[p] == text[i];
      body[i] := NUL;
      len := i;
    }

    /** Cuts the header off behind the line end at p, which it keeps, and parses it; the body stays where it is. */
    method CutHeader(p: nat, ghost data: string) returns (h: Header)
      requires len == |data| < body.Length && body[..len] == data && body[len] == NUL
      requires p + 4 <= |Visible(data)|
      modifies body
      ensures h == HeaderOf(data[..p + 2])
      ensures body[p + 4..len] == data[p + 4..] && body[len] == NUL
    {
      assert forall k :: 0 <= k < p + 4 ==> body[k] == data[k] && data[k] != NUL;
      body[p + 2] := NUL;
      TextIs(body[..], 0, p + 2);
      assert body[..][0..p + 2] == data[..p + 2];
      assert body[..][p + 2] in body[..];
      h := ParseHeader(body);
      assert forall k :: p + 4 <= k < len ==> body[k] == data[k];
      assert body[p + 4..len] == data[p + 4..];
    }

    /** The header is read and judged; unless it is refused the body moves to the front. */
    method TakeHeader(p: nat, ghost data: string, accept: Header -> bool) returns (ok: bool)
      requires body.Length == HTML_MAXLEN && len == |data| < body.Length && body[..len] == data && body[len] == NUL
      requires p == IndexOf(Visible(data), BLANK_LINE) < |Visible(data)| && !truncHead && header == None
      modifies this`len, this`truncHead, this`header, body
      ensures ok <==> !OutcomeOf(data, HeaderOf, accept).Rejected?
      ensures Holds(Taken(NoHeader(data), "", HeaderOf, accept))
      ensures ok ==> body[len] == NUL
    {
      OutcomeFound(data, p, HeaderOf, accept);
      assert data + "" == data;
      var h := CutHeader(p, data);
      header := Some(h);
      if !accept(h) { return false; }
      truncHead := true;
      Shift(p + 4);
      return true;
    }

    /** One successful read: more bytes, then the search for the blank line if it has not been seen. */
    method Take(bytes: string, ghost o: Responses.Outcome<Header>, accept: Header -> bool) returns (ok: bool)
      requires Holds(o) && !o.Rejected? && len + |bytes| < HTML_MAXLEN
      modifies this`len, this`truncHead, this`header, body
      ensures ok <==> !Taken(o, bytes, HeaderOf, accept).Rejected?
      ensures Holds(Taken(o, bytes, HeaderOf, accept)) && (ok ==> body[len] == NUL)
    {
      ghost var data := body[..len] + bytes;
      Store(bytes);
      ok := true;
      if !truncHead {
        TextVisible(body[..], len, data);
        TakenMore(o, bytes, HeaderOf, accept);
        var found, p := StrStr(body, 0, BLANK_LINE);
        if found { ok := TakeHeader(p, data, accept); }
      }
    }

    /**
     * All reads of one response: header and body are those the reads fold to.  Which way the reads cut the stream
     * makes no difference where IndependentExactly says so; retries never make one.
     */
    method Receive(events: seq<Read>, accept: Header -> bool) returns (end: Ending)
      requires body.Length == HTML_MAXLEN && len == 0 && !truncHead && header == None
      requires Fits(NoHeader(""), events, HTML_MAXLEN, HeaderOf, accept)
      modifies this`len, this`truncHead, this`header, this`bodyLen, body
      ensures var o := Folded(NoHeader(""), events, HeaderOf, accept);
              Holds(o) && end == if o.Rejected? then Refused else EndOf(events)
      ensures end == Finished ==> bodyLen == len
    {
      ghost var o: Responses.Outcome<Header> := NoHeader("");
      ghost var last := Folded(o, events, HeaderOf, accept);
      var i := 0;
      assert events[0..] == events;
      while i < |events|
        invariant 0 <= i <= |events| && Holds(o) && !o.Rejected?
        invariant Fits(o, events[i..], HTML_MAXLEN, HeaderOf, accept)
        invariant Folded(o, events[i..], HeaderOf, accept) == last && EndOf(events[i..]) == EndOf(events)
        decreases |events| - i
      {
        NextRead(o, events, i, HTML_MAXLEN, HeaderOf, accept);
        match events[i] {
          case Again =>
          case Fail => return Failed;
          case Eof =>
            bodyLen := len;
            return Finished;
          case Chunk(bytes) =>
            var ok := Take(bytes, o, accept);
            o := Taken(o, bytes, HeaderOf, accept);
            if !ok {
              RefusedStays(o, events[i + 1..], HeaderOf, accept);
              return Refused;
            }
        }
        i := i + 1;
      }
      return Waiting;
    }
  }

  /** The text in a buffer is what the string functions see of the bytes before the terminator. */
  lemma TextVisible(a: seq<char>, n: nat, data: string)
    requires n < |a| && a[n] == NUL && data == a[..n]
    ensures Text(a, 0) == Visible(data) && Nul(a, 0) == |Visible(data)|
  {
    var m := Nul(data, 0);
    assert forall k :: 0 <= k < n ==> a[k] == data[k];
    NulIs(a, 0, m);
    assert a[..m] == data[..m];
  }

  lemma TakenMore(o: Responses.Outcome<Header>, bytes: string, parse: string -> Header, accept: Header -> bool)
    requires o.NoHeader?
    ensures Taken(o, bytes, parse, accept) == Taken(NoHeader(o.text + bytes), "", parse, accept)
    ensures var t := Visible(o.text + bytes);
            IndexOf(t, BLANK_LINE) == |t| ==> Taken(o, bytes, parse, accept) == NoHeader(o.text + bytes)
  {
    assert o.text + bytes + "" == o.text + bytes;
  }
}
