/** What splitting and normalising a URL mean. */
module Urls {
  import opened Args
  import opened CString
  import opened CText
  import opened Numbers
  import opened Options

  // ---------------------------------------------------------------- domain, port and path

  /** Ports are C ints. */
  const INT_MAX := 0x7FFF_FFFF

  datatype Url = Url(domain: string, port: int, path: string)

  function PortOf(s: string): int {
    var n := Atoi(s);
    if n == 0 then 80 else n
  }

  /** Cut at the first '/', then the part before it at its first ':'. */
  function Parsed(s: string): Url {
    var i := FirstOf(s, '/');
    var host := s[..i];
    var j := FirstOf(host, ':');
    Url(host[..j], if j < |host| then PortOf(host[j + 1..]) else 80, if i < |s| then s[i + 1..] else "")
  }

  lemma CutAtFirst(a: string, c: char, b: string)
    requires c !in a
    ensures FirstOf(a + [c] + b, c) == |a| && (a + [c] + b)[..|a|] == a && (a + [c] + b)[|a| + 1..] == b
  {
    var s := a + [c] + b;
    assert s[..|a|] == a;
    FirstOfIs(s, c, |a|);
  }

  lemma NoCut(a: string, c: char)
    ensures c !in a <==> FirstOf(a, c) == |a|
  {
    if c !in a {
      assert a[..|a|] == a;
      FirstOfIs(a, c, |a|);
    } else {
      assert a[..|a|] == a;
    }
  }

  lemma PathOf(host: string, path: string)
    requires '/' !in host
    ensures Parsed(host + "/" + path) == Parsed(host).(path := path)
  {
    CutAtFirst(host, '/', path);
    NoCut(host, '/');
    assert host[..|host|] == host;
  }

  lemma PortText(domain: string, port: nat)
    requires '/' !in domain && ':' !in domain
    ensures '/' !in domain + ":" + Decimal(port)
    ensures Parsed(domain + ":" + Decimal(port)) == Url(domain, if port == 0 then 80 else port, "")
  {
    var host := domain + ":" + Decimal(port);
    DecimalDigits(port);
    NoCut(host, '/');
    assert host[..|host|] == host;
    CutAtFirst(domain, ':', Decimal(port));
    AtoiDecimal(port, "");
    assert Decimal(port) + "" == Decimal(port);
  }

  /** A cut domain contains neither mark, whatever was cut. */
  lemma DomainClean(s: string)
    ensures '/' !in Parsed(s).domain && ':' !in Parsed(s).domain
  {
    var host := s[..FirstOf(s, '/')];
    var domain := host[..FirstOf(host, ':')];
    assert forall c :: c in domain ==> c in host;
  }

  /** domain:port/path comes apart into its parts exactly when the domain holds neither mark and the port is not 0. */
  lemma RoundTrip(domain: string, port: nat, path: string)
    requires port <= INT_MAX
    ensures Parsed(domain + ":" + Decimal(port) + "/" + path) == Url(domain, port, path)
            <==> '/' !in domain && ':' !in domain && port != 0
  {
    var s := domain + ":" + Decimal(port) + "/" + path;
    DomainClean(s);
    if '/' !in domain && ':' !in domain {
      PortText(domain, port);
      PathOf(domain + ":" + Decimal(port), path);
    }
  }

  /** Without a port, 80 is taken; without a '/', the path is empty. */
  lemma Defaults(domain: string, port: nat, path: string)
    requires '/' !in domain && ':' !in domain && port <= INT_MAX
    ensures Parsed(domain) == Url(domain, 80, "")
    ensures Parsed(domain + "/" + path) == Url(domain, 80, path)
    ensures port != 0 ==> Parsed(domain + ":" + Decimal(port)) == Url(domain, port, "")
  {
    NoCut(domain, '/');
    NoCut(domain, ':');
    assert domain[..|domain|] == domain;
    PathOf(domain, path);
    PortText(domain, port);
  }

  // ---------------------------------------------------------------- normalising

  const MAX_LINK_LEN := 128

  function WithoutScheme(t: string): string {
    if |t| > 7 && t[..4] == "http" then t[if t[4] == 's' then 8 else 7..] else t
  }

  /** One closing '/' goes. */
  function WithoutSlash(u: string): string {
    if u != "" && u[|u| - 1] == '/' then u[..|u| - 1] else u
  }

  function Normalized(s: string): Option<string> {
    var t := TrimRight(s, SPACES);
    if t == "" then None
    else
      var v := WithoutSlash(WithoutScheme(t));
      if |v| > MAX_LINK_LEN then None else Some(v)
  }

  /** Eight characters that start with "https": nothing is left behind the scheme. */
  predicate Bare(s: string) {
    var t := TrimRight(s, SPACES);
    |t| == 8 && t[..5] == "https"
  }

  /** Exactly then the code looks for the closing '/' one character before its buffer. */
  lemma BareExactly(s: string)
    ensures var t := TrimRight(s, SPACES); t != "" ==> (Bare(s) <==> WithoutScheme(t) == "")
  {
    var t := TrimRight(s, SPACES);
    if |t| > 7 { assert t[..5] == t[..4] + [t[4]]; }
  }

  const SCHEMES: set<string> := {"", "http://", "https://"}

  lemma TrimSpaces(t: string, w: string)
    requires t != "" && t[|t| - 1] !in SPACES && forall c :: c in w ==> c in SPACES
    ensures TrimRight(t + w, SPACES) == t
  {
    TrimRightIs(t + w, SPACES, |t|);
    assert (t + w)[..|t|] == t;
  }

  /** A link worth keeping as it is. */
  predicate Canonical(u: string) {
    u != "" && u[|u| - 1] !in SPACES + {'/'} && |u| <= MAX_LINK_LEN && !(|u| >= 4 && u[..4] == "http")
  }

  lemma StripScheme(scheme: string, t: string)
    requires scheme in SCHEMES && t != "" && !(|t| >= 4 && t[..4] == "http")
    ensures WithoutScheme(scheme + t) == t
  {
    if scheme == "" {
      assert scheme + t == t;
    } else {
      assert (scheme + t)[..4] == scheme[..4] == "http";
      assert (scheme + t)[|scheme|..] == t;
      assert (scheme + t)[4] == scheme[4];
    }
  }

  lemma WithSlash(u: string, slash: string)
    requires Canonical(u) && slash in {"", "/"}
    ensures var v := u + slash;
            v != "" && v[|v| - 1] !in SPACES && !(|v| >= 4 && v[..4] == "http") && WithoutSlash(v) == u
  {
    var v := u + slash;
    if slash == "" {
      assert v == u;
    } else {
      assert v[..|v| - 1] == u && v[|v| - 1] == '/';
      if |u| >= 4 { assert v[..4] == u[..4]; } else if |v| >= 4 { assert v[..4][3] == '/'; }
    }
  }

  /** Scheme, one closing '/' and trailing spaces are what normalising takes away. */
  lemma SameLink(scheme: string, u: string, slash: string, w: string)
    requires scheme in SCHEMES && Canonical(u) && slash in {"", "/"} && forall c :: c in w ==> c in SPACES
    ensures Normalized(scheme + u + slash + w) == Some(u) && !Bare(scheme + u + slash + w)
  {
    var v := u + slash;
    var t := scheme + v;
    var s := scheme + u + slash + w;
    WithSlash(u, slash);
    assert s == t + w && t[|t| - 1] == v[|v| - 1];
    TrimSpaces(t, w);
    StripScheme(scheme, v);
    BareExactly(s);
  }

  /** Which links normalising leaves alone. */
  lemma FixedPoints(u: string)
    ensures Normalized(u) == Some(u) <==>
            u != "" && u[|u| - 1] !in SPACES + {'/'} && |u| <= 128 && !Schemed(u)
  {
    if u != "" && u[|u| - 1] !in SPACES {
      assert TrimRight(u, SPACES) == u;
    } else if u != "" {
      ShorterTrim(u[..|u| - 1]);
    }
  }

  /** Long enough and starting so that normalising takes seven or eight characters for a scheme. */
  predicate Schemed(t: string) {
    |t| > 7 && t[..4] == "http"
  }

  lemma {:induction false} ShorterTrim(s: string)
    ensures |TrimRight(s, SPACES)| <= |s|
    decreases |s|
  {
    if s != "" && s[|s| - 1] in SPACES { ShorterTrim(s[..|s| - 1]); }
  }

  lemma {:induction false} TrimEnds(s: string)
    ensures var t := TrimRight(s, SPACES); t != "" ==> t[|t| - 1] !in SPACES
    decreases |s|
  {
    if s != "" && s[|s| - 1] in SPACES { TrimEnds(s[..|s| - 1]); }
  }

  lemma SecondOf(u: string)
    requires (u != "" ==> u[|u| - 1] !in SPACES) && |WithoutSlash(u)| <= MAX_LINK_LEN
    ensures var v := WithoutSlash(u);
            Normalized(v) == Some(v) <==>
            && u != "" && u != "/"
            && (|u| > 1 && u[|u| - 1] == '/' ==> u[|u| - 2] !in SPACES + {'/'})
            && !Schemed(v)
  {
    FixedPoints(WithoutSlash(u));
    SlashGone(u);
  }

  /**
   * When a second pass changes nothing: behind the scheme there must be something besides one '/', a closing '/'
   * must not follow another one or a space, and what is kept must not look like a scheme again.
   */
  lemma SecondPass(s: string)
    requires Normalized(s).Some?
    ensures var u, v := WithoutScheme(TrimRight(s, SPACES)), Normalized(s).value;
            Normalized(v) == Some(v) <==>
            && u != "" && u != "/"
            && (|u| > 1 && u[|u| - 1] == '/' ==> u[|u| - 2] !in SPACES + {'/'})
            && !Schemed(WithoutSlash(u))
  {
    var t := TrimRight(s, SPACES);
    var u := WithoutScheme(t);
    TrimEnds(s);
    assert u != "" ==> u[|u| - 1] == t[|t| - 1];
    SecondOf(u);
  }

  lemma SlashGone(u: string)
    ensures var v := WithoutSlash(u);
            && |v| <= |u| && (v == "" <==> u == "" || u == "/")
            && (|u| > 1 ==> v[|v| - 1] == if u[|u| - 1] == '/' then u[|u| - 2] else u[|u| - 1])
  {}

  /** Such links exist: one closing '/' goes at a time. */
  lemma NotIdempotent()
    ensures Normalized("a//") == Some("a/") && Normalized("a/") == Some("a")
  {
    var s, t := "a//", "a/";
    assert TrimRight(s, SPACES) == s && TrimRight(t, SPACES) == t;
    assert s[..2] == t && t[..1] == "a";
  }
}

/** The two functions as they are written, over one buffer. */
module UrlParsing {
  import opened Args
  import opened CString
  import opened CText
  import opened Numbers
  import opened Options
  import opened Urls

  lemma TextStops(a: seq<char>)
    requires Terminated(a)
    ensures var n := |Text(a, 0)|; n < |a| && a[n] == NUL && Text(a, n) == ""
  {
    NulFound(a);
  }

  /** A NUL stored at p cuts the text there and leaves what follows. */
  lemma CutText(a: seq<char>, p: nat, q: nat)
    requires Terminated(a)
    requires p <= |Text(a, 0)| && p <= q <= |Text(a, 0)| && (p == q ==> p == |Text(a, 0)|)
    ensures p < |a| && q < |a| && Text(a[p := NUL], 0) == Text(a, 0)[..p]
    ensures Text(a[p := NUL], q) == Text(a, 0)[q..] == Text(a, q)
  {
    NulFound(a);
    var n, b := Nul(a, 0), a[p := NUL];
    TextIs(b, 0, p);
    TextIs(b, q, n);
    TextIs(a, q, n);
  }

  /** strchr, and a NUL in place of what it found. */
  method Cut(buf: array<char>, c: char) returns (found: bool, p: nat)
    requires Terminated(buf[..]) && c != NUL
    modifies buf
    ensures p < buf.Length && buf[..] == old(buf[..])[p := NUL]
    ensures p == FirstOf(old(Text(buf[..], 0)), c)
    ensures found <==> p < |old(Text(buf[..], 0))|
  {
    found, p := StrChr(buf, c);
    TextStops(buf[..]);
    if found { buf[p] := NUL; }
  }

  lemma StillTerminated(a: seq<char>, p: nat)
    requires p < |a|
    ensures Terminated(a[p := NUL])
  {
    assert a[p := NUL][p] == NUL;
  }

  /** The port, after the host's first ':', which is cut off with it. */
  method CutPort(buf: array<char>) returns (port: int, ghost j: nat)
    requires Terminated(buf[..])
    modifies buf
    ensures ghost var host := old(Text(buf[..], 0));
            && j == FirstOf(host, ':') && j < buf.Length && buf[..] == old(buf[..])[j := NUL]
            && Text(buf[..], 0) == host[..j]
            && port == if j < |host| then PortOf(host[j + 1..]) else 80
  {
    ghost var a := buf[..];
    var found, p := Cut(buf, ':');
    j := p;
    CutText(a, p, if found then p + 1 else p);
    port := 80;
    if found {
      port := Atoi(Text(buf[..], p + 1));
      if port == 0 { port := 80; }
    }
  }

  /** A cut in the part before i does not touch the text behind it. */
  lemma PathStays(a: seq<char>, i: nat, j: nat, path: nat)
    requires Terminated(a) && j <= i <= |Text(a, 0)| && path == if i < |Text(a, 0)| then i + 1 else i
    ensures i < |a| && path < |a|
    ensures Text(a[i := NUL][j := NUL], path) == Text(a, 0)[path..]
  {
    NulFound(a);
    TextIs(a[i := NUL][j := NUL], path, Nul(a, 0));
  }

  /** Both cuts are made in place; domain is the text at 0 and path the text at the position returned. */
  method Surl2Ourl(buf: array<char>) returns (path: nat, port: int)
    requires Terminated(buf[..])
    modifies buf
    ensures path < buf.Length
    ensures Parsed(old(Text(buf[..], 0))) == Url(Text(buf[..], 0), port, Text(buf[..], path))
  {
    ghost var a := buf[..];
    var n := StrLen(buf);
    var found, i := Cut(buf, '/');
    path := if found then i + 1 else n;
    StillTerminated(a, i);
    CutText(a, i, path);
    ghost var j;
    port, j := CutPort(buf);
    PathStays(a, i, j, path);
  }

  /** Drop the first k characters by way of a copy; the buffer is cleared before the rest is written back. */
  method DropFront(url: array<char>, len: nat, k: nat) returns (rest: nat)
    requires Terminated(url[..]) && k <= len == |Text(url[..], 0)|
    modifies url
    ensures rest == len - k
    ensures Terminated(url[..]) && Text(url[..], 0) == old(Text(url[..], 0))[k..]
  {
    ghost var s := Text(url[..], 0);
    TextPrefix(url[..]);
    assert forall i :: 0 <= i < len ==> s[i] == url[i] && s[i] != NUL;
    rest := len - k;
    var tmp := new char[rest + 1](_ => NUL);
    forall i | 0 <= i < rest { tmp[i] := url[k + i]; }
    forall i | 0 <= i < len { url[i] := NUL; }
    forall i | 0 <= i < rest { url[i] := tmp[i]; }
    assert url[..][rest] == NUL;
    assert forall i :: 0 <= i < rest ==> url[i] == s[k + i];
    TextIs(url[..], 0, rest);
    assert url[..][0..rest] == s[k..];
  }

  method SetNul(url: array<char>, len: nat)
    requires Terminated(url[..]) && len <= |Text(url[..], 0)|
    modifies url
    ensures Terminated(url[..]) && len < url.Length && Text(url[..], 0) == old(Text(url[..], 0))[..len]
  {
    TextStops(url[..]);
    ghost var a := url[..];
    CutText(a, len, |Text(a, 0)|);
    StillTerminated(a, len);
    url[len] := NUL;
    assert url[..] == a[len := NUL];
  }

  method TrimEnd(url: array<char>) returns (len: nat)
    requires Terminated(url[..])
    modifies url
    ensures Terminated(url[..]) && Text(url[..], 0) == TrimRight(old(Text(url[..], 0)), SPACES)
    ensures len == |Text(url[..], 0)|
  {
    ghost var s := Text(url[..], 0);
    len := StrLen(url);
    while len > 0 && url[len - 1] in SPACES
      invariant len <= |s| && s == url[..|s|] && forall k :: len <= k < |s| ==> s[k] in SPACES
    {
      len := len - 1;
    }
    TrimRightIs(s, SPACES, len);
    SetNul(url, len);
  }

  lemma TextPrefix(a: seq<char>)
    requires Terminated(a)
    ensures |Text(a, 0)| < |a| && Text(a, 0) == a[..|Text(a, 0)|]
  {
    NulFound(a);
  }

  method DropScheme(url: array<char>, len: nat) returns (rest: nat)
    requires Terminated(url[..]) && len == |Text(url[..], 0)|
    modifies url
    ensures Terminated(url[..]) && Text(url[..], 0) == WithoutScheme(old(Text(url[..], 0)))
    ensures rest == |Text(url[..], 0)|
  {
    ghost var t := Text(url[..], 0);
    TextPrefix(url[..]);
    assert url[..len] == t;
    rest := len;
    if len > 7 && url[..4] == "http" {
      assert t[..4] == url[..4];
      var vlen := 7;
      if url[4] == 's' { vlen := 8; }
      rest := DropFront(url, len, vlen);
    } else {
      assert len > 7 ==> t[..4] == url[..4];
    }
  }

  /** Looks one character before the end; with nothing left that is the character `before` the buffer. */
  method DropSlash(url: array<char>, len: nat, before: char) returns (rest: int, before': char)
    requires Terminated(url[..]) && len == |Text(url[..], 0)|
    modifies url
    ensures Text(url[..], 0) == WithoutSlash(old(Text(url[..], 0))) && rest <= |Text(url[..], 0)|
    ensures if rest >= 0 then rest == |Text(url[..], 0)| else Text(url[..], 0) == ""
    ensures before' == if len == 0 && before == '/' then NUL else before
  {
    TextPrefix(url[..]);
    rest, before' := len, before;
    if len == 0 {
      if before == '/' {
        rest := -1;
        before' := NUL;
      }
    } else if url[len - 1] == '/' {
      rest := len - 1;
      SetNul(url, rest);
    }
  }

  /**
   * The buffer, trimmed, without its scheme and without one closing '/', unless it was blank or too much is left.
   * The character before the buffer is looked at, and changed if it is a '/', only where nothing follows the scheme.
   */
  method UrlNormalized(url: array<char>, before: char) returns (ok: bool, before': char)
    requires Terminated(url[..])
    modifies url
    ensures ok <==> Normalized(old(Text(url[..], 0))).Some?
    ensures ok ==> Normalized(old(Text(url[..], 0))) == Some(Text(url[..], 0))
    ensures before' == if Bare(old(Text(url[..], 0))) && before == '/' then NUL else before
  {
    BareExactly(Text(url[..], 0));
    var len := TrimEnd(url);
    if len == 0 { return false, before; }
    len := DropScheme(url, len);
    var rest;
    rest, before' := DropSlash(url, len, before);
    return rest <= MAX_LINK_LEN, before';
  }
}
