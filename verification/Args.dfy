/** Cutting one configuration line into arguments. */
module Args {
  import opened Splits

  // isspace in the C locale
  const SPACES: set<char> := {' ', '\t', '\n', 11 as char, 12 as char, '\r'}
  const DELIMITERS: set<char> := {'=', '\n', '\r', '\t'}
  const QUOTES: set<char> := {'"', '\''}

  ghost predicate Unquoted(s: string) {
    forall c :: c in s ==> c !in QUOTES
  }

  // ---------------------------------------------------------------- the arguments of a line

  /** The arguments from p on, between two tokens; a space alone does not end a token. */
  function ArgsFrom(line: string, p: nat): seq<string>
    decreases |line| - p, 1
  {
    if p >= |line| then []
    else if line[p] in SPACES then ArgsFrom(line, p + 1)
    else TokenFrom(line, p, p)
  }

  /** The arguments from p on, within the token that began at start. */
  function TokenFrom(line: string, start: nat, p: nat): seq<string>
    requires start <= p <= |line|
    decreases |line| - p, 0
  {
    if p == |line| then [line[start..]]
    else if line[p] in DELIMITERS then [line[start..p]] + ArgsFrom(line, p + 1)
    else TokenFrom(line, start, p + 1)
  }

  function ArgsOf(line: string): seq<string> {
    ArgsFrom(line, 0)
  }

  // ---------------------------------------------------------------- the scanner, step by step

  datatype Mode = Skipping | InToken | DoubleQuoted | SingleQuoted | Finished

  datatype Scanner = Scanner(p: nat, current: string, args: seq<string>, mode: Mode)

  const START := Scanner(0, "", [], Skipping)

  /** One turn of whichever loop the scanner is in.  Inside quotes it only moves on, and stays there at the end. */
  function Step(line: string, s: Scanner): Scanner {
    var next := if s.p < |line| then s.p + 1 else s.p;
    match s.mode
    case Finished => s
    case DoubleQuoted | SingleQuoted => s.(p := next)
    case Skipping =>
      if s.p >= |line| then s.(mode := Finished)
      else if line[s.p] in SPACES then s.(p := next)
      else s.(current := "", mode := InToken)
    case InToken =>
      if s.p >= |line| || line[s.p] in DELIMITERS then
        Scanner(next, s.current, s.args + [s.current], Skipping)
      else if line[s.p] == '"' then s.(p := next, mode := DoubleQuoted)
      else if line[s.p] == '\'' then s.(p := next, mode := SingleQuoted)
      else s.(p := next, current := s.current + [line[s.p]])
  }

  function Steps(line: string, s: Scanner, n: nat): Scanner
    decreases n
  {
    if n == 0 then s else Steps(line, Step(line, s), n - 1)
  }

  ghost predicate Stops(line: string) {
    exists n: nat :: Steps(line, START, n).mode.Finished?
  }

  lemma TokenGrows(line: string, start: nat, p: nat)
    requires start <= p < |line|
    ensures line[start..p + 1] == line[start..p] + [line[p]]
  {}

  /** Without quotes the scanner stops, and holds the arguments. */
  lemma {:induction false} Arrives(line: string, s: Scanner) returns (n: nat)
    requires Unquoted(line) && s.p <= |line|
    requires s.mode.Skipping? || (s.mode.InToken? && |s.current| <= s.p && s.current == line[s.p - |s.current|..s.p])
    ensures Steps(line, s, n).mode.Finished?
    ensures s.mode.Skipping? ==> Steps(line, s, n).args == s.args + ArgsFrom(line, s.p)
    ensures s.mode.InToken? ==> Steps(line, s, n).args == s.args + TokenFrom(line, s.p - |s.current|, s.p)
    decreases |line| - s.p, s.mode.Skipping?
  {
    var t := Step(line, s);
    if t.mode.Finished? {
      n := 1;
      assert Steps(line, s, 1) == Steps(line, t, 0);
    } else if s.p == |line| {
      n := 2;
      var f := Step(line, t);
      assert Steps(line, s, 2) == Steps(line, t, 1) == Steps(line, f, 0);
      assert line[s.p - |s.current|..] == s.current;
    } else {
      if s.mode.InToken? { TokenGrows(line, s.p - |s.current|, s.p); }
      var m := Arrives(line, t);
      n := m + 1;
      if s.mode.InToken? {
        var rest := ArgsFrom(line, s.p + 1);
        assert (s.args + [s.current]) + rest == s.args + ([s.current] + rest);
      }
    }
  }

  /** A scanner not inside quotes has met none; it stops only at the end of the line. */
  lemma {:induction false} NeverQuoted(line: string, s: Scanner, n: nat)
    requires s.p <= |line|
    requires s.mode.Skipping? || s.mode.InToken? ==> Unquoted(line[..s.p])
    requires s.mode.Finished? ==> Unquoted(line)
    ensures Steps(line, s, n).mode.Finished? ==> Unquoted(line)
    decreases n
  {
    if n > 0 {
      var t := Step(line, s);
      if s.p < |line| { assert line[..s.p + 1] == line[..s.p] + [line[s.p]]; } else { assert line[..s.p] == line; }
      NeverQuoted(line, t, n - 1);
    }
  }

  /** The scanner stops exactly on the lines that hold no quote character. */
  lemma StopsExactly(line: string)
    ensures Stops(line) <==> '"' !in line && '\'' !in line
    ensures forall n: nat :: Steps(line, START, n).mode.Finished? ==> Steps(line, START, n).args == ArgsOf(line)
  {
    forall n: nat ensures Steps(line, START, n).mode.Finished? ==> Unquoted(line) { NeverQuoted(line, START, n); }
    if Unquoted(line) {
      var m := Arrives(line, START);
      forall n: nat ensures Steps(line, START, n).mode.Finished? ==> Steps(line, START, n) == Steps(line, START, m) {
        if Steps(line, START, n).mode.Finished? { Settled(line, START, m, n); }
      }
    }
  }

  lemma {:induction false} Settled(line: string, s: Scanner, m: nat, n: nat)
    requires Steps(line, s, m).mode.Finished? && Steps(line, s, n).mode.Finished?
    ensures Steps(line, s, m) == Steps(line, s, n)
    decreases m + n
  {
    if m > 0 && n > 0 {
      Settled(line, Step(line, s), m - 1, n - 1);
    } else if m > 0 {
      Settled(line, s, m - 1, n);
    } else if n > 0 {
      Settled(line, s, m, n - 1);
    }
  }

  // ---------------------------------------------------------------- joining with '='

  ghost predicate Plain(t: string) {
    (forall c :: c in t ==> c !in DELIMITERS) && (t != "" ==> t[0] !in SPACES)
  }

  ghost predicate AllPlain(ts: seq<string>) {
    forall t :: t in ts ==> Plain(t)
  }

  lemma {:induction false} PlainArgs(line: string, p: nat)
    ensures AllPlain(ArgsFrom(line, p))
    decreases |line| - p, 1
  {
    if p < |line| {
      if line[p] in SPACES { PlainArgs(line, p + 1); } else { PlainToken(line, p, p); }
    }
  }

  lemma {:induction false} PlainToken(line: string, start: nat, p: nat)
    requires start <= p <= |line| && start < |line| && line[start] !in SPACES
    requires forall i :: start <= i < p ==> line[i] !in DELIMITERS
    ensures AllPlain(TokenFrom(line, start, p))
    decreases |line| - p, 0
  {
    if p < |line| {
      if line[p] in DELIMITERS { PlainArgs(line, p + 1); } else { PlainToken(line, start, p + 1); }
    }
  }

  lemma {:induction false} TokenEnd(line: string, start: nat, p: nat, q: nat)
    requires start <= p <= q <= |line| && (q < |line| ==> line[q] in DELIMITERS)
    requires forall i :: p <= i < q ==> line[i] !in DELIMITERS
    ensures TokenFrom(line, start, p) == [line[start..q]] + ArgsFrom(line, q + 1)
    decreases q - p
  {
    if p < q { TokenEnd(line, start, p + 1, q); } else if q == |line| { assert line[start..] == line[start..q]; }
  }

  /** The token is at p, followed by '=' or, unless it is empty, by the end of the line. */
  ghost predicate ArgAt(line: string, p: nat, t: string) {
    && p + |t| <= |line| && line[p..p + |t|] == t
    && if p + |t| < |line| then line[p + |t|] == '=' else t != ""
  }

  lemma ArgEnd(line: string, p: nat, t: string)
    requires Plain(t) && ArgAt(line, p, t)
    ensures ArgsFrom(line, p) == [t] + ArgsFrom(line, p + |t| + 1)
  {
    assert forall i :: p <= i < p + |t| ==> line[i] == t[i - p];
    TokenEnd(line, p, p, p + |t|);
  }

  lemma JoinParts(p: string, ts: seq<string>, end: string)
    requires ts != []
    ensures var s, n := p + Join(ts, "=") + end, |p| + |ts[0]|;
            && n <= |s| && s[|p|..n] == ts[0]
            && (|ts| > 1 ==> n < |s| && s[n] == '=' && s == (p + ts[0] + "=") + Join(ts[1..], "=") + end)
            && (|ts| == 1 ==> |s| == n + |end| && (end != "" ==> s[n] == end[0]))
  {
    var s := p + Join(ts, "=") + end;
    if |ts| > 1 { assert s == p + ts[0] + "=" + Join(ts[1..], "=") + end; } else { assert s == p + ts[0] + end; }
  }

  lemma FirstPart(p: string, ts: seq<string>, end: string)
    requires ts != [] && if end == "" then ts[|ts| - 1] != "" else end == "="
    ensures var line, n := p + Join(ts, "=") + end, |p| + |ts[0]|;
            && ArgAt(line, |p|, ts[0])
            && (|ts| == 1 ==> n + 1 >= |line|)
            && (|ts| > 1 ==> line == (p + ts[0] + "=") + Join(ts[1..], "=") + end)
  {
    JoinParts(p, ts, end);
  }

  lemma {:induction false} ArgsOfJoin(p: string, ts: seq<string>, end: string, line: string)
    requires line == p + Join(ts, "=") + end && AllPlain(ts)
    requires ts != [] && if end == "" then ts[|ts| - 1] != "" else end == "="
    ensures ArgsFrom(line, |p|) == ts
    decreases |ts|
  {
    FirstPart(p, ts, end);
    ArgEnd(line, |p|, ts[0]);
    if |ts| > 1 { ArgsOfJoin(p + ts[0] + "=", ts[1..], end, line); }
    assert ts == [ts[0]] + ts[1..];
  }

  lemma {:induction false} UnquotedJoin(ts: seq<string>)
    requires forall t :: t in ts ==> Unquoted(t)
    ensures Unquoted(Join(ts, "="))
    decreases |ts|
  {
    if |ts| > 1 { UnquotedJoin(ts[1..]); }
    if ts != [] {
      assert Unquoted(ts[0]);
      assert Unquoted("=");
    }
  }

  /** A trailing empty argument is lost: the scanner drops a delimiter at the end of the line. */
  lemma LastEmpty(ts: seq<string>)
    requires AllPlain(ts) && ts != [] && ts[|ts| - 1] == ""
    ensures ArgsOf(Join(ts, "=")) == ts[..|ts| - 1]
  {
    var init := ts[..|ts| - 1];
    assert ts == init + [""];
    assert AllPlain(init);
    if init != [] { EndDropped(init); }
  }

  lemma EndDropped(ts: seq<string>)
    requires AllPlain(ts) && ts != []
    ensures ArgsOf(Join(ts + [""], "=")) == ts
  {
    var line := Join(ts + [""], "=");
    JoinConcat(ts, [""], "=");
    assert line == "" + Join(ts, "=") + "=";
    ArgsOfJoin("", ts, "=", line);
  }

  lemma LastFull(ts: seq<string>)
    requires AllPlain(ts) && ts != [] && ts[|ts| - 1] != ""
    ensures ArgsOf(Join(ts, "=")) == ts
  {
    assert Join(ts, "=") == "" + Join(ts, "=") + "";
    ArgsOfJoin("", ts, "", Join(ts, "="));
  }

  /** Which argument lists are the arguments of their own join with '='; on quotes see RoundTrip. */
  lemma JoinInverts(ts: seq<string>)
    ensures ArgsOf(Join(ts, "=")) == ts <==> AllPlain(ts) && (ts != [] ==> ts[|ts| - 1] != "")
  {
    PlainArgs(Join(ts, "="), 0);
    if ts != [] && AllPlain(ts) {
      if ts[|ts| - 1] == "" { LastEmpty(ts); } else { LastFull(ts); }
    }
  }

  /** Joined from arguments without quotes, the line is one the scanner gets through. */
  lemma JoinStops(ts: seq<string>)
    requires forall t :: t in ts ==> Unquoted(t)
    ensures Stops(Join(ts, "="))
  {
    UnquotedJoin(ts);
    StopsExactly(Join(ts, "="));
  }

  lemma {:induction false} JoinQuoted(ts: seq<string>)
    requires Unquoted(Join(ts, "="))
    ensures forall t :: t in ts ==> Unquoted(t)
    decreases |ts|
  {
    if ts != [] {
      var line := Join(ts, "=");
      assert |ts| > 1 ==> line == ts[0] + "=" + Join(ts[1..], "=");
      assert forall c :: c in ts[0] ==> c in line;
      if |ts| > 1 {
        assert forall c :: c in Join(ts[1..], "=") ==> c in line;
        JoinQuoted(ts[1..]);
      }
    }
  }

  /** The scanner stops on the line, and with these arguments. */
  ghost predicate Yields(line: string, ts: seq<string>) {
    exists n: nat :: Steps(line, START, n).mode.Finished? && Steps(line, START, n).args == ts
  }

  /**
   * Which argument lists survive being joined with '=' and scanned again: those whose arguments hold no delimiter
   * and no quote and start with no space, and whose last argument is not empty.
   */
  lemma RoundTrip(ts: seq<string>)
    ensures Yields(Join(ts, "="), ts) <==>
            AllPlain(ts) && (ts != [] ==> ts[|ts| - 1] != "") && forall t :: t in ts ==> Unquoted(t)
  {
    var line := Join(ts, "=");
    StopsExactly(line);
    JoinInverts(ts);
    if Stops(line) { JoinQuoted(ts); }
    if forall t :: t in ts ==> Unquoted(t) { JoinStops(ts); }
  }
}

/** The scanner as it is written. */
module ArgScanning {
  import opened Args

  /** p only passes the end of the line by not moving: every store is of a character of the line. */
  method SplitArgs(line: string) returns (argv: seq<string>)
    requires Unquoted(line)
    ensures argv == ArgsOf(line)
  {
    var p := 0;
    argv := [];
    while true
      invariant 0 <= p <= |line| && argv + ArgsFrom(line, p) == ArgsOf(line)
      decreases |line| - p
    {
      while p < |line| && line[p] in SPACES
        invariant 0 <= p <= |line| && argv + ArgsFrom(line, p) == ArgsOf(line)
      {
        p := p + 1;
      }
      if p == |line| { return; }
      var current;
      current, p := OneToken(line, p);
      argv := argv + [current];
    }
  }

  lemma LastToken(line: string, start: nat, p: nat)
    requires start <= p <= |line| && (p < |line| ==> line[p] in DELIMITERS)
    ensures TokenFrom(line, start, p) == [line[start..p]] + ArgsFrom(line, p + 1)
    ensures p == |line| ==> ArgsFrom(line, p + 1) == ArgsFrom(line, p)
  {
    TokenEnd(line, start, p, p);
  }

  method OneToken(line: string, start: nat) returns (current: string, p: nat)
    requires Unquoted(line) && start < |line|
    ensures start < p <= |line| && TokenFrom(line, start, start) == [current] + ArgsFrom(line, p)
  {
    var inq, insq, done := false, false, false;
    current := "";
    p := start;
    while !done
      invariant start <= p <= |line| && !inq && !insq
      invariant done ==> start < p && TokenFrom(line, start, start) == [current] + ArgsFrom(line, p)
      invariant !done ==> current == line[start..p] && TokenFrom(line, start, start) == TokenFrom(line, start, p)
      decreases |line| - p, !done
    {
      if inq {
      } else if insq {
      } else if p == |line| || line[p] in DELIMITERS {
        LastToken(line, start, p);
        done := true;
      } else if line[p] == '"' {
        inq := true;
      } else if line[p] == '\'' {
        insq := true;
      } else {
        current := current + [line[p]];
      }
      if p < |line| { p := p + 1; }
    }
  }
}
