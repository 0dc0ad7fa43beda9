/** What a configuration text means. */
module Configs {
  import opened Args
  import opened CString
  import opened CText
  import opened Numbers
  import opened Options
  import opened Splits

  datatype Config = Config(
    maxJobNum: int,
    seeds: Option<string>,
    includePrefixes: Option<string>,
    excludePrefixes: Option<string>,
    logfile: Option<string>,
    logLevel: int,
    maxDepth: int,
    makeHostdir: int,
    modulePath: Option<string>,
    statInterval: int,
    modules: seq<string>,
    acceptTypes: seq<string>
  )

  const INF := 0x7FFFFFFF
  const BLANKS: set<char> := {'\t', '\r', '\n'}
  const INITIAL := Config(10, None, None, None, None, 0, INF, 0, None, 0, [], [])

  function LowerChar(c: char): char {
    if 'A' <= c <= 'Z' then ((c as int) + 32) as char else c
  }

  function Lower(s: string): string {
    seq(|s|, i requires 0 <= i < |s| => LowerChar(s[i]))
  }

  function YesNo(s: string): int {
    if Lower(s) == "yes" then 1 else if Lower(s) == "no" then 0 else -1
  }

  // ---------------------------------------------------------------- one line

  datatype Problem = UnknownDirective | NotKeyValue

  datatype Key =
    | MaxJobNum | Logfile | IncludePrefixes | ExcludePrefixes | Seeds | ModulePath
    | LoadModule | LogLevel | MaxDepth | StatInterval | MakeHostdir | AcceptTypes

  datatype Line = Nothing | Directive(key: Key, value: string) | Bad(problem: Problem) | Endless

  /** Key names are compared without regard to case. */
  function KeyOf(name: string): Option<Key> {
    var k := Lower(name);
    if k == "max_job_num" then Some(MaxJobNum)
    else if k == "logfile" then Some(Logfile)
    else if k == "include_prefixes" then Some(IncludePrefixes)
    else if k == "exclude_prefixes" then Some(ExcludePrefixes)
    else if k == "seeds" then Some(Seeds)
    else if k == "module_path" then Some(ModulePath)
    else if k == "load_module" then Some(LoadModule)
    else if k == "log_level" then Some(LogLevel)
    else if k == "max_depth" then Some(MaxDepth)
    else if k == "stat_interval" then Some(StatInterval)
    else if k == "make_hostdir" then Some(MakeHostdir)
    else if k == "accept_types" then Some(AcceptTypes)
    else None
  }

  /** A value for the key, if the name had one. */
  function Setting(key: Option<Key>, value: string): Line {
    if key.Some? then Directive(key.value, value) else Bad(UnknownDirective)
  }

  /** Comments and blank lines say nothing; a quote in any other line keeps the argument scanner going for ever. */
  function Read(line: string): Line {
    var l := Trimmed(line, BLANKS + {NUL});
    if l == "" || l[0] == '#' then Nothing
    else if exists c :: c in l && c in QUOTES then Endless
    else
      var argv := ArgsOf(l);
      if |argv| == 0 then Nothing
      else if |argv| != 2 then Bad(NotKeyValue)
      else Setting(KeyOf(argv[0]), argv[1])
  }

  function Apply(c: Config, key: Key, value: string): Config {
    match key
    case MaxJobNum => c.(maxJobNum := Atoi(value))
    case Logfile => c.(logfile := Some(value))
    case IncludePrefixes => c.(includePrefixes := Some(value))
    case ExcludePrefixes => c.(excludePrefixes := Some(value))
    case Seeds => c.(seeds := Some(value))
    case ModulePath => c.(modulePath := Some(value))
    case LoadModule => c.(modules := c.modules + [value])
    case LogLevel => c.(logLevel := Atoi(value))
    case MaxDepth => c.(maxDepth := Atoi(value))
    case StatInterval => c.(statInterval := Atoi(value))
    case MakeHostdir => c.(makeHostdir := YesNo(value))
    case AcceptTypes => c.(acceptTypes := c.acceptTypes + [value])
  }

  // ---------------------------------------------------------------- a text

  /** Loading goes on to the end, stops at a numbered line with what is set so far, or never ends. */
  datatype Outcome = Loaded(config: Config) | Stopped(config: Config, line: nat, problem: Problem) | Hung

  /** Load lines after n earlier ones. */
  function LoadLines(c: Config, lines: seq<string>, n: nat): Outcome
    decreases |lines|
  {
    if lines == [] then Loaded(c)
    else
      match Read(lines[0])
      case Nothing => LoadLines(c, lines[1..], n + 1)
      case Directive(key, value) => LoadLines(Apply(c, key, value), lines[1..], n + 1)
      case Bad(problem) => Stopped(c, n + 1, problem)
      case Endless => Hung
  }

  function Load(c: Config, text: string, n: nat): Outcome {
    LoadLines(c, Tokens(text, "\n"), n)
  }

  /** What was loaded is kept, and loading goes on from it; a text that stops or hangs the loader ends it. */
  function Then(o: Outcome, lines: seq<string>, n: nat): Outcome {
    if o.Loaded? then LoadLines(o.config, lines, n) else o
  }

  lemma {:induction false} LoadConcat(c: Config, x: seq<string>, y: seq<string>, n: nat)
    ensures LoadLines(c, x + y, n) == Then(LoadLines(c, x, n), y, n + |x|)
    decreases |x|
  {
    if x == [] {
      assert x + y == y;
    } else {
      assert (x + y)[1..] == x[1..] + y;
      match Read(x[0])
      case Nothing => LoadConcat(c, x[1..], y, n + 1);
      case Directive(key, value) => LoadConcat(Apply(c, key, value), x[1..], y, n + 1);
      case _ =>
    }
  }

  /** The one empty piece of an empty text says nothing, so it does not matter that it is not a token. */
  lemma LoadPieces(c: Config, text: string, n: nat)
    ensures Load(c, text, n) == LoadLines(c, Pieces(text, "\n"), n)
  {
    if text == "" {
      assert Pieces(text, "\n") == [""];
      assert Trimmed("", BLANKS + {NUL}) == "";
      assert [""][1..] == [];
    }
  }

  /** Loading two texts with a line break between them is loading the one, then the other. */
  lemma LoadAppend(c: Config, a: string, b: string, n: nat)
    ensures var first := Load(c, a, n);
            Load(c, a + "\n" + b, n) ==
            if first.Loaded? then Load(first.config, b, n + |Pieces(a, "\n")|) else first
  {
    var text := a + "\n" + b;
    PiecesConcat(a, b, '\n');
    LoadPieces(c, text, n);
    LoadPieces(c, a, n);
    LoadConcat(c, Pieces(a, "\n"), Pieces(b, "\n"), n);
    var first := Load(c, a, n);
    if first.Loaded? { LoadPieces(first.config, b, n + |Pieces(a, "\n")|); }
  }

  // ---------------------------------------------------------------- what is in the result

  /** The values given to one key, in order. */
  function Values(lines: seq<string>, key: Key): seq<string> {
    if lines == [] then []
    else
      var r := Read(lines[0]);
      (if r.Directive? && r.key == key then [r.value] else []) + Values(lines[1..], key)
  }

  function LastNumber(xs: seq<string>, d: int): int {
    if xs == [] then d else Atoi(xs[|xs| - 1])
  }

  function LastFlag(xs: seq<string>, d: int): int {
    if xs == [] then d else YesNo(xs[|xs| - 1])
  }

  function LastText(xs: seq<string>, d: Option<string>): Option<string> {
    if xs == [] then d else Some(xs[|xs| - 1])
  }

  /** From c and the values given to the key, r: lists collect every value in order, scalars have their last one. */
  ghost predicate MakesKey(c: Config, key: Key, vs: seq<string>, r: Config) {
    match key
    case LoadModule => r.modules == c.modules + vs
    case AcceptTypes => r.acceptTypes == c.acceptTypes + vs
    case MaxJobNum => r.maxJobNum == LastNumber(vs, c.maxJobNum)
    case LogLevel => r.logLevel == LastNumber(vs, c.logLevel)
    case MaxDepth => r.maxDepth == LastNumber(vs, c.maxDepth)
    case StatInterval => r.statInterval == LastNumber(vs, c.statInterval)
    case MakeHostdir => r.makeHostdir == LastFlag(vs, c.makeHostdir)
    case Seeds => r.seeds == LastText(vs, c.seeds)
    case IncludePrefixes => r.includePrefixes == LastText(vs, c.includePrefixes)
    case ExcludePrefixes => r.excludePrefixes == LastText(vs, c.excludePrefixes)
    case Logfile => r.logfile == LastText(vs, c.logfile)
    case ModulePath => r.modulePath == LastText(vs, c.modulePath)
  }

  lemma OneMore(c: Config, key: Key, value: string, vs: seq<string>, r: Config)
    requires MakesKey(Apply(c, key, value), key, vs, r)
    ensures MakesKey(c, key, [value] + vs, r)
  {
    assert vs != [] ==> ([value] + vs)[|vs|] == vs[|vs| - 1];
    assert c.modules + [value] + vs == c.modules + ([value] + vs);
    assert c.acceptTypes + [value] + vs == c.acceptTypes + ([value] + vs);
  }

  lemma Untouched(c: Config, key: Key, value: string, other: Key, vs: seq<string>, r: Config)
    requires key != other && MakesKey(Apply(c, key, value), other, vs, r)
    ensures MakesKey(c, other, vs, r)
  {}

  lemma {:induction false} LoadedMakes(c: Config, lines: seq<string>, n: nat, key: Key)
    requires LoadLines(c, lines, n).Loaded?
    ensures MakesKey(c, key, Values(lines, key), LoadLines(c, lines, n).config)
    decreases |lines|
  {
    if lines != [] {
      var vs, r := Values(lines[1..], key), LoadLines(c, lines, n).config;
      match Read(lines[0])
      case Nothing =>
        LoadedMakes(c, lines[1..], n + 1, key);
        assert Values(lines, key) == vs;
      case Directive(k, value) =>
        LoadedMakes(Apply(c, k, value), lines[1..], n + 1, key);
        if k == key {
          OneMore(c, key, value, vs, r);
        } else {
          Untouched(c, k, value, key, vs, r);
          assert Values(lines, key) == vs;
        }
    }
  }

  // ---------------------------------------------------------------- texts written by hand

  lemma TrimNothing(s: string, cset: set<char>)
    requires s != "" && s[0] !in cset && s[|s| - 1] !in cset
    ensures Trimmed(s, cset) == s
  {}

  /** name=value reads as that directive, unless the value is empty: then the name is the only argument. */
  lemma ReadSetting(name: string, value: string)
    requires name != "" && name[0] != '#' && NUL !in name + value
    requires Plain(name) && Plain(value) && Unquoted(name + value)
    ensures Read(name + "=" + value) ==
            if value == "" then Bad(NotKeyValue) else Setting(KeyOf(name), value)
  {
    var line, ts := name + "=" + value, [name, value];
    assert line[0] == name[0] && line[|line| - 1] == if value == "" then '=' else value[|value| - 1];
    TrimNothing(line, BLANKS + {NUL});
    assert forall c :: c in line ==> c in name + value || c == '=';
    assert Join(ts, "=") == line by { assert ts[1..] == [value]; }
    if value == "" { LastEmpty(ts); } else { JoinInverts(ts); }
  }

  /** A setting without a value ends the loading at its line; what was set before stays set. */
  lemma EmptySettingStops(c: Config, before: seq<string>, name: string, after: seq<string>, n: nat)
    requires name != "" && name[0] != '#' && NUL !in name && Plain(name) && Unquoted(name)
    ensures var o := LoadLines(c, before, n);
            LoadLines(c, before + [name + "="] + after, n) ==
            if o.Loaded? then Stopped(o.config, n + |before| + 1, NotKeyValue) else o
  {
    ReadSetting(name, "");
    assert name + "" == name && name + "=" + "" == name + "=";
    assert before + [name + "="] + after == before + ([name + "="] + after);
    LoadConcat(c, before, [name + "="] + after, n);
  }

  /** A text set together from lines is loaded line by line. */
  lemma LoadJoined(c: Config, lines: seq<string>, n: nat)
    requires forall l :: l in lines ==> '\n' !in l
    ensures Load(c, Join(lines, "\n"), n) == if lines == [""] then Loaded(c) else LoadLines(c, lines, n)
  {
    TokensOfJoin(lines, '\n');
  }
}

/** The settings object and the loop that fills it. */
module ConfigLoading {
  import opened ArgScanning
  import opened Configs
  import opened CString
  import opened Numbers
  import opened Options
  import opened Splitting

  class SpiderConfig {
    var maxJobNum: int
    var seeds: Option<string>
    var includePrefixes: Option<string>
    var excludePrefixes: Option<string>
    var logfile: Option<string>
    var logLevel: int
    var maxDepth: int
    var makeHostdir: int
    var modulePath: Option<string>
    var statInterval: int
    var modules: seq<string>
    var acceptTypes: seq<string>

    ghost function Value(): Config
      reads this
    {
      Config(maxJobNum, seeds, includePrefixes, excludePrefixes, logfile, logLevel, maxDepth, makeHostdir, modulePath,
             statInterval, modules, acceptTypes)
    }

    constructor ()
      ensures Value() == INITIAL
      ensures maxJobNum == 10 && logLevel == 0 && maxDepth == 0x7FFF_FFFF && makeHostdir == 0 && statInterval == 0
      ensures seeds == includePrefixes == excludePrefixes == logfile == modulePath == None
      ensures modules == acceptTypes == []
    {
      maxJobNum := 10;
      seeds := None;
      includePrefixes := None;
      excludePrefixes := None;
      logfile := None;
      logLevel := 0;
      maxDepth := INF;
      makeHostdir := 0;
      modulePath := None;
      statInterval := 0;
      modules := [];
      acceptTypes := [];
    }

    method SetKey(key: Key, value: string)
      modifies this
      ensures Value() == Apply(old(Value()), key, value)
    {
      match key
      case MaxJobNum => maxJobNum := Atoi(value);
      case Logfile => logfile := Some(value);
      case IncludePrefixes => includePrefixes := Some(value);
      case ExcludePrefixes => excludePrefixes := Some(value);
      case Seeds => seeds := Some(value);
      case ModulePath => modulePath := Some(value);
      case LoadModule => modules := modules + [value];
      case LogLevel => logLevel := Atoi(value);
      case MaxDepth => maxDepth := Atoi(value);
      case StatInterval => statInterval := Atoi(value);
      case MakeHostdir => makeHostdir := YesNo(value);
      case AcceptTypes => acceptTypes := acceptTypes + [value];
    }

    method LoadLine(line: string) returns (err: Option<Problem>)
      requires !Read(line).Endless?
      modifies this
      ensures match Read(line)
              case Nothing => err == None && Value() == old(Value())
              case Directive(key, value) => err == None && Value() == Apply(old(Value()), key, value)
              case Bad(problem) => err == Some(problem) && Value() == old(Value())
    {
      var cs := new CStr(line);
      cs.Trim(BLANKS);
      var l := cs.buf[..cs.len];
      if l == "" || l[0] == '#' { return None; }
      var argv := SplitArgs(l);
      if |argv| == 0 { return None; }
      if |argv| != 2 { return Some(NotKeyValue); }
      match KeyOf(argv[0])
      case None => err := Some(UnknownDirective);
      case Some(key) =>
        SetKey(key, argv[1]);
        err := None;
    }

    /** The settings and the complaint, with its line number, are those of the text's meaning. */
    method LoadFromString(conf: string) returns (err: Option<(nat, Problem)>)
      requires !Load(Value(), conf, 0).Hung?
      modifies this
      ensures match Load(old(Value()), conf, 0)
              case Loaded(c) => err == None && Value() == c
              case Stopped(c, line, problem) => err == Some((line, problem)) && Value() == c
    {
      var tokens, totlines := SplitLen(conf, "\n");
      ghost var lines, outcome := tokens[..totlines], Load(Value(), conf, 0);
      var i := 0;
      assert lines[0..] == lines;
      while i < totlines
        invariant 0 <= i <= totlines && tokens[..totlines] == lines
        invariant LoadLines(Value(), lines[i..], i) == outcome
      {
        assert tokens[i] == lines[i..][0] && lines[i..][1..] == lines[i + 1..];
        var problem := LoadLine(tokens[i]);
        if problem.Some? { return Some((i + 1, problem.value)); }
        i := i + 1;
      }
      return None;
    }
  }
}
