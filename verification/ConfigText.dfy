/** What configuration lines do, in the words they are written in. */
module ConfigTexts {
  import opened Args
  import opened Configs
  import opened CString
  import opened CText
  import opened Numbers
  import opened Options
  import opened Splits

  // ---------------------------------------------------------------- names in either case

  predicate SameLetter(c: char, l: char) {
    c == l || ('a' <= l <= 'z' && c as int == l as int - 32)
  }

  /** s is the word with any of its small letters written as capitals. */
  predicate Spells(s: string, word: string) {
    |s| == |word| && forall i :: 0 <= i < |s| ==> SameLetter(s[i], word[i])
  }

  predicate NoCapitals(word: string) {
    forall i :: 0 <= i < |word| ==> !('A' <= word[i] <= 'Z')
  }

  lemma LowerIs(s: string, word: string)
    requires NoCapitals(word)
    ensures Lower(s) == word <==> Spells(s, word)
  {
    if |s| == |word| {
      assert forall i :: 0 <= i < |s| ==> (Lower(s)[i] == word[i] <==> SameLetter(s[i], word[i]));
    }
  }

  // ---------------------------------------------------------------- two words on a line

  /** isspace */
  predicate White(c: char) {
    c == ' ' || c == '\t' || c == '\n' || c as int == 11 || c as int == 12 || c == '\r'
  }

  predicate AllWhite(w: string) {
    forall i :: 0 <= i < |w| ==> White(w[i])
  }

  predicate Inner(c: char) {
    c != '=' && c != '\t' && c != '\r' && c != '\n' && c != '"' && c != '\'' && c != '\0'
  }

  /** Something on it, no separator, quote or NUL in it, and not white space in front.  It may hold spaces. */
  predicate Word(t: string) {
    t != "" && !White(t[0]) && forall i :: 0 <= i < |t| ==> Inner(t[i])
  }

  predicate Separator(c: char) {
    c == '=' || c == '\t' || c == '\r' || c == '\n'
  }

  lemma WordInner(t: string, c: char)
    requires Word(t) && c in t
    ensures Inner(c)
  {
    var i :| 0 <= i < |t| && t[i] == c;
  }

  lemma {:induction false} SkipWhite(line: string, p: nat, q: nat)
    requires p <= q <= |line| && forall i :: p <= i < q ==> White(line[i])
    ensures ArgsFrom(line, p) == ArgsFrom(line, q)
    decreases q - p
  {
    if p < q { SkipWhite(line, p + 1, q); }
  }

  lemma WordAt(line: string, p: nat, t: string)
    requires Word(t) && p + |t| <= |line| && line[p..p + |t|] == t
    requires p + |t| < |line| ==> Separator(line[p + |t|])
    ensures ArgsFrom(line, p) == [t] + ArgsFrom(line, p + |t| + 1)
  {
    assert forall i :: p <= i < p + |t| ==> line[i] == t[i - p] && Inner(line[i]);
    TokenEnd(line, p, p, p + |t|);
  }

  /** The line name, separator, white space, value. */
  function Written(name: string, sep: char, w: string, value: string): string {
    name + [sep] + w + value
  }

  lemma WrittenParts(name: string, sep: char, w: string, value: string)
    ensures var line, n := Written(name, sep, w, value), |name| + 1 + |w|;
            && |line| == n + |value| && line[..|name|] == name && line[|name|] == sep
            && line[|name| + 1..n] == w && line[n..] == value
            && (forall i :: 0 <= i < |w| ==> line[|name| + 1 + i] == w[i])
  {
  }

  /** Any of the four separators cuts the line in two; spaces do not, but in front of a word they are skipped. */
  lemma TwoWords(name: string, sep: char, w: string, value: string)
    requires Word(name) && Separator(sep) && AllWhite(w) && Word(value)
    ensures ArgsOf(Written(name, sep, w, value)) == [name, value]
  {
    var line, n := Written(name, sep, w, value), |name| + 1 + |w|;
    WrittenParts(name, sep, w, value);
    assert line[0..|name|] == name && line[n..n + |value|] == value;
    WordAt(line, 0, name);
    assert forall i :: |name| + 1 <= i < n ==> line[i] == w[i - |name| - 1];
    SkipWhite(line, |name| + 1, n);
    WordAt(line, n, value);
    assert [name] + ([value] + []) == [name, value];
  }

  // ---------------------------------------------------------------- what is around the words

  predicate Blank(c: char) {
    c == '\t' || c == '\r' || c == '\n'
  }

  predicate AllBlank(s: string) {
    forall i :: 0 <= i < |s| ==> Blank(s[i])
  }

  predicate Trim(c: char) {
    Blank(c) || c == '\0'
  }

  /** Tabs and line ends around a text are cut off; spaces stay. */
  lemma TrimAround(a: string, s: string, z: string)
    requires AllBlank(a) && AllBlank(z) && (s != "" ==> !Trim(s[0]) && !Trim(s[|s| - 1]))
    ensures Trimmed(a + s + z, BLANKS + {NUL}) == s
  {
    var t := a + s + z;
    if s == "" {
      assert forall k :: 0 <= k < |t| ==> Blank(t[k]);
      TrimLeftIs(t, BLANKS + {NUL}, |t|);
    } else {
      TrimLeftIs(t, BLANKS + {NUL}, |a|);
      assert t[|a|..] == s + z;
      TrimRightIs(s + z, BLANKS + {NUL}, |s|);
      assert (s + z)[..|s|] == s;
    }
  }

  lemma WrittenClean(name: string, sep: char, w: string, value: string)
    requires Word(name) && Separator(sep) && AllWhite(w) && Word(value)
    ensures var line := Written(name, sep, w, value);
            && line != "" && line[0] == name[0] && line[|line| - 1] == value[|value| - 1]
            && !Trim(line[0]) && !Trim(line[|line| - 1])
            && forall c :: c in line ==> c != '"' && c != '\''
  {
    var line := Written(name, sep, w, value);
    forall c | c in line ensures c != '"' && c != '\'' {
      if c in name {
        WordInner(name, c);
      } else if c in value {
        WordInner(value, c);
      } else if c in w {
        var i :| 0 <= i < |w| && w[i] == c;
      }
    }
    WordInner(value, value[|value| - 1]);
  }

  /** Blanks around it, a name that does not start a comment, and a value. */
  lemma ReadWords(a: string, name: string, sep: char, w: string, value: string, z: string)
    requires AllBlank(a) && AllBlank(z) && AllWhite(w)
    requires Word(name) && name[0] != '#' && Separator(sep) && Word(value)
    ensures Read(a + Written(name, sep, w, value) + z) == Setting(KeyOf(name), value)
  {
    var l := Written(name, sep, w, value);
    WrittenClean(name, sep, w, value);
    TrimAround(a, l, z);
    TwoWords(name, sep, w, value);
  }

  // ---------------------------------------------------------------- the twelve settings

  /** The line is name=value, with blanks around it. */
  ghost predicate Sets(line: string, name: string, value: string) {
    exists a, z :: AllBlank(a) && AllBlank(z) && line == a + Written(name, '=', "", value) + z
  }

  lemma SetsReads(line: string, name: string, value: string)
    requires Sets(line, name, value) && Word(name) && name[0] != '#' && Word(value)
    ensures Read(line) == Setting(KeyOf(name), value)
  {
    var a, z :| AllBlank(a) && AllBlank(z) && line == a + Written(name, '=', "", value) + z;
    ReadWords(a, name, '=', "", value, z);
  }

  lemma OneLine(c: Config, line: string)
    ensures var r := Read(line);
            && (r.Directive? ==> LoadLines(c, [line], 0) == Loaded(Apply(c, r.key, r.value)))
            && (r.Bad? ==> LoadLines(c, [line], 0) == Stopped(c, 1, r.problem))
  {
    assert [line][1..] == [];
  }

  /** The twelve names: those of numbers, of texts, of lists and of a flag. */
  const NUMBERS: set<string> := {"max_job_num", "log_level", "max_depth", "stat_interval"}
  const TEXTS: set<string> := {"logfile", "include_prefixes", "exclude_prefixes", "seeds", "module_path"}
  const OTHERS: set<string> := {"load_module", "accept_types", "make_hostdir"}
  const NAMES := NUMBERS + TEXTS + OTHERS

  /** One of them, with each letter in either case. */
  ghost predicate Known(name: string) {
    exists word :: word in NAMES && Spells(name, word)
  }

  predicate Plainly(word: string) {
    word != "" && forall i :: 0 <= i < |word| ==> 'a' <= word[i] <= 'z' || word[i] == '_'
  }

  lemma NumbersPlain(word: string)
    requires word in NUMBERS
    ensures Plainly(word) && NoCapitals(word)
  {
  }

  lemma TextsPlain(word: string)
    requires word in TEXTS
    ensures Plainly(word) && NoCapitals(word)
  {
  }

  lemma OthersPlain(word: string)
    requires word in OTHERS
    ensures Plainly(word) && NoCapitals(word)
  {
  }

  lemma NamesPlain(word: string)
    requires word in NAMES
    ensures Plainly(word) && NoCapitals(word)
  {
    if word in NUMBERS { NumbersPlain(word); } else if word in TEXTS { TextsPlain(word); } else { OthersPlain(word); }
  }

  lemma KnownIsWord(name: string)
    requires Known(name)
    ensures Word(name) && name[0] != '#'
  {
    var word :| word in NAMES && Spells(name, word);
    NamesPlain(word);
    assert forall i :: 0 <= i < |name| ==> SameLetter(name[i], word[i]);
  }

  lemma KnownKeys(name: string)
    ensures Known(name) <==> KeyOf(name).Some?
  {
    forall word | word in NAMES ensures Lower(name) == word <==> Spells(name, word) {
      NamesPlain(word);
      LowerIs(name, word);
    }
    if KeyOf(name).Some? { assert Lower(name) in NAMES; }
  }

  lemma NumberKeys(name: string)
    ensures Spells(name, "max_job_num") ==> KeyOf(name) == Some(MaxJobNum)
    ensures Spells(name, "log_level") ==> KeyOf(name) == Some(LogLevel)
    ensures Spells(name, "max_depth") ==> KeyOf(name) == Some(MaxDepth)
    ensures Spells(name, "stat_interval") ==> KeyOf(name) == Some(StatInterval)
  {
    LowerIs(name, "max_job_num");
    LowerIs(name, "log_level");
    LowerIs(name, "max_depth");
    LowerIs(name, "stat_interval");
  }

  lemma TextKeys(name: string)
    ensures Spells(name, "logfile") ==> KeyOf(name) == Some(Logfile)
    ensures Spells(name, "include_prefixes") ==> KeyOf(name) == Some(IncludePrefixes)
    ensures Spells(name, "exclude_prefixes") ==> KeyOf(name) == Some(ExcludePrefixes)
    ensures Spells(name, "seeds") ==> KeyOf(name) == Some(Seeds)
    ensures Spells(name, "module_path") ==> KeyOf(name) == Some(ModulePath)
  {
    LowerIs(name, "logfile");
    LowerIs(name, "include_prefixes");
    LowerIs(name, "exclude_prefixes");
    LowerIs(name, "seeds");
    LowerIs(name, "module_path");
  }

  lemma OtherKeys(name: string)
    ensures Spells(name, "load_module") ==> KeyOf(name) == Some(LoadModule)
    ensures Spells(name, "accept_types") ==> KeyOf(name) == Some(AcceptTypes)
    ensures Spells(name, "make_hostdir") ==> KeyOf(name) == Some(MakeHostdir)
  {
    LowerIs(name, "load_module");
    LowerIs(name, "accept_types");
    LowerIs(name, "make_hostdir");
  }

  lemma SettingLoads(c: Config, line: string, name: string, value: string)
    requires Sets(line, name, value) && Word(value) && KeyOf(name).Some?
    ensures LoadLines(c, [line], 0) == Loaded(Apply(c, KeyOf(name).value, value))
  {
    KnownKeys(name);
    KnownIsWord(name);
    SetsReads(line, name, value);
    OneLine(c, line);
  }

  /** What a line of its own sets: a number. */
  lemma NumberSettings(c: Config, line: string, name: string, n: nat)
    requires Sets(line, name, Decimal(n))
    ensures Spells(name, "max_job_num") ==> LoadLines(c, [line], 0) == Loaded(c.(maxJobNum := n))
    ensures Spells(name, "log_level") ==> LoadLines(c, [line], 0) == Loaded(c.(logLevel := n))
    ensures Spells(name, "max_depth") ==> LoadLines(c, [line], 0) == Loaded(c.(maxDepth := n))
    ensures Spells(name, "stat_interval") ==> LoadLines(c, [line], 0) == Loaded(c.(statInterval := n))
  {
    NumberIsWord(n);
    AtoiDecimal(n, "");
    assert Decimal(n) + "" == Decimal(n);
    NumberKeys(name);
    if KeyOf(name).Some? { SettingLoads(c, line, name, Decimal(n)); }
  }

  /** A text. */
  lemma TextSettings(c: Config, line: string, name: string, value: string)
    requires Sets(line, name, value) && Word(value)
    ensures Spells(name, "logfile") ==> LoadLines(c, [line], 0) == Loaded(c.(logfile := Some(value)))
    ensures Spells(name, "include_prefixes") ==> LoadLines(c, [line], 0) == Loaded(c.(includePrefixes := Some(value)))
    ensures Spells(name, "exclude_prefixes") ==> LoadLines(c, [line], 0) == Loaded(c.(excludePrefixes := Some(value)))
    ensures Spells(name, "seeds") ==> LoadLines(c, [line], 0) == Loaded(c.(seeds := Some(value)))
    ensures Spells(name, "module_path") ==> LoadLines(c, [line], 0) == Loaded(c.(modulePath := Some(value)))
  {
    TextKeys(name);
    if KeyOf(name).Some? { SettingLoads(c, line, name, value); }
  }

  /** One more element of a list. */
  lemma ListSettings(c: Config, line: string, name: string, value: string)
    requires Sets(line, name, value) && Word(value)
    ensures Spells(name, "load_module") ==> LoadLines(c, [line], 0) == Loaded(c.(modules := c.modules + [value]))
    ensures Spells(name, "accept_types") ==>
              LoadLines(c, [line], 0) == Loaded(c.(acceptTypes := c.acceptTypes + [value]))
  {
    OtherKeys(name);
    if KeyOf(name).Some? { SettingLoads(c, line, name, value); }
  }

  /** Yes or no in either case; anything else is -1. */
  lemma FlagSettings(c: Config, line: string, name: string, value: string)
    requires Sets(line, name, value) && Word(value) && Spells(name, "make_hostdir")
    ensures LoadLines(c, [line], 0)
         == Loaded(c.(makeHostdir := if Spells(value, "yes") then 1 else if Spells(value, "no") then 0 else -1))
  {
    OtherKeys(name);
    SettingLoads(c, line, name, value);
    LowerIs(value, "yes");
    LowerIs(value, "no");
  }

  /** Any other name stops the loader. */
  lemma OtherSettings(c: Config, line: string, name: string, value: string)
    requires Sets(line, name, value) && Word(name) && name[0] != '#' && Word(value) && !Known(name)
    ensures LoadLines(c, [line], 0) == Stopped(c, 1, UnknownDirective)
  {
    KnownKeys(name);
    SetsReads(line, name, value);
    OneLine(c, line);
  }

  lemma NumberIsWord(n: nat)
    ensures Word(Decimal(n))
  {
    DecimalDigits(n);
    assert forall i :: 0 <= i < |Decimal(n)| ==> Decimal(n)[i] in Decimal(n);
  }

  // ---------------------------------------------------------------- lines that say nothing, and lines that never end

  /** A comment, with blanks in front of it or not, says nothing, whatever is in it. */
  lemma CommentSkipped(c: Config, a: string, text: string, after: seq<string>, n: nat)
    requires AllBlank(a)
    ensures LoadLines(c, [a + "#" + text] + after, n) == LoadLines(c, after, n + 1)
  {
    var line := a + "#" + text;
    var i, j := TrimmedIsCore(line, BLANKS + {NUL});
    assert line[|a|] == '#';
    assert forall k :: 0 <= k < |a| ==> line[k] == a[k];
    assert i == |a| < j;
    assert ([line] + after)[1..] == after;
  }

  /** So does a line of white space. */
  lemma WhiteSkipped(c: Config, w: string, after: seq<string>, n: nat)
    requires AllWhite(w)
    ensures LoadLines(c, [w] + after, n) == LoadLines(c, after, n + 1)
  {
    var i, j := TrimmedIsCore(w, BLANKS + {NUL});
    var l := w[i..j];
    assert forall k :: 0 <= k < |l| ==> l[k] == w[i + k];
    SkipWhite(l, 0, |l|);
    assert forall q :: q in l ==> White(q);
    assert ([w] + after)[1..] == after;
  }

  /** A quote of either kind, not in a comment, keeps the loader for ever. */
  lemma QuoteHangs(c: Config, line: string, after: seq<string>, n: nat)
    requires line != "" && line[0] != '#' && !Trim(line[0]) && ('"' in line || '\'' in line)
    ensures LoadLines(c, [line] + after, n) == Hung && !Stops(line)
  {
    var i, j := TrimmedIsCore(line, BLANKS + {NUL});
    assert i == 0;
    var q :| q in line && (q == '"' || q == '\'');
    var k :| 0 <= k < |line| && line[k] == q;
    assert i <= k < j;
    assert line[i..j][k - i] == q && q in line[i..j];
    StopsExactly(line);
  }

  /** One word, or more than two, are no setting. */
  lemma NotTwoWords(c: Config, ts: seq<string>, after: seq<string>, n: nat)
    requires ts != [] && |ts| != 2 && Word(ts[0]) && ts[0][0] != '#'
    requires forall k :: 0 <= k < |ts| ==> Word(ts[k])
    ensures LoadLines(c, [Join(ts, "=")] + after, n) == Stopped(c, n + 1, NotKeyValue)
  {
    var line := Join(ts, "=");
    JoinEnds(ts);
    assert "" + line + "" == line;
    TrimAround("", line, "");
    forall k | 0 <= k < |ts| ensures Plain(ts[k]) && Unquoted(ts[k]) { WordIsPlain(ts[k]); }
    assert forall t :: t in ts ==> Plain(t) && Unquoted(t);
    UnquotedJoin(ts);
    JoinInverts(ts);
    assert ([line] + after)[1..] == after;
  }

  lemma WordIsPlain(t: string)
    requires Word(t)
    ensures Plain(t) && Unquoted(t)
  {
    forall c | c in t ensures Inner(c) { WordInner(t, c); }
  }

  lemma {:induction false} JoinEnds(ts: seq<string>)
    requires ts != [] && Word(ts[0]) && forall k :: 0 <= k < |ts| ==> Word(ts[k])
    ensures var line := Join(ts, "=");
            line != "" && line[0] == ts[0][0] && !Trim(line[0]) && !Trim(line[|line| - 1])
    decreases |ts|
  {
    assert Word(ts[0]);
    WordInner(ts[0], ts[0][0]);
    WordInner(ts[0], ts[0][|ts[0]| - 1]);
    if |ts| > 1 {
      JoinEnds(ts[1..]);
      var rest := Join(ts[1..], "=");
      assert Join(ts, "=") == ts[0] + "=" + rest;
      assert Join(ts, "=")[|Join(ts, "=")| - 1] == rest[|rest| - 1];
    }
  }
}
