/** What a response header means, in the words it is written in. */
module HeaderTexts {
  import opened Configs
  import opened ConfigTexts
  import opened CString
  import opened CText
  import opened Headers
  import opened Numbers
  import opened Options
  import opened Splits

  // ---------------------------------------------------------------- lines

  /** No line end inside. */
  predicate NoBreak(l: string) {
    forall i :: 0 <= i < |l| - 1 ==> !(l[i] == '\r' && l[i + 1] == '\n')
  }

  predicate NoBreaks(ls: seq<string>) {
    forall k :: 0 <= k < |ls| ==> NoBreak(ls[k])
  }

  /** Each line with its line end. */
  function Spelled(ls: seq<string>): string {
    if ls == [] then "" else ls[0] + "\r\n" + Spelled(ls[1..])
  }

  lemma LineEnds(l: string, rest: string)
    requires NoBreak(l)
    ensures var s := l + "\r\n" + rest; IndexOf(s, CRLF) == |l| && s[..|l|] == l && s[|l| + 2..] == rest
  {
    var t := l + CRLF;
    forall i | 0 <= i < |l| ensures !At(t, CRLF, i) {
      assert t[i..i + 2] == [t[i], t[i + 1]];
      assert CRLF == ['\r', '\n'];
    }
    IndexParts(l, CRLF, rest);
    assert l + CRLF + rest == l + "\r\n" + rest;
  }

  // ---------------------------------------------------------------- the status line

  lemma ThreeWords(a: string, b: string, c: string)
    ensures Join([a, b, c], " ") == a + " " + b + " " + c
  {
    assert [a, b, c][1..] == [b, c] && [b, c][1..] == [c];
    assert Join([b, c], " ") == b + " " + c;
    assert a + " " + (b + " " + c) == a + " " + b + " " + c;
  }

  /** Three words with a space between them: the second one is the status. */
  lemma StatusIs(version: string, code: nat, reason: string)
    requires ' ' !in version && ' ' !in reason
    ensures StatusOf(version + " " + Decimal(code) + " " + reason) == code
  {
    var ts := [version, Decimal(code), reason];
    DecimalDigits(code);
    ThreeWords(version, Decimal(code), reason);
    TokensOfJoin(ts, ' ');
    AtoiDecimal(code, "");
    assert Decimal(code) + "" == Decimal(code);
  }

  /** Any other number of words is status 600. */
  lemma StatusOther(ts: seq<string>)
    requires |ts| != 3 && forall k :: 0 <= k < |ts| ==> ' ' !in ts[k]
    ensures StatusOf(Join(ts, " ")) == 600
  {
    TokensOfJoin(ts, ' ');
  }

  // ---------------------------------------------------------------- the fields

  /** name:value and no more, with a name that reads content-type in either case. */
  ghost predicate TypeLine(l: string, value: string) {
    exists name :: ':' !in name && ':' !in value && Spells(name, "content-type") && l == name + ":" + value
  }

  ghost predicate OtherLine(l: string) {
    forall value :: !TypeLine(l, value)
  }

  lemma TwoParts(a: string, b: string)
    ensures Join([a, b], ":") == a + ":" + b
  {
    assert [a, b][1..] == [b];
  }

  lemma FieldIs(h: Header, l: string, value: string)
    requires TypeLine(l, value)
    ensures WithField(h, l) == h.(contentType := Some(Trimmed(value, BLANKS + {NUL})))
  {
    var name :| ':' !in name && ':' !in value && Spells(name, "content-type") && l == name + ":" + value;
    TwoParts(name, value);
    TokensOfJoin([name, value], ':');
    LowerIs(name, "content-type");
  }

  lemma FieldOther(h: Header, l: string)
    requires OtherLine(l)
    ensures WithField(h, l) == h
  {
    var ts := Tokens(l, ":");
    if |ts| == 2 {
      JoinOfTokens(l, ":");
      NoTokenContains(l, ":");
      assert ts == [ts[0], ts[1]];
      TwoParts(ts[0], ts[1]);
      ContainsChar(ts[0], ':');
      ContainsChar(ts[1], ':');
      assert !Contains(ts[0], ":") && !Contains(ts[1], ":");
      LowerIs(ts[0], "content-type");
      assert !TypeLine(l, ts[1]);
    }
  }

  lemma NextLine(h: Header, ls: seq<string>)
    requires ls != [] && NoBreak(ls[0])
    ensures WithFields(h, Spelled(ls)) == WithFields(WithField(h, ls[0]), Spelled(ls[1..]))
  {
    LineEnds(ls[0], Spelled(ls[1..]));
  }

  /** Lines of other kinds change nothing. */
  lemma {:induction false} OthersSkipped(h: Header, ls: seq<string>)
    requires NoBreaks(ls) && forall k :: 0 <= k < |ls| ==> OtherLine(ls[k])
    ensures WithFields(h, Spelled(ls)) == h
    decreases |ls|
  {
    if ls != [] {
      NextLine(h, ls);
      FieldOther(h, ls[0]);
      OthersSkipped(h, ls[1..]);
    }
  }

  lemma {:induction false} StatusKept(h: Header, ls: seq<string>)
    requires NoBreaks(ls)
    ensures WithFields(h, Spelled(ls)).statusCode == h.statusCode
    decreases |ls|
  {
    if ls != [] {
      NextLine(h, ls);
      StatusKept(WithField(h, ls[0]), ls[1..]);
    }
  }

  lemma {:induction false} LastTypeCounts(h: Header, ls: seq<string>, k: nat, value: string)
    requires NoBreaks(ls) && k < |ls| && TypeLine(ls[k], value)
    requires forall j :: k < j < |ls| ==> OtherLine(ls[j])
    ensures WithFields(h, Spelled(ls)).contentType == Some(Trimmed(value, BLANKS + {NUL}))
    decreases |ls|
  {
    NextLine(h, ls);
    if k == 0 {
      FieldIs(h, ls[0], value);
      OthersSkipped(WithField(h, ls[0]), ls[1..]);
    } else {
      LastTypeCounts(WithField(h, ls[0]), ls[1..], k - 1, value);
    }
  }

  // ---------------------------------------------------------------- the header

  lemma HeaderLines(first: string, ls: seq<string>)
    requires NoBreak(first)
    ensures HeaderOf(Spelled([first] + ls)) == WithFields(Header(StatusOf(first), None), Spelled(ls))
  {
    assert ([first] + ls)[1..] == ls;
    LineEnds(first, Spelled(ls));
  }

  /** The status of a header whose first line has three words, and of one whose first line has not. */
  lemma HeaderStatus(version: string, code: nat, reason: string, words: seq<string>, ls: seq<string>)
    requires ' ' !in version && ' ' !in reason && NoBreak(version + " " + Decimal(code) + " " + reason)
    requires |words| != 3 && (forall k :: 0 <= k < |words| ==> ' ' !in words[k]) && NoBreak(Join(words, " "))
    requires NoBreaks(ls)
    ensures HeaderOf(Spelled([version + " " + Decimal(code) + " " + reason] + ls)).statusCode == code
    ensures HeaderOf(Spelled([Join(words, " ")] + ls)).statusCode == 600
  {
    var first, other := version + " " + Decimal(code) + " " + reason, Join(words, " ");
    StatusIs(version, code, reason);
    StatusOther(words);
    HeaderLines(first, ls);
    HeaderLines(other, ls);
    StatusKept(Header(StatusOf(first), None), ls);
    StatusKept(Header(StatusOf(other), None), ls);
  }

  /** The content type is what the last such line says, without the tabs and line ends around it. */
  lemma HeaderType(first: string, ls: seq<string>, k: nat, a: string, value: string, z: string)
    requires NoBreak(first) && NoBreaks(ls) && k < |ls| && TypeLine(ls[k], a + value + z)
    requires forall j :: k < j < |ls| ==> OtherLine(ls[j])
    requires AllBlank(a) && AllBlank(z) && (value != "" ==> !Trim(value[0]) && !Trim(value[|value| - 1]))
    ensures HeaderOf(Spelled([first] + ls)).contentType == Some(value)
  {
    HeaderLines(first, ls);
    LastTypeCounts(Header(StatusOf(first), None), ls, k, a + value + z);
    TrimAround(a, value, z);
  }

  lemma HeaderNoType(first: string, ls: seq<string>)
    requires NoBreak(first) && NoBreaks(ls) && forall k :: 0 <= k < |ls| ==> OtherLine(ls[k])
    ensures HeaderOf(Spelled([first] + ls)).contentType == None
  {
    HeaderLines(first, ls);
    OthersSkipped(Header(StatusOf(first), None), ls);
  }

  /** A text of one line without its end is no header. */
  lemma HeaderBare(s: string)
    requires NoBreak(s)
    ensures HeaderOf(s) == Header(0, None)
  {
    forall i: nat ensures !At(s, CRLF, i) {
      if i + 2 <= |s| {
        assert s[i..i + 2] == [s[i], s[i + 1]];
        assert CRLF == ['\r', '\n'];
      }
    }
    assert At(s, CRLF, IndexOf(s, CRLF)) || IndexOf(s, CRLF) == |s|;
  }
}
