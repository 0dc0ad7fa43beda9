/** What the text of a response header says. */
module Headers {
  import opened Configs
  import opened CString
  import opened CText
  import opened Numbers
  import opened Options
  import opened Splits

  const CRLF := "\r\n"

  // ---------------------------------------------------------------- the header

  datatype Header = Header(statusCode: int, contentType: Option<string>)

  function StatusOf(line: string): int {
    var ts := Tokens(line, " ");
    if |ts| == 3 then Atoi(ts[1]) else 600
  }

  function WithField(h: Header, line: string): Header {
    var ts := Tokens(line, ":");
    if |ts| == 2 && Lower(ts[0]) == "content-type"
    then h.(contentType := Some(Trimmed(ts[1], BLANKS + {NUL})))
    else h
  }

  function WithFields(h: Header, s: string): Header
    decreases |s|
  {
    var i := IndexOf(s, CRLF);
    if i == |s| then h
    else
      assert At(s, CRLF, i);
      WithFields(WithField(h, s[..i]), s[i + 2..])
  }

  /** Status line first, then one field a line; the last Content-Type counts. */
  function HeaderOf(s: string): Header {
    var i := IndexOf(s, CRLF);
    if i == |s| then Header(0, None)
    else
      assert At(s, CRLF, i);
      WithFields(Header(StatusOf(s[..i]), None), s[i + 2..])
  }
}

/** What a response stream means: its header and its body, however the header text is read and judged. */
module Responses {
  import opened CText
  import opened Headers
  import opened Splits

  const BLANK_LINE := "\r\n\r\n"
  const READ_SIZE := 1024

  /** What the string functions see of the bytes. */
  function Visible(data: string): string {
    data[..Nul(data, 0)]
  }

  /** How far a stream has come: without a header yet, with its header refused, or with a header and this body. */
  datatype Outcome<H> = NoHeader(text: string) | Rejected(header: H) | Accepted(header: H, body: string)

  /** The first blank line ends the header; the line end before it belongs to the header text. */
  function OutcomeOf<H>(data: string, parse: string -> H, accept: H -> bool): Outcome<H> {
    var t := Visible(data);
    var i := IndexOf(t, BLANK_LINE);
    if i == |t| then NoHeader(data)
    else
      assert At(t, BLANK_LINE, i);
      var h := parse(data[..i + 2]);
      if accept(h) then Accepted(h, data[i + 4..]) else Rejected(h)
  }

  /** One more read.  The one that completes the header keeps of the body only what comes before a NUL. */
  function Taken<H>(o: Outcome<H>, bytes: string, parse: string -> H, accept: H -> bool): Outcome<H> {
    match o
    case Accepted(h, b) => Accepted(h, b + bytes)
    case Rejected(_) => o
    case NoHeader(text) =>
      match OutcomeOf(text + bytes, parse, accept)
      case Accepted(h, b) => Accepted(h, Visible(b))
      case NoHeader(t) => NoHeader(t)
      case Rejected(h) => Rejected(h)
  }

  // ---------------------------------------------------------------- the reads of a stream

  datatype Read = Chunk(bytes: string) | Again | Fail | Eof

  datatype Ending = Finished | Failed | Refused | Waiting

  /** The bytes delivered before the stream ends. */
  function Data(events: seq<Read>): string {
    if events == [] || events[0].Fail? || events[0].Eof? then ""
    else (if events[0].Chunk? then events[0].bytes else "") + Data(events[1..])
  }

  function EndOf(events: seq<Read>): Ending {
    if events == [] then Waiting
    else if events[0].Fail? then Failed
    else if events[0].Eof? then Finished
    else EndOf(events[1..])
  }

  /** All reads until the stream ends, one after the other. */
  function Folded<H>(o: Outcome<H>, events: seq<Read>, parse: string -> H, accept: H -> bool): Outcome<H>
    decreases |events|
  {
    if events == [] || events[0].Fail? || events[0].Eof? then o
    else if events[0].Again? then Folded(o, events[1..], parse, accept)
    else Folded(Taken(o, events[0].bytes, parse, accept), events[1..], parse, accept)
  }

  function Held<H>(o: Outcome<H>): string {
    match o
    case NoHeader(text) => text
    case Accepted(_, b) => b
    case Rejected(_) => ""
  }

  /** Every read finds room in a buffer of that size, with one place left for the terminator. */
  predicate Fits<H>(o: Outcome<H>, events: seq<Read>, size: nat, parse: string -> H, accept: H -> bool)
    decreases |events|
  {
    events == [] || events[0].Fail? || events[0].Eof? || o.Rejected? ||
    if events[0].Again? then Fits(o, events[1..], size, parse, accept)
    else
      && |Held(o)| + |events[0].bytes| < size
      && Fits(Taken(o, events[0].bytes, parse, accept), events[1..], size, parse, accept)
  }

  /** Streams shorter than the buffer always fit. */
  lemma {:induction false} ShortFits<H>(o: Outcome<H>, events: seq<Read>, size: nat, parse: string -> H,
                                        accept: H -> bool)
    requires |Held(o)| + |Data(events)| < size
    ensures Fits(o, events, size, parse, accept)
    decreases |events|
  {
    if events != [] && !events[0].Fail? && !events[0].Eof? && !o.Rejected? {
      if events[0].Again? {
        ShortFits(o, events[1..], size, parse, accept);
      } else {
        HeldGrows(o, events[0].bytes, parse, accept);
        ShortFits(Taken(o, events[0].bytes, parse, accept), events[1..], size, parse, accept);
      }
    }
  }

  lemma HeldGrows<H>(o: Outcome<H>, bytes: string, parse: string -> H, accept: H -> bool)
    ensures |Held(Taken(o, bytes, parse, accept))| <= |Held(o)| + |bytes|
  {}

  /** What the next read does to fold, fit and end. */
  lemma NextRead<H>(o: Outcome<H>, events: seq<Read>, i: nat, size: nat, parse: string -> H, accept: H -> bool)
    requires i < |events| && !o.Rejected? && Fits(o, events[i..], size, parse, accept)
    ensures var es, rest := events[i..], events[i + 1..];
            match events[i]
            case Again =>
              && Folded(o, es, parse, accept) == Folded(o, rest, parse, accept)
              && Fits(o, rest, size, parse, accept) && EndOf(es) == EndOf(rest)
            case Chunk(bytes) =>
              && |Held(o)| + |bytes| < size
              && Folded(o, es, parse, accept) == Folded(Taken(o, bytes, parse, accept), rest, parse, accept)
              && Fits(Taken(o, bytes, parse, accept), rest, size, parse, accept) && EndOf(es) == EndOf(rest)
            case Fail => Folded(o, es, parse, accept) == o && EndOf(es) == Failed
            case Eof => Folded(o, es, parse, accept) == o && EndOf(es) == Finished
  {
    assert events[i..][0] == events[i] && events[i..][1..] == events[i + 1..];
  }

  lemma {:induction false} RefusedStays<H>(o: Outcome<H>, events: seq<Read>, parse: string -> H, accept: H -> bool)
    requires o.Rejected?
    ensures Folded(o, events, parse, accept) == o
    decreases |events|
  {
    if events != [] && !events[0].Fail? && !events[0].Eof? { RefusedStays(o, events[1..], parse, accept); }
  }

  lemma {:induction false} StreamEnds(es: seq<Read>, rest: seq<Read>)
    requires forall k :: 0 <= k < |es| ==> es[k].Chunk? || es[k].Again?
    ensures EndOf(es) == Waiting && EndOf(es + [Eof] + rest) == Finished && EndOf(es + [Fail] + rest) == Failed
    ensures Data(es + [Eof] + rest) == Data(es + [Fail] + rest) == Data(es)
    decreases |es|
  {
    if es == [] {
      assert [] + [Eof] + rest == [Eof] + rest && [] + [Fail] + rest == [Fail] + rest;
    } else {
      StreamEnds(es[1..], rest);
      assert (es + [Eof] + rest)[1..] == es[1..] + [Eof] + rest;
      assert (es + [Fail] + rest)[1..] == es[1..] + [Fail] + rest;
    }
  }

  // ---------------------------------------------------------------- taking a stream apart

  /** The outcome on a stream taken apart at its first blank line; behind a NUL that is never found. */
  lemma OutcomeParts<H>(head: string, body: string, parse: string -> H, accept: H -> bool)
    requires Ends(head, BLANK_LINE)
    ensures var s, h := head + "\r\n\r\n" + body, parse(head + "\r\n");
            OutcomeOf(s, parse, accept) ==
            if NUL in head then NoHeader(s) else if accept(h) then Accepted(h, body) else Rejected(h)
  {
    var s := head + BLANK_LINE + body;
    if NUL in head {
      HeadCut(head, BLANK_LINE + body);
      assert head + (BLANK_LINE + body) == s;
    } else {
      VisibleParts(head + BLANK_LINE, body);
      IndexParts(head, BLANK_LINE, Visible(body));
      assert s[..|head| + 2] == head + CRLF && s[|head| + 4..] == body;
    }
  }

  lemma HeadCut(head: string, rest: string)
    requires Ends(head, BLANK_LINE) && NUL in head
    ensures IndexOf(Visible(head + rest), BLANK_LINE) == |Visible(head + rest)|
  {
    var n := Nul(head, 0);
    NulIs(head + rest, n);
    var t, x := head[..n], head[n..] + BLANK_LINE;
    assert Visible(head + rest) == t;
    assert "" + t + x == head + BLANK_LINE;
    forall k | 0 <= k < n ensures !At(t, BLANK_LINE, k) {
      if k + 4 <= n { AtInside("", t, x, BLANK_LINE, k); }
    }
  }

  lemma VisibleParts(a: string, b: string)
    requires NUL !in a
    ensures Visible(a + b) == a + Visible(b)
  {
    var n := |a| + Nul(b, 0);
    forall k | 0 <= k < n ensures (a + b)[k] != NUL {
      if k < |a| { assert a[k] in a; }
    }
    NulIs(a + b, n);
  }

  lemma NulIs(a: seq<char>, n: nat)
    requires n <= |a| && (n < |a| ==> a[n] == NUL) && forall k :: 0 <= k < n ==> a[k] != NUL
    ensures Nul(a, 0) == n
  {}

  lemma OutcomeSplits<H>(data: string, parse: string -> H, accept: H -> bool) returns (head: string, body: string)
    requires !OutcomeOf(data, parse, accept).NoHeader?
    ensures Ends(head, BLANK_LINE) && NUL !in head && data == head + BLANK_LINE + body
  {
    var t := Visible(data);
    var i := IndexOf(t, BLANK_LINE);
    assert At(t, BLANK_LINE, i);
    head, body := data[..i], data[i + 4..];
    assert At(data, BLANK_LINE, i) by { assert t[i..i + 4] == data[i..i + 4]; }
    CutAt(data, BLANK_LINE, 0, i);
    CutAt(t, BLANK_LINE, 0, i);
    assert head == data[0..i] == t[0..i] && data[0..] == data && t[0..] == t;
    IndexParts(head, BLANK_LINE, t[i + 4..]);
  }

  // ---------------------------------------------------------------- growing streams

  lemma Longer(data: string, more: string, k: nat)
    requires k <= |data|
    ensures (data + more)[..k] == data[..k] && (data + more)[k..] == data[k..] + more
  {}

  lemma VisibleGrows(data: string, more: string) returns (x: string)
    ensures Visible(data + more) == Visible(data) + x
    ensures NUL in data ==> x == ""
  {
    var n := Nul(data, 0);
    if n == |data| {
      assert NUL !in data;
      VisibleParts(data, more);
      x := Visible(more);
    } else {
      NulIs(data + more, n);
      x := "";
    }
  }

  /** Once the header is complete, more data only makes the body longer. */
  lemma OutcomeGrows<H>(data: string, more: string, parse: string -> H, accept: H -> bool)
    ensures var o := OutcomeOf(data, parse, accept);
            match o
            case Accepted(h, b) => OutcomeOf(data + more, parse, accept) == Accepted(h, b + more)
            case Rejected(h) => OutcomeOf(data + more, parse, accept) == o
            case NoHeader(_) => true
  {
    var t := Visible(data);
    var i := IndexOf(t, BLANK_LINE);
    if i < |t| {
      var x := VisibleGrows(data, more);
      IndexStays(t, BLANK_LINE, x);
      assert At(t, BLANK_LINE, i);
      Longer(data, more, i + 2);
      Longer(data, more, i + 4);
    }
  }

  lemma OutcomeFound<H>(data: string, i: nat, parse: string -> H, accept: H -> bool)
    requires i == IndexOf(Visible(data), BLANK_LINE) < |Visible(data)|
    ensures i + 4 <= |Visible(data)| <= |data|
    ensures var h := parse(data[..i + 2]);
            OutcomeOf(data, parse, accept) == if accept(h) then Accepted(h, data[i + 4..]) else Rejected(h)
  {
    assert At(Visible(data), BLANK_LINE, i);
  }

  /** The read that completes the header brings at least the last character of the blank line. */
  lemma FoundLate<H>(data: string, bytes: string, parse: string -> H, accept: H -> bool)
    requires OutcomeOf(data, parse, accept).NoHeader? && OutcomeOf(data + bytes, parse, accept).Accepted?
    ensures |OutcomeOf(data + bytes, parse, accept).body| < |bytes|
  {
    var t, u := Visible(data), Visible(data + bytes);
    var x := VisibleGrows(data, bytes);
    var i := IndexOf(u, BLANK_LINE);
    OutcomeFound(data + bytes, i, parse, accept);
    assert At(u, BLANK_LINE, i);
    NotWithin(t, x, i);
    assert |t| < |data| ==> NUL in data;
  }

  lemma NotWithin(t: string, x: string, i: nat)
    requires IndexOf(t, BLANK_LINE) == |t| && At(t + x, BLANK_LINE, i)
    ensures i + 4 > |t|
  {
    assert "" + t + x == t + x;
    if i + 4 <= |t| { AtInside("", t, x, BLANK_LINE, i); }
  }
}

/** When the way a stream is cut into reads makes no difference. */
module Chunking {
  import opened CText
  import opened Responses

  ghost predicate ReadsUpTo(events: seq<Read>, size: nat) {
    forall k :: 0 <= k < |events| && events[k].Chunk? ==> 1 <= |events[k].bytes| <= size
  }

  /** None of the first n characters of the body is a NUL. */
  ghost predicate ClearTo<H>(o: Outcome<H>, n: int) {
    o.Accepted? ==> forall k :: 0 <= k < |o.body| && k < n ==> o.body[k] != NUL
  }

  lemma VisibleAll(b: string)
    requires forall k :: 0 <= k < |b| ==> b[k] != NUL
    ensures Visible(b) == b
  {
    NulIs(b, |b|);
  }

  lemma TakenIs<H>(data: string, bytes: string, size: nat, parse: string -> H, accept: H -> bool)
    requires |bytes| <= size && ClearTo(OutcomeOf(data + bytes, parse, accept), size - 1)
    ensures Taken(OutcomeOf(data, parse, accept), bytes, parse, accept) == OutcomeOf(data + bytes, parse, accept)
  {
    var o, o' := OutcomeOf(data, parse, accept), OutcomeOf(data + bytes, parse, accept);
    OutcomeGrows(data, bytes, parse, accept);
    if o.NoHeader? && o'.Accepted? {
      FoundLate(data, bytes, parse, accept);
      VisibleAll(o'.body);
    }
  }

  lemma ClearEarlier<H>(data: string, more: string, n: int, parse: string -> H, accept: H -> bool)
    requires ClearTo(OutcomeOf(data + more, parse, accept), n)
    ensures ClearTo(OutcomeOf(data, parse, accept), n)
  {
    OutcomeGrows(data, more, parse, accept);
    var o := OutcomeOf(data, parse, accept);
    if o.Accepted? {
      assert forall k :: 0 <= k < |o.body| ==> (o.body + more)[k] == o.body[k];
    }
  }

  /** Reads of at most that size lead where the whole stream leads, unless a NUL comes too early in the body. */
  lemma {:induction false} FoldedIs<H>(data: string, events: seq<Read>, size: nat, parse: string -> H,
                                       accept: H -> bool)
    requires ReadsUpTo(events, size) && ClearTo(OutcomeOf(data + Data(events), parse, accept), size - 1)
    ensures Folded(OutcomeOf(data, parse, accept), events, parse, accept)
         == OutcomeOf(data + Data(events), parse, accept)
    decreases |events|
  {
    if events == [] || events[0].Fail? || events[0].Eof? {
      assert data + "" == data;
    } else if events[0].Again? {
      assert "" + Data(events[1..]) == Data(events[1..]);
      FoldedIs(data, events[1..], size, parse, accept);
    } else {
      var bytes, rest := events[0].bytes, Data(events[1..]);
      assert data + (bytes + rest) == data + bytes + rest;
      ClearEarlier(data + bytes, rest, size - 1, parse, accept);
      TakenIs(data, bytes, size, parse, accept);
      FoldedIs(data + bytes, events[1..], size, parse, accept);
    }
  }

  lemma NoBytes<H>(parse: string -> H, accept: H -> bool)
    ensures OutcomeOf("", parse, accept) == NoHeader("")
  {}

  /** A stream in reads of one byte each. */
  function Bytewise(data: string): seq<Read> {
    if data == "" then [] else [Chunk(data[..1])] + Bytewise(data[1..])
  }

  lemma ChunkFirst(bytes: string, events: seq<Read>)
    ensures var es := [Chunk(bytes)] + events; es[0] == Chunk(bytes) && es[1..] == events
    ensures Data([Chunk(bytes)] + events) == bytes + Data(events)
  {
    assert ([Chunk(bytes)] + events)[1..] == events;
  }

  lemma ReadsConcat(es: seq<Read>, fs: seq<Read>, size: nat)
    requires ReadsUpTo(es, size) && ReadsUpTo(fs, size)
    ensures ReadsUpTo(es + fs, size)
  {
    forall k | 0 <= k < |es + fs| && (es + fs)[k].Chunk? ensures 1 <= |(es + fs)[k].bytes| <= size {
      assert (es + fs)[k] == if k < |es| then es[k] else fs[k - |es|];
    }
  }

  lemma {:induction false} BytewiseReads(data: string, size: nat)
    requires size >= 1
    ensures ReadsUpTo(Bytewise(data), size)
    decreases |data|
  {
    if data != "" {
      BytewiseReads(data[1..], size);
      ReadsConcat([Chunk(data[..1])], Bytewise(data[1..]), size);
    }
  }

  lemma FirstByte(data: string, events: seq<Read>)
    requires data != ""
    ensures Bytewise(data) + events == [Chunk(data[..1])] + (Bytewise(data[1..]) + events)
  {}

  lemma {:induction false} BytewiseData(data: string, events: seq<Read>)
    ensures Data(Bytewise(data) + events) == data + Data(events)
    decreases |data|
  {
    if data == "" {
      assert Bytewise(data) + events == events && data + Data(events) == Data(events);
    } else {
      FirstByte(data, events);
      ChunkFirst(data[..1], Bytewise(data[1..]) + events);
      BytewiseData(data[1..], events);
      FirstBack(data, Data(events));
    }
  }

  lemma FirstBack(data: string, x: string)
    requires data != ""
    ensures data[..1] + (data[1..] + x) == data + x
  {}

  lemma {:induction false} FoldedConcat<H>(o: Outcome<H>, data: string, events: seq<Read>, parse: string -> H,
                                           accept: H -> bool)
    ensures Folded(o, Bytewise(data) + events, parse, accept)
         == Folded(Folded(o, Bytewise(data), parse, accept), events, parse, accept)
    decreases |data|
  {
    if data == "" {
      assert Bytewise(data) + events == events;
    } else {
      var o' := Taken(o, data[..1], parse, accept);
      FirstByte(data, events);
      ChunkFirst(data[..1], Bytewise(data[1..]) + events);
      ChunkFirst(data[..1], Bytewise(data[1..]));
      FoldedConcat(o', data[1..], events, parse, accept);
    }
  }

  /** Byte by byte, every stream leads where it leads as a whole. */
  lemma FoldedBytewise<H>(data: string, parse: string -> H, accept: H -> bool)
    ensures Data(Bytewise(data)) == data && ReadsUpTo(Bytewise(data), 1)
    ensures Folded(NoHeader(""), Bytewise(data), parse, accept) == OutcomeOf(data, parse, accept)
  {
    BytewiseReads(data, 1);
    BytewiseData(data, []);
    assert Bytewise(data) + [] == Bytewise(data) && data + Data([]) == data && "" + data == data;
    NoBytes(parse, accept);
    FoldedIs("", Bytewise(data), 1, parse, accept);
  }

  lemma {:induction false} FoldedBody<H>(h: H, b: string, events: seq<Read>, parse: string -> H, accept: H -> bool)
    ensures Folded(Accepted(h, b), events, parse, accept) == Accepted(h, b + Data(events))
    decreases |events|
  {
    if events == [] || events[0].Fail? || events[0].Eof? {
      assert b + "" == b;
    } else if events[0].Again? {
      assert "" + Data(events[1..]) == Data(events[1..]);
      FoldedBody(h, b, events[1..], parse, accept);
    } else {
      FoldedBody(h, b + events[0].bytes, events[1..], parse, accept);
      assert b + events[0].bytes + Data(events[1..]) == b + (events[0].bytes + Data(events[1..]));
    }
  }

  /** The outcome does not depend on how reads of up to 1024 bytes cut the stream. */
  ghost predicate Independent<H(!new)>(data: string, parse: string -> H, accept: H -> bool) {
    forall es, fs ::
      ReadsUpTo(es, 1024) && ReadsUpTo(fs, 1024) && Data(es) == data == Data(fs) ==>
        Folded(NoHeader(""), es, parse, accept) == Folded(NoHeader(""), fs, parse, accept)
  }

  /** Cut just before the last character of its blank line the stream has no header; cut later it has this one. */
  lemma AroundBlankLine<H>(data: string, k: nat, m: nat, parse: string -> H, accept: H -> bool)
    requires var o := OutcomeOf(data, parse, accept); o.Accepted? && k == |data| - |o.body| - 1 < m <= |data|
    ensures OutcomeOf(data[..k], parse, accept) == NoHeader(data[..k])
    ensures OutcomeOf(data[..m], parse, accept) == Accepted(OutcomeOf(data, parse, accept).header, data[k + 1..m])
  {
    var head, body := OutcomeSplits(data, parse, accept);
    OutcomeParts(head, body, parse, accept);
    assert k == |head| + 3;
    assert data[..m] == head + BLANK_LINE + data[k + 1..m];
    OutcomeParts(head, data[k + 1..m], parse, accept);
    NoHeaderYet(data, k, parse, accept);
  }

  lemma NoHeaderYet<H>(data: string, k: nat, parse: string -> H, accept: H -> bool)
    requires var o := OutcomeOf(data, parse, accept); o.Accepted? && k == |data| - |o.body| - 1 <= |data|
    ensures OutcomeOf(data[..k], parse, accept) == NoHeader(data[..k])
  {
    OutcomeGrows(data[..k], data[k..], parse, accept);
    assert data[..k] + data[k..] == data;
  }

  /** One byte a read up to the last character of the blank line, then one read up to m, then byte by byte again. */
  function LongRead(data: string, k: nat, m: nat): seq<Read>
    requires k <= m <= |data|
  {
    Bytewise(data[..k]) + ([Chunk(data[k..m])] + Bytewise(data[m..]))
  }

  lemma LongReadData(data: string, k: nat, m: nat)
    requires k < m <= |data| && m - k <= READ_SIZE
    ensures ReadsUpTo(LongRead(data, k, m), READ_SIZE) && Data(LongRead(data, k, m)) == data
  {
    var middle, last := [Chunk(data[k..m])], Bytewise(data[m..]);
    BytewiseReads(data[..k], READ_SIZE);
    BytewiseReads(data[m..], READ_SIZE);
    ReadsConcat(middle, last, READ_SIZE);
    ReadsConcat(Bytewise(data[..k]), middle + last, READ_SIZE);
    BytewiseData(data[..k], middle + last);
    ChunkFirst(data[k..m], last);
    BytewiseData(data[m..], []);
    assert last + [] == last && data[m..] + Data([]) == data[m..];
    ThreeParts(data, k, m);
  }

  lemma ThreeParts(data: string, k: nat, m: nat)
    requires k <= m <= |data|
    ensures data[..k] + (data[k..m] + data[m..]) == data && data[..k] + data[k..m] == data[..m]
  {}

  lemma LongReadFolded<H>(data: string, k: nat, m: nat, parse: string -> H, accept: H -> bool)
    requires var o := OutcomeOf(data, parse, accept); o.Accepted? && k == |data| - |o.body| - 1 < m <= |data|
    ensures Folded(NoHeader(""), LongRead(data, k, m), parse, accept)
         == Accepted(OutcomeOf(data, parse, accept).header, Visible(data[k + 1..m]) + data[m..])
  {
    var tail := [Chunk(data[k..m])] + Bytewise(data[m..]);
    FoldedConcat(NoHeader(""), data[..k], tail, parse, accept);
    FoldedBytewise(data[..k], parse, accept);
    AroundBlankLine(data, k, m, parse, accept);
    ThreeParts(data, k, m);
    ChunkFirst(data[k..m], Bytewise(data[m..]));
    FoldedBytewise(data[m..], parse, accept);
    FoldedBody(OutcomeOf(data, parse, accept).header, Visible(data[k + 1..m]), Bytewise(data[m..]), parse, accept);
  }

  /**
   * The outcome is independent of the reads exactly when no NUL is among the first 1023 characters of the body:
   * further ones no read can bring together with the end of the header.
   */
  lemma IndependentExactly<H(!new)>(data: string, parse: string -> H, accept: H -> bool)
    ensures Independent(data, parse, accept) <==> ClearTo(OutcomeOf(data, parse, accept), 1023)
  {
    var o := OutcomeOf(data, parse, accept);
    if ClearTo(o, READ_SIZE - 1) {
      forall es | ReadsUpTo(es, READ_SIZE) && Data(es) == data
        ensures Folded(NoHeader(""), es, parse, accept) == o
      {
        WholeFolded(data, es, parse, accept);
      }
    } else {
      var es, fs := TwoReadings(data, parse, accept);
    }
  }

  lemma WholeFolded<H>(data: string, es: seq<Read>, parse: string -> H, accept: H -> bool)
    requires ReadsUpTo(es, READ_SIZE) && Data(es) == data
    requires ClearTo(OutcomeOf(data, parse, accept), READ_SIZE - 1)
    ensures Folded(NoHeader(""), es, parse, accept) == OutcomeOf(data, parse, accept)
  {
    NoBytes(parse, accept);
    assert "" + data == data;
    FoldedIs("", es, READ_SIZE, parse, accept);
  }

  /** With an early NUL in the body, one long read loses what byte by byte is kept. */
  lemma TwoReadings<H>(data: string, parse: string -> H, accept: H -> bool) returns (es: seq<Read>, fs: seq<Read>)
    requires !ClearTo(OutcomeOf(data, parse, accept), READ_SIZE - 1)
    ensures ReadsUpTo(es, READ_SIZE) && ReadsUpTo(fs, READ_SIZE) && Data(es) == data == Data(fs)
    ensures Folded(NoHeader(""), es, parse, accept) != Folded(NoHeader(""), fs, parse, accept)
  {
    var Accepted(h, b) := OutcomeOf(data, parse, accept);
    var y :| 0 <= y < |b| && y < READ_SIZE - 1 && b[y] == NUL;
    OutcomeBody(data, parse, accept);
    var k := |data| - |b| - 1;
    var m := if k + READ_SIZE < |data| then k + READ_SIZE else |data|;
    es, fs := LongRead(data, k, m), Bytewise(data);
    LongReadData(data, k, m);
    LongReadFolded(data, k, m, parse, accept);
    FoldedBytewise(data, parse, accept);
    BytewiseReads(data, READ_SIZE);
    assert b == data[k + 1..];
    Shortened(data, k + 1, m, y);
  }

  lemma Shortened(data: string, i: nat, m: nat, y: nat)
    requires i <= m <= |data| && i + y < m && data[i + y] == NUL
    ensures Visible(data[i..m]) + data[m..] != data[i..]
  {
    var part := data[i..m];
    assert part[y] == NUL;
    assert |Visible(part)| < |part|;
    assert |Visible(part) + data[m..]| < |data[i..]|;
  }

  lemma OutcomeBody<H>(data: string, parse: string -> H, accept: H -> bool)
    requires OutcomeOf(data, parse, accept).Accepted?
    ensures var b := OutcomeOf(data, parse, accept).body; |b| < |data| && b == data[|data| - |b|..]
  {}
}
