/** Where every URL goes: what the queues hold is what was put in, in order, less what was taken out. */
module Discovery {
  import opened Options
  import opened Bloom
  import opened Scheduler
  import Queues

  // ---------------------------------------------------------------- what a run of steps says by itself

  /** Whether each URL looked up was resolved, in order. */
  function Lookups<U>(ts: seq<Step<U>>): seq<bool> {
    if ts == [] then []
    else
      var n := |ts| - 1;
      if ts[n].Resolve? then Lookups(ts[..n]) + [ts[n].ok] else Lookups(ts[..n])
  }

  /** The links of each page served, in order. */
  function Pages<U>(ts: seq<Step<U>>): seq<seq<U>> {
    if ts == [] then []
    else
      var n := |ts| - 1;
      if ts[n].Serve? then Pages(ts[..n]) + [ts[n].links] else Pages(ts[..n])
  }

  function Registrations<U>(ts: seq<Step<U>>): nat {
    if ts == [] then 0
    else
      var n := |ts| - 1;
      Registrations(ts[..n]) + if ts[n].ParserRegister? || ts[n].HolderRegister? then 1 else 0
  }

  function FailedConnects<U>(ts: seq<Step<U>>): nat {
    if ts == [] then 0
    else
      var n := |ts| - 1;
      FailedConnects(ts[..n]) + if ts[n].ParserFail? || ts[n].HolderFail? then 1 else 0
  }

  ghost predicate Ran<U>(e: Hashes<U>, s: State<U>, ts: seq<Step<U>>) {
    Initial(s) && After(e, s, ts).Some?
  }

  // ---------------------------------------------------------------- the queues

  /** Everything ever to be resolved: what the queue held at first, then what discovery enqueued. */
  ghost predicate SurlHolds<U>(s: State<U>, ts: seq<Step<U>>, r: State<U>) {
    var all, k := s.surl + r.found, |Lookups(ts)|;
    k <= |all| && r.surl == all[k..]
  }

  lemma PutBehind<U>(all: seq<U>, k: nat, url: U)
    requires k <= |all|
    ensures (all + [url])[k..] == all[k..] + [url] && (all + [url])[..k] == all[..k]
  {
  }

  lemma TakeFront<U>(all: seq<U>, k: nat)
    requires k < |all|
    ensures all[k..][0] == all[k] && all[k..][1..] == all[k + 1..] && all[..k + 1] == all[..k] + [all[k]]
  {
  }

  lemma FoundGrows<U>(e: Hashes<U>, s: State<U>, r: State<U>, t: Step<U>)
    requires Enabled(r, t)
    ensures var r' := Do(e, r, t);
            if t.Extract? && !Seen(e, r.bits, r.readers[t.i][0])
            then r'.found == r.found + [r.readers[t.i][0]] && r'.surl == r.surl + [r.readers[t.i][0]]
            else r'.found == r.found && r'.surl == if t.Resolve? then r.surl[1..] else r.surl
  {
  }

  lemma SurlStep<U>(e: Hashes<U>, s: State<U>, ts: seq<Step<U>>, r: State<U>, t: Step<U>)
    requires SurlHolds(s, ts, r) && Enabled(r, t)
    ensures SurlHolds(s, ts + [t], Do(e, r, t))
  {
    assert (ts + [t])[..|ts|] == ts;
    var all, k := s.surl + r.found, |Lookups(ts)|;
    FoundGrows(e, s, r, t);
    if t.Extract? {
      PutBehind(all, k, r.readers[t.i][0]);
      assert s.surl + (r.found + [r.readers[t.i][0]]) == all + [r.readers[t.i][0]];
    } else if t.Resolve? {
      TakeFront(all, k);
    }
  }

  /** Every URL discovered is queued, once and in order, and every lookup takes the next one. */
  lemma {:induction false} SurlIs<U>(e: Hashes<U>, s: State<U>, ts: seq<Step<U>>)
    requires Ran(e, s, ts)
    ensures var r, k := After(e, s, ts).value, |Lookups(ts)|;
            k <= |s.surl + r.found| && r.surl == (s.surl + r.found)[k..]
    decreases |ts|
  {
    if ts == [] {
      assert s.surl + [] == s.surl;
    } else {
      var n := |ts| - 1;
      SurlIs(e, s, ts[..n]);
      SurlStep(e, s, ts[..n], After(e, s, ts[..n]).value, ts[n]);
      assert ts[..n] + [ts[n]] == ts;
    }
  }

  /** The URLs that were resolved, in order. */
  ghost function Resolved<U>(s: State<U>, ts: seq<Step<U>>, r: State<U>): seq<U>
    requires SurlHolds(s, ts, r)
  {
    Queues.Kept((s.surl + r.found)[..|Lookups(ts)|], Lookups(ts))
  }

  /** Connections ever begun: those that led to a socket or failed, and those in progress. */
  function Begun<U>(ts: seq<Step<U>>, r: State<U>): nat {
    Registrations(ts) + FailedConnects(ts) + Connections(r)
  }

  ghost predicate OurlHolds<U>(s: State<U>, ts: seq<Step<U>>, r: State<U>) {
    && SurlHolds(s, ts, r)
    && Begun(ts, r) <= |Resolved(s, ts, r)| && r.ourl == Resolved(s, ts, r)[Begun(ts, r)..]
  }

  lemma KeptSnoc<U>(urls: seq<U>, flags: seq<bool>, url: U, ok: bool)
    requires |urls| == |flags|
    ensures Queues.Kept(urls + [url], flags + [ok])
         == if ok then Queues.Kept(urls, flags) + [url] else Queues.Kept(urls, flags)
  {
    assert (urls + [url])[..|urls|] == urls && (flags + [ok])[..|flags|] == flags;
  }

  /** A lookup adds its URL to the resolved ones if it succeeds; nothing else changes them. */
  lemma ResolvedStep<U>(e: Hashes<U>, s: State<U>, ts: seq<Step<U>>, r: State<U>, t: Step<U>)
    requires SurlHolds(s, ts, r) && Enabled(r, t)
    ensures SurlHolds(s, ts + [t], Do(e, r, t))
    ensures Resolved(s, ts + [t], Do(e, r, t))
         == if t.Resolve? && t.ok then Resolved(s, ts, r) + [r.surl[0]] else Resolved(s, ts, r)
  {
    SurlStep(e, s, ts, r, t);
    assert (ts + [t])[..|ts|] == ts;
    var all, k, flags := s.surl + r.found, |Lookups(ts)|, Lookups(ts);
    FoundGrows(e, s, r, t);
    if t.Extract? {
      PutBehind(all, k, r.readers[t.i][0]);
      assert s.surl + (r.found + [r.readers[t.i][0]]) == all + [r.readers[t.i][0]];
    } else if t.Resolve? {
      TakeFront(all, k);
      KeptSnoc(all[..k], flags, all[k], t.ok);
    }
  }

  predicate Pops<U>(r: State<U>, t: Step<U>) {
    (t.ParserPop? || t.HolderPop?) && r.ourl != []
  }

  lemma Connecting<U>(e: Hashes<U>, r: State<U>, t: Step<U>)
    requires Enabled(r, t)
    ensures Do(e, r, t).ourl ==
            if t.Resolve? && t.ok then r.ourl + [r.surl[0]] else if Pops(r, t) then r.ourl[1..] else r.ourl
    ensures Connections(Do(e, r, t)) - Connections(r) ==
            if Pops(r, t) then 1
            else if t.ParserRegister? || t.HolderRegister? || t.ParserFail? || t.HolderFail? then -1
            else 0
  {
  }

  lemma Beginning<U>(e: Hashes<U>, ts: seq<Step<U>>, r: State<U>, t: Step<U>)
    requires Enabled(r, t)
    ensures Begun(ts + [t], Do(e, r, t)) == if Pops(r, t) then Begun(ts, r) + 1 else Begun(ts, r)
  {
    Connecting(e, r, t);
    assert (ts + [t])[..|ts|] == ts;
  }

  lemma OurlStep<U>(e: Hashes<U>, s: State<U>, ts: seq<Step<U>>, r: State<U>, t: Step<U>)
    requires OurlHolds(s, ts, r) && Enabled(r, t)
    ensures OurlHolds(s, ts + [t], Do(e, r, t))
  {
    ResolvedStep(e, s, ts, r, t);
    Connecting(e, r, t);
    Beginning(e, ts, r, t);
    var m, done := Begun(ts, r), Resolved(s, ts, r);
    if t.Resolve? && t.ok { PutBehind(done, m, r.surl[0]); }
    if Pops(r, t) { TakeFront(done, m); }
  }

  /** What waits to be fetched is what was resolved, in order, less one URL for each connection begun. */
  lemma {:induction false} OurlIs<U>(e: Hashes<U>, s: State<U>, ts: seq<Step<U>>)
    requires Ran(e, s, ts)
    ensures OurlHolds(s, ts, After(e, s, ts).value)
    decreases |ts|
  {
    if ts == [] {
      SurlIs(e, s, ts);
    } else {
      var n := |ts| - 1;
      OurlIs(e, s, ts[..n]);
      OurlStep(e, s, ts[..n], After(e, s, ts[..n]).value, ts[n]);
      assert ts[..n] + [ts[n]] == ts;
    }
  }

  lemma Serving<U>(e: Hashes<U>, r: State<U>, t: Step<U>)
    requires Enabled(r, t)
    ensures var r' := Do(e, r, t);
            (r'.waiting + r'.lost) - (r.waiting + r.lost) ==
            if t.ParserRegister? || t.HolderRegister? then 1 else if t.Serve? then -1 else 0
  {
  }

  /** Every socket registered waits, has been lost or has had its page served. */
  lemma {:induction false} PagesAre<U>(e: Hashes<U>, s: State<U>, ts: seq<Step<U>>)
    requires Ran(e, s, ts)
    ensures var r := After(e, s, ts).value; Registrations(ts) == r.waiting + r.lost + |Pages(ts)|
    decreases |ts|
  {
    if ts != [] {
      var n := |ts| - 1;
      PagesAre(e, s, ts[..n]);
      Serving(e, After(e, s, ts[..n]).value, ts[n]);
    }
  }

  // ---------------------------------------------------------------- the links

  /** The links taken from pages, in the order they were taken. */
  ghost function Links<U>(e: Hashes<U>, s: State<U>, ts: seq<Step<U>>): seq<U>
    requires After(e, s, ts).Some?
    decreases |ts|
  {
    if ts == [] then []
    else
      var n := |ts| - 1;
      if ts[n].Extract? then Links(e, s, ts[..n]) + [After(e, s, ts[..n]).value.readers[ts[n].i][0]]
      else Links(e, s, ts[..n])
  }

  /** Those of the URLs that a filter, empty at first, reports as new when they are searched in this order. */
  ghost function NewOnes<U>(e: Hashes<U>, urls: seq<U>): seq<U>
    decreases |urls|
  {
    if urls == [] then []
    else
      var before, url := urls[..|urls| - 1], urls[|urls| - 1];
      if Seen(e, RememberAll(e, {}, before), url) then NewOnes(e, before) else NewOnes(e, before) + [url]
  }

  ghost predicate SeenAll<U>(e: Hashes<U>, bits: set<int>, urls: seq<U>) {
    forall k :: 0 <= k < |urls| ==> Seen(e, bits, urls[k])
  }

  lemma NothingToRemember<U>(e: Hashes<U>, bits: set<int>, url: U)
    requires Seen(e, bits, url)
    ensures Remember(e, bits, url) == bits
  {
  }

  lemma LinkSnoc<U>(e: Hashes<U>, urls: seq<U>, url: U)
    ensures RememberAll(e, {}, urls + [url]) == Remember(e, RememberAll(e, {}, urls), url)
    ensures NewOnes(e, urls + [url])
         == if Seen(e, RememberAll(e, {}, urls), url) then NewOnes(e, urls) else NewOnes(e, urls) + [url]
  {
    assert (urls + [url])[..|urls|] == urls;
  }

  lemma Extracting<U>(e: Hashes<U>, r: State<U>, t: Step<U>)
    requires Enabled(r, t) && t.Extract?
    ensures var url, r' := r.readers[t.i][0], Do(e, r, t);
            if Seen(e, r.bits, url) then r'.found == r.found && r'.bits == r.bits
            else r'.found == r.found + [url] && r'.bits == Remember(e, r.bits, url)
    ensures Seen(e, r.bits, r.readers[t.i][0]) ==> Remember(e, r.bits, r.readers[t.i][0]) == r.bits
  {
  }

  lemma Elsewhere<U>(e: Hashes<U>, r: State<U>, t: Step<U>)
    requires Enabled(r, t) && !t.Extract?
    ensures Do(e, r, t).found == r.found && Do(e, r, t).bits == r.bits
  {
  }

  /** Discovery is one pass of the filter over the links: it enqueues the ones that are new, and no others. */
  lemma {:induction false} FoundIs<U>(e: Hashes<U>, s: State<U>, ts: seq<Step<U>>)
    requires Ran(e, s, ts)
    ensures var r, links := After(e, s, ts).value, Links(e, s, ts);
            r.found == NewOnes(e, links) && r.bits == RememberAll(e, {}, links)
    decreases |ts|
  {
    if ts != [] {
      var n := |ts| - 1;
      FoundIs(e, s, ts[..n]);
      var r, t := After(e, s, ts[..n]).value, ts[n];
      if t.Extract? {
        LinkSnoc(e, Links(e, s, ts[..n]), r.readers[t.i][0]);
        Extracting(e, r, t);
      } else {
        Elsewhere(e, r, t);
      }
    }
  }

  /** So every link taken tests as seen, and the filter holds the bits of the discovered URLs and no others. */
  lemma LinksSeen<U>(e: Hashes<U>, s: State<U>, ts: seq<Step<U>>)
    requires Ran(e, s, ts)
    ensures var r, links := After(e, s, ts).value, Links(e, s, ts);
            SeenAll(e, r.bits, links) && r.bits == AllPositions(e, r.found)
  {
    FoundIs(e, s, ts);
    var links := Links(e, s, ts);
    forall k | 0 <= k < |links| ensures Seen(e, RememberAll(e, {}, links), links[k]) { SeenForEver(e, {}, links, k); }
    NewOnesCover(e, links);
    HistoryIsUnion(e, {}, NewOnes(e, links));
  }

  /** URLs reported as seen add nothing to the filter. */
  lemma {:induction false} NewOnesCover<U>(e: Hashes<U>, urls: seq<U>)
    ensures RememberAll(e, {}, NewOnes(e, urls)) == RememberAll(e, {}, urls)
    decreases |urls|
  {
    if urls != [] {
      var before, url := urls[..|urls| - 1], urls[|urls| - 1];
      NewOnesCover(e, before);
      assert urls == before + [url];
      if Seen(e, RememberAll(e, {}, before), url) {
        NothingToRemember(e, RememberAll(e, {}, before), url);
      } else {
        LinkSnoc(e, NewOnes(e, before), url);
      }
    }
  }

  // ---------------------------------------------------------------- the readers

  /** The page a reader was started for, the links it has taken from it so far, and whether it has finished. */
  datatype Job<U> = Job(page: seq<U>, taken: seq<U>, ended: bool)

  /** All readers ever started, in order, and which of them each reader thread is. */
  datatype Crew<U> = Crew(jobs: seq<Job<U>>, at: seq<nat>)

  ghost predicate Manned<U>(c: Crew<U>, r: State<U>) {
    |c.at| == |r.readers| && forall i :: 0 <= i < |c.at| ==> c.at[i] < |c.jobs|
  }

  ghost function CrewStep<U>(c: Crew<U>, r: State<U>, t: Step<U>): Crew<U>
    requires Enabled(r, t) && Manned(c, r)
  {
    match t
    case Serve(links) => Crew(c.jobs + [Job(links, [], false)], c.at + [|c.jobs|])
    case Extract(i) =>
      var j := c.jobs[c.at[i]];
      c.(jobs := c.jobs[c.at[i] := j.(taken := j.taken + [r.readers[i][0]])])
    case Finish(i) =>
      Crew(c.jobs[c.at[i] := c.jobs[c.at[i]].(ended := true)], c.at[..i] + c.at[i + 1..])
    case _ => c
  }

  lemma MannedStep<U>(e: Hashes<U>, c: Crew<U>, r: State<U>, t: Step<U>)
    requires Enabled(r, t) && Manned(c, r)
    ensures Manned(CrewStep(c, r, t), Do(e, r, t))
  {
  }

  ghost function CrewOf<U>(e: Hashes<U>, s: State<U>, ts: seq<Step<U>>): (c: Crew<U>)
    requires Ran(e, s, ts)
    ensures Manned(c, After(e, s, ts).value)
    decreases |ts|
  {
    if ts == [] then Crew([], [])
    else
      var n := |ts| - 1;
      MannedStep(e, CrewOf(e, s, ts[..n]), After(e, s, ts[..n]).value, ts[n]);
      CrewStep(CrewOf(e, s, ts[..n]), After(e, s, ts[..n]).value, ts[n])
  }

  /** A reader thread has taken its page's links in order, up to those it has left. */
  ghost predicate Halfway<U>(j: Job<U>, left: seq<U>) {
    !j.ended && j.page == j.taken + left
  }

  ghost predicate Working<U>(c: Crew<U>, r: State<U>) {
    && Manned(c, r)
    && (forall i :: 0 <= i < |c.at| ==> Halfway(c.jobs[c.at[i]], r.readers[i]))
    && (forall i, k :: 0 <= i < k < |c.at| ==> c.at[i] != c.at[k])
  }

  /** Readers that have finished have taken all links of their page; the others are at work. */
  ghost predicate Finished<U>(c: Crew<U>) {
    forall j :: 0 <= j < |c.jobs| ==> if c.jobs[j].ended then c.jobs[j].page == c.jobs[j].taken else j in c.at
  }

  lemma NextLink<U>(taken: seq<U>, left: seq<U>)
    requires left != []
    ensures taken + left == (taken + [left[0]]) + left[1..]
  {
  }

  lemma WorkingStep<U>(e: Hashes<U>, c: Crew<U>, r: State<U>, t: Step<U>)
    requires Enabled(r, t) && Working(c, r)
    ensures Working(CrewStep(c, r, t), Do(e, r, t))
  {
    MannedStep(e, c, r, t);
    if t.Serve? {
      assert [] + t.links == t.links;
    } else if t.Extract? {
      NextLink(c.jobs[c.at[t.i]].taken, r.readers[t.i]);
    }
  }

  lemma FinishedStep<U>(e: Hashes<U>, c: Crew<U>, r: State<U>, t: Step<U>)
    requires Enabled(r, t) && Working(c, r) && Finished(c)
    ensures Finished(CrewStep(c, r, t))
  {
    var d := CrewStep(c, r, t);
    if t.Serve? {
      assert d.at[|c.at|] == |c.jobs|;
      assert forall i :: 0 <= i < |c.at| ==> d.at[i] == c.at[i];
    } else if t.Finish? {
      assert Halfway(c.jobs[c.at[t.i]], r.readers[t.i]);
      forall j | 0 <= j < |d.jobs| && !d.jobs[j].ended ensures j in d.at {
        var k :| 0 <= k < |c.at| && c.at[k] == j;
        assert d.at[if k < t.i then k else k - 1] == j;
      }
    }
  }

  lemma PagesStep<U>(c: Crew<U>, r: State<U>, t: Step<U>)
    requires Enabled(r, t) && Manned(c, r)
    ensures PagesOf(CrewStep(c, r, t).jobs) == if t.Serve? then PagesOf(c.jobs) + [t.links] else PagesOf(c.jobs)
  {
  }

  function PagesOf<U>(jobs: seq<Job<U>>): (ps: seq<seq<U>>)
    ensures |ps| == |jobs|
  {
    seq(|jobs|, j requires 0 <= j < |jobs| => jobs[j].page)
  }

  /** Each page served has one reader, which takes the page's links and no others, in order, all before it finishes. */
  lemma {:induction false} ReadersTake<U>(e: Hashes<U>, s: State<U>, ts: seq<Step<U>>)
    requires Ran(e, s, ts)
    ensures var c := CrewOf(e, s, ts);
            PagesOf(c.jobs) == Pages(ts) && Working(c, After(e, s, ts).value) && Finished(c)
    decreases |ts|
  {
    if ts != [] {
      var n := |ts| - 1;
      ReadersTake(e, s, ts[..n]);
      var c, r := CrewOf(e, s, ts[..n]), After(e, s, ts[..n]).value;
      WorkingStep(e, c, r, ts[n]);
      FinishedStep(e, c, r, ts[n]);
      PagesStep(c, r, ts[n]);
    }
  }

  ghost predicate AllIn<U>(xs: seq<U>, ys: seq<U>) {
    forall i :: 0 <= i < |xs| ==> xs[i] in ys
  }

  lemma TakenStep<U>(c: Crew<U>, r: State<U>, t: Step<U>, links: seq<U>)
    requires Enabled(r, t) && Manned(c, r) && forall j :: 0 <= j < |c.jobs| ==> AllIn(c.jobs[j].taken, links)
    ensures var more, d := if t.Extract? then links + [r.readers[t.i][0]] else links, CrewStep(c, r, t);
            forall j :: 0 <= j < |d.jobs| ==> AllIn(d.jobs[j].taken, more)
  {
  }

  lemma {:induction false} TakenAreLinks<U>(e: Hashes<U>, s: State<U>, ts: seq<Step<U>>, j: int)
    requires Ran(e, s, ts) && 0 <= j < |CrewOf(e, s, ts).jobs|
    ensures AllIn(CrewOf(e, s, ts).jobs[j].taken, Links(e, s, ts))
    decreases |ts|
  {
    if ts != [] {
      var n := |ts| - 1;
      var c := CrewOf(e, s, ts[..n]);
      forall k | 0 <= k < |c.jobs| ensures AllIn(c.jobs[k].taken, Links(e, s, ts[..n])) {
        TakenAreLinks(e, s, ts[..n], k);
      }
      TakenStep(c, After(e, s, ts[..n]).value, ts[n], Links(e, s, ts[..n]));
    }
  }

  // ---------------------------------------------------------------- a crawl that has come to its end

  lemma NoneFailed<U>(ts: seq<Step<U>>)
    requires AllAllowed(NO_FAULTS, ts)
    ensures FailedConnects(ts) == 0
    decreases |ts|
  {
    if ts != [] {
      assert Allowed(NO_FAULTS, ts[|ts| - 1]);
      NoneFailed(ts[..|ts| - 1]);
    }
  }

  /**
   * When a run without faults has come to its end, every URL queued at first or discovered has been looked up, every
   * one that was resolved has been fetched, and every link on the pages tests as seen.
   */
  lemma CrawlComplete<U(!new)>(e: Hashes<U>, s: State<U>, ts: seq<Step<U>>)
    requires Ran(e, s, ts) && s.maxJobs >= 1 && AllAllowed(NO_FAULTS, ts) && Stuck(After(e, s, ts).value)
    ensures var r := After(e, s, ts).value;
            && |Lookups(ts)| == |s.surl + r.found|
            && |Pages(ts)| == |Queues.Kept(s.surl + r.found, Lookups(ts))|
            && forall j :: 0 <= j < |Pages(ts)| ==> SeenAll(e, r.bits, Pages(ts)[j])
  {
    var r := After(e, s, ts).value;
    AttendedAlways(e, s, ts);
    AllDone(e, s, ts);
    StuckIs(r);
    SurlIs(e, s, ts);
    OurlIs(e, s, ts);
    PagesAre(e, s, ts);
    NoneFailed(ts);
    var all := s.surl + r.found;
    assert all[..|all|] == all;
    forall j | 0 <= j < |Pages(ts)| ensures SeenAll(e, r.bits, Pages(ts)[j]) { PageSeen(e, s, ts, j); }
  }

  lemma AllSeen<U>(e: Hashes<U>, bits: set<int>, page: seq<U>, links: seq<U>)
    requires AllIn(page, links) && SeenAll(e, bits, links)
    ensures SeenAll(e, bits, page)
  {
    forall k | 0 <= k < |page| ensures Seen(e, bits, page[k]) {
      assert page[k] in links;
      var i :| 0 <= i < |links| && links[i] == page[k];
    }
  }

  lemma PageSeen<U>(e: Hashes<U>, s: State<U>, ts: seq<Step<U>>, j: int)
    requires Ran(e, s, ts) && After(e, s, ts).value.readers == [] && 0 <= j < |Pages(ts)|
    ensures SeenAll(e, After(e, s, ts).value.bits, Pages(ts)[j])
  {
    ReadersTake(e, s, ts);
    var c, links := CrewOf(e, s, ts), Links(e, s, ts);
    assert PagesOf(c.jobs)[j] == c.jobs[j].page;
    TakenAreLinks(e, s, ts, j);
    LinksSeen(e, s, ts);
    assert AllIn(Pages(ts)[j], links);
    AllSeen(e, After(e, s, ts).value.bits, Pages(ts)[j], links);
  }
}
