/** Discovery and termination of the crawl the scheduler runs, for any web, finite or not. */
module Crawl {
  import opened Options
  import opened Bloom
  import opened Scheduler

  // ---------------------------------------------------------------- what discovery enqueues

  /** Discovered URLs are in the filter, pairwise different, and each cost at least one bit. */
  ghost predicate Recorded<U>(e: Hashes<U>, s: State<U>) {
    && InFilter(s.bits)
    && (forall k :: 0 <= k < |s.found| ==> Seen(e, s.bits, s.found[k]))
    && (forall j, k :: 0 <= j < k < |s.found| ==> s.found[j] != s.found[k])
    && |s.found| <= |s.bits|
  }

  lemma RecordedStep<U>(e: Hashes<U>, s: State<U>, t: Step<U>)
    requires Recorded(e, s) && Enabled(s, t)
    ensures Recorded(e, Do(e, s, t))
  {
    if t.Extract? && !Seen(e, s.bits, s.readers[t.i][0]) {
      RememberInFilter(e, s.bits, s.readers[t.i][0]);
      NewUrlGrows(e, s.bits, s.readers[t.i][0]);
    }
  }

  /** In every run at most 32,000,000 URLs are enqueued by discovery, and no URL twice. */
  lemma {:induction false} DiscoveryBounded<U>(e: Hashes<U>, s: State<U>, ts: seq<Step<U>>)
    requires Initial(s) && After(e, s, ts).Some?
    ensures var r := After(e, s, ts).value;
      Recorded(e, r) && |r.found| <= |r.bits| <= 32_000_000
    decreases |ts|
  {
    if ts != [] {
      var n := |ts| - 1;
      DiscoveryBounded(e, s, ts[..n]);
      RecordedStep(e, After(e, s, ts[..n]).value, ts[n]);
    }
    AtMost(After(e, s, ts).value.bits, LIMIT);
  }

  // ---------------------------------------------------------------- the measure

  function ParserWork(p: Parser): nat {
    match p
    case Idle => 0
    case Registered => 1
    case Connecting => 7
    case SawZero => 1
    case Pushed => 2
  }

  function HolderWork(h: Holder): nat {
    match h
    case Free => 0
    case Owes(k) => 1 + k
    case HolderRegistered(k) => 1 + k
    case HolderConnecting(k) => 7 + k
  }

  /** Work left on the URLs and jobs at hand, each stage weighing more than what it can turn into. */
  function Work<U>(s: State<U>): nat {
    10 * |s.surl| + 7 * |s.ourl| + 5 * s.waiting + 4 * |s.readers| + ParserWork(s.parser) + HolderWork(s.holder)
  }

  function LinksLeft<U>(readers: seq<seq<U>>): nat {
    if readers == [] then 0 else |readers[0]| + LinksLeft(readers[1..])
  }

  ghost function Unset<U>(s: State<U>): int {
    LIMIT - |s.bits|
  }

  lemma {:induction false} OneLinkLess<U>(readers: seq<seq<U>>, i: int)
    requires 0 <= i < |readers| && readers[i] != []
    ensures LinksLeft(readers[i := readers[i][1..]]) == LinksLeft(readers) - 1
  {
    if i > 0 {
      OneLinkLess(readers[1..], i - 1);
      assert readers[i := readers[i][1..]][1..] == readers[1..][i - 1 := readers[i][1..]];
    } else {
      assert readers[0 := readers[0][1..]][1..] == readers[1..];
    }
  }

  /** Invariant of every state a step can be taken from without losing track of the measure. */
  ghost predicate Sound<U>(s: State<U>) {
    Counted(s) && InFilter(s.bits)
  }

  lemma SoundStep<U>(e: Hashes<U>, s: State<U>, t: Step<U>)
    requires Sound(s) && Enabled(s, t)
    ensures Sound(Do(e, s, t)) && Unset(Do(e, s, t)) >= 0
  {
    CountedStep(e, s, t);
    if t.Extract? { RememberInFilter(e, s.bits, s.readers[t.i][0]); }
    AtMost(Do(e, s, t).bits, LIMIT);
  }

  /** (Unset bits, work, links left) of r is below that of s in the lexicographic order. */
  ghost predicate Below<U>(r: State<U>, s: State<U>) {
    || Unset(r) < Unset(s)
    || (Unset(r) == Unset(s) && Work(r) < Work(s))
    || (Unset(r) == Unset(s) && Work(r) == Work(s) && LinksLeft(r.readers) < LinksLeft(s.readers))
  }

  /** Every step lowers the measure. */
  lemma MeasureFalls<U>(e: Hashes<U>, s: State<U>, t: Step<U>)
    requires Sound(s) && Enabled(s, t)
    ensures Below(Do(e, s, t), s)
  {
    if t.Extract? {
      var url := s.readers[t.i][0];
      if Seen(e, s.bits, url) { OneLinkLess(s.readers, t.i); } else { NewUrlGrows(e, s.bits, url); }
    }
  }

  ghost predicate Next<U(!new)>(e: Hashes<U>, s: State<U>, r: State<U>) {
    exists t: Step<U> :: Enabled(s, t) && r == Do(e, s, t)
  }

  lemma NextFalls<U(!new)>(e: Hashes<U>, s: State<U>, r: State<U>)
    requires Sound(s) && Next(e, s, r)
    ensures Sound(r) && Unset(r) >= 0 && Below(r, s)
  {
    var t: Step<U> :| Enabled(s, t) && r == Do(e, s, t);
    SoundStep(e, s, t);
    MeasureFalls(e, s, t);
  }

  /** There is no infinite run, whatever pages the readers are served. */
  lemma CrawlTerminates<U(!new)>(e: Hashes<U>, run: nat -> State<U>)
    requires Initial(run(0))
    ensures exists i: nat :: !Next(e, run(i), run(i + 1))
  {
    if forall i: nat :: Next(e, run(i), run(i + 1)) {
      AtMost(run(0).bits, LIMIT);
      forall i: nat | Falling(run(i)) ensures Falling(run(i + 1)) && Below(run(i + 1), run(i)) {
        NextFalls(e, run(i), run(i + 1));
      }
      Descend(run, 0);
    }
  }

  ghost predicate Falling<U>(s: State<U>) {
    Sound(s) && Unset(s) >= 0
  }

  lemma {:induction false} Descend<U(!new)>(run: nat -> State<U>, i: nat)
    requires Falling(run(i))
    requires forall j: nat | Falling(run(j)) :: Falling(run(j + 1)) && Below(run(j + 1), run(j))
    ensures false
    decreases Unset(run(i)), Work(run(i)), LinksLeft(run(i).readers)
  {
    Descend(run, i + 1);
  }
}
