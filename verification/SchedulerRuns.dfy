/** The states some run of the scheduler ends in. */
module Reachability {
  import opened Options
  import opened Bloom
  import opened Scheduler

  /** Some run from s with no faults but those in f ends in r. */
  ghost predicate Reaches<U(!new)>(e: Hashes<U>, f: Faults, s: State<U>, r: State<U>) {
    exists ts: seq<Step<U>> :: After(e, s, ts) == Some(r) && AllAllowed(f, ts)
  }

  lemma Here<U(!new)>(e: Hashes<U>, f: Faults, s: State<U>)
    ensures Reaches(e, f, s, s)
  {
    var ts: seq<Step<U>> := [];
    assert After(e, s, ts) == Some(s) && AllAllowed(f, ts);
  }

  lemma Take<U(!new)>(e: Hashes<U>, f: Faults, s: State<U>, r: State<U>, t: Step<U>) returns (r': State<U>)
    requires Reaches(e, f, s, r) && Enabled(r, t) && Allowed(f, t)
    ensures r' == Do(e, r, t) && Reaches(e, f, s, r')
  {
    var ts: seq<Step<U>> :| After(e, s, ts) == Some(r) && AllAllowed(f, ts);
    r' := Do(e, r, t);
    var ts' := ts + [t];
    assert ts'[..|ts|] == ts && ts'[|ts|] == t;
    assert After(e, s, ts') == Some(r') && AllAllowed(f, ts');
  }
}

/** Runs of the scheduler that reach its limits, and so what exactly it guarantees. */
module SchedulerRuns {
  import opened Options
  import opened Bloom
  import opened Scheduler
  import opened Reachability

  function Start<U>(maxJobs: int, urls: seq<U>): State<U> {
    State(maxJobs, 0, urls, [], Idle, Free, 0, [], 0, {}, [])
  }

  function Copies<U>(u: U, n: nat): (us: seq<U>)
    ensures |us| == n
  {
    if n == 0 then [] else [u] + Copies(u, n - 1)
  }

  // ---------------------------------------------------------------- pieces of runs

  /** The parser resolves u, sees a count of zero, pops u again and registers it. */
  lemma ParserAttaches<U(!new)>(e: Hashes<U>, f: Faults, s: State<U>, r: State<U>, u: U, rest: seq<U>)
    returns (r': State<U>)
    requires Reaches(e, f, s, r) && r.surl == [u] + rest && r.ourl == [] && r.parser.Idle? && r.count == 0
    ensures Reaches(e, f, s, r') && r' == r.(surl := rest, parser := Registered, waiting := r.waiting + 1)
  {
    r' := Take(e, f, s, r, Resolve(true));
    assert r' == r.(surl := rest, ourl := [u], parser := Pushed);
    r' := Take(e, f, s, r', ZeroTest);
    r' := Take(e, f, s, r', ParserPop);
    assert r' == r.(surl := rest, parser := Connecting);
    r' := Take(e, f, s, r', ParserRegister);
  }

  lemma ParserCounts<U(!new)>(e: Hashes<U>, f: Faults, s: State<U>, r: State<U>) returns (r': State<U>)
    requires Reaches(e, f, s, r) && r.parser.Registered?
    ensures Reaches(e, f, s, r') && r' == r.(parser := Idle, count := r.count + 1)
  {
    r' := Take(e, f, s, r, ParserCount);
  }

  /** The parser resolves n URLs and leaves them queued, because jobs are counted. */
  lemma {:induction false} ParserQueues<U(!new)>(e: Hashes<U>, f: Faults, s: State<U>, r: State<U>, u: U, n: nat,
                                                 rest: seq<U>) returns (r': State<U>)
    requires Reaches(e, f, s, r) && r.surl == Copies(u, n) + rest && r.parser.Idle? && r.count != 0
    ensures Reaches(e, f, s, r') && r' == r.(surl := rest, ourl := r.ourl + Copies(u, n))
    decreases n
  {
    if n == 0 {
      r' := r;
      assert rest == Copies(u, 0) + rest && r.ourl == r.ourl + Copies(u, 0);
    } else {
      var more, queue := Copies(u, n - 1) + rest, r.ourl + [u];
      FirstCopy(u, n, rest, r.ourl);
      var q := ParserQueuesOne(e, f, s, r, u, more);
      r' := ParserQueues(e, f, s, q, u, n - 1, rest);
    }
  }

  lemma FirstCopy<U>(u: U, n: nat, rest: seq<U>, queue: seq<U>)
    requires n > 0
    ensures Copies(u, n) + rest == [u] + (Copies(u, n - 1) + rest)
    ensures queue + [u] + Copies(u, n - 1) == queue + Copies(u, n)
  {}

  lemma ParserQueuesOne<U(!new)>(e: Hashes<U>, f: Faults, s: State<U>, r: State<U>, u: U, rest: seq<U>)
    returns (r': State<U>)
    requires Reaches(e, f, s, r) && r.surl == [u] + rest && r.parser.Idle? && r.count != 0
    ensures Reaches(e, f, s, r') && r' == r.(surl := rest, ourl := r.ourl + [u])
  {
    r' := Take(e, f, s, r, Resolve(true));
    r' := Take(e, f, s, r', ZeroTest);
  }

  /** One registered job is served a page without links and finishes. */
  lemma ServeAndFinish<U(!new)>(e: Hashes<U>, f: Faults, s: State<U>, r: State<U>) returns (r': State<U>)
    requires Reaches(e, f, s, r) && r.waiting > 0 && r.readers == [] && r.holder.Free?
    ensures Reaches(e, f, s, r')
    ensures var c := r.count - 1;
            r' == r.(waiting := r.waiting - 1, count := c, holder := Owes(Restarts(r.maxJobs, c)))
  {
    r' := Take(e, f, s, r, Serve([]));
    assert r' == r.(waiting := r.waiting - 1, readers := [[]]);
    r' := Take(e, f, s, r', Finish(0));
  }

  lemma HolderAttaches<U(!new)>(e: Hashes<U>, f: Faults, s: State<U>, r: State<U>, u: U, rest: seq<U>)
    returns (r': State<U>)
    requires Reaches(e, f, s, r) && r.ourl == [u] + rest && r.holder.Owes? && r.holder.owed > 0
    ensures Reaches(e, f, s, r')
    ensures r' == r.(ourl := rest, holder := Owes(r.holder.owed - 1), waiting := r.waiting + 1, count := r.count + 1)
  {
    r' := Take(e, f, s, r, HolderPop);
    assert r' == r.(ourl := rest, holder := HolderConnecting(r.holder.owed));
    r' := Take(e, f, s, r', HolderRegister);
    r' := Take(e, f, s, r', HolderCount);
  }

  lemma HolderFails<U(!new)>(e: Hashes<U>, f: Faults, s: State<U>, r: State<U>, u: U, rest: seq<U>)
    returns (r': State<U>)
    requires Reaches(e, f, s, r) && r.ourl == [u] + rest && r.holder.Owes? && r.holder.owed > 0 && f.attach
    ensures Reaches(e, f, s, r') && r' == r.(ourl := rest, holder := Owes(r.holder.owed - 1))
  {
    r' := Take(e, f, s, r, HolderPop);
    assert r' == r.(ourl := rest, holder := HolderConnecting(r.holder.owed));
    r' := Take(e, f, s, r', HolderFail);
  }

  // ---------------------------------------------------------------- the peak is reached

  /** The parser attaches u, and its reader comes and goes before the parser counts it. */
  lemma Overtaken<U(!new)>(e: Hashes<U>, f: Faults, s: State<U>, r: State<U>, u: U, rest: seq<U>) returns (r': State<U>)
    requires Reaches(e, f, s, r) && r.surl == [u] + rest && r.ourl == [] && r.parser.Idle? && r.count == 0
    requires r.waiting == 0 && r.readers == [] && r.holder.Free?
    ensures Reaches(e, f, s, r') && r' == r.(surl := rest, holder := Owes(Restarts(r.maxJobs, -1)))
  {
    r' := ParserAttaches(e, f, s, r, u, rest);
    r' := ServeAndFinish(e, f, s, r');
    r' := ParserCounts(e, f, s, r');
  }

  /** Then the parser attaches on top of what the lock holder owes, one attach too many. */
  lemma OvertakenCount<U(!new)>(e: Hashes<U>, f: Faults, s: State<U>, u: U, rest: seq<U>) returns (r: State<U>)
    requires s == Start(s.maxJobs, [u] + ([u] + rest))
    ensures Reaches(e, f, s, r)
    ensures r == s.(surl := rest, holder := Owes(Restarts(s.maxJobs, -1)), waiting := 1, count := 1)
  {
    Here(e, f, s);
    r := Overtaken(e, f, s, s, u, [u] + rest);
    r := ParserAttaches(e, f, s, r, u, rest);
    r := ParserCounts(e, f, s, r);
  }

  lemma PeakSmall<U(!new)>(e: Hashes<U>, f: Faults, maxJobs: int, u: U) returns (s: State<U>, r: State<U>)
    requires 0 <= maxJobs <= 1
    ensures Initial(s) && s.maxJobs == maxJobs && Reaches(e, f, s, r) && InFlight(r) == maxJobs + 2
  {
    s := Start(maxJobs, [u] + ([u] + Copies(u, 2)));
    r := OvertakenCount(e, f, s, u, Copies(u, 2));
    assert r.surl == Copies(u, 2) + [];
    r := ParserQueues(e, f, s, r, u, 2, []);
    assert r.ourl == [u] + Copies(u, 1);
    r := HolderAttaches(e, f, s, r, u, Copies(u, 1));
    if maxJobs == 1 {
      assert r.ourl == [u] + [];
      r := HolderAttaches(e, f, s, r, u, []);
    }
  }

  /** A finishing job starts two others. */
  lemma OneBecomesTwo<U(!new)>(e: Hashes<U>, f: Faults, s: State<U>, r: State<U>, u: U, n: nat) returns (r': State<U>)
    requires Reaches(e, f, s, r) && r.ourl == Copies(u, n + 2) && r.holder == Owes(2)
    ensures Reaches(e, f, s, r')
    ensures r' == r.(ourl := Copies(u, n), holder := Free, waiting := r.waiting + 2, count := r.count + 2)
  {
    r' := HolderAttaches(e, f, s, r, u, Copies(u, n + 1));
    r' := HolderAttaches(e, f, s, r', u, Copies(u, n));
    r' := Take(e, f, s, r', Unlock);
  }

  lemma GrowOne<U(!new)>(e: Hashes<U>, f: Faults, s: State<U>, r: State<U>, u: U, n: nat) returns (r': State<U>)
    requires Reaches(e, f, s, r) && r.readers == [] && r.holder.Free? && r.waiting > 0
    requires r.count < r.maxJobs && r.ourl == Copies(u, n + 2)
    ensures Reaches(e, f, s, r')
    ensures r' == r.(ourl := Copies(u, n), waiting := r.waiting + 1, count := r.count + 1)
  {
    var q := ServeAndFinish(e, f, s, r);
    r' := OneBecomesTwo(e, f, s, q, u, n);
  }

  /** Finishing jobs one after the other raises the count to max_job_num, whatever the parser waits for. */
  lemma {:induction false} Grow<U(!new)>(e: Hashes<U>, f: Faults, s: State<U>, r: State<U>, u: U, n: nat)
    returns (r': State<U>)
    requires Reaches(e, f, s, r) && r.readers == [] && r.holder.Free? && r.waiting > 0
    requires r.count + n == r.maxJobs && r.ourl == Copies(u, 2 * n + 1)
    ensures Reaches(e, f, s, r')
    ensures r' == r.(ourl := Copies(u, 1), waiting := r.waiting + n, count := r.maxJobs)
    decreases n
  {
    if n == 0 {
      r' := r;
    } else {
      var q := GrowOne(e, f, s, r, u, 2 * n - 1);
      r' := Grow(e, f, s, q, u, n - 1);
    }
  }

  /** One job counted, n + 1 URLs queued, the parser just before its zero test; then the job finishes. */
  lemma ZeroSeen<U(!new)>(e: Hashes<U>, f: Faults, s: State<U>, u: U, n: nat) returns (r: State<U>)
    requires s == Start(s.maxJobs, [u] + (Copies(u, n) + [u])) && s.maxJobs >= 2
    ensures Reaches(e, f, s, r)
    ensures r == s.(surl := [], ourl := Copies(u, n) + [u], parser := SawZero, holder := Owes(2))
  {
    Here(e, f, s);
    r := ParserAttaches(e, f, s, s, u, Copies(u, n) + [u]);
    r := ParserCounts(e, f, s, r);
    r := ParserQueues(e, f, s, r, u, n, [u]);
    assert r == s.(surl := [u], ourl := Copies(u, n), waiting := 1, count := 1);
    r := Take(e, f, s, r, Resolve(true));
    assert r == s.(surl := [], ourl := Copies(u, n) + [u], parser := Pushed, waiting := 1, count := 1);
    r := ServeAndFinish(e, f, s, r);
    r := Take(e, f, s, r, ZeroTest);
  }

  lemma {:induction false} CopiesSnoc<U>(u: U, n: nat)
    ensures Copies(u, n) + [u] == Copies(u, n + 1)
  {
    if n > 0 { CopiesSnoc(u, n - 1); }
  }

  lemma PeakLarge<U(!new)>(e: Hashes<U>, f: Faults, maxJobs: int, u: U) returns (s: State<U>, r: State<U>)
    requires maxJobs >= 2
    ensures Initial(s) && s.maxJobs == maxJobs && Reaches(e, f, s, r) && InFlight(r) == maxJobs + 1
  {
    var n := 2 * (maxJobs - 2) + 1;
    s := Start(maxJobs, [u] + (Copies(u, n + 1) + [u]));
    var p := ZeroSeen(e, f, s, u, n + 1);
    CopiesSnoc(u, n + 1);
    var q := OneBecomesTwo(e, f, s, p, u, n);
    var g := Grow(e, f, s, q, u, maxJobs - 2);
    assert g.waiting == maxJobs && g.ourl == [u] + [] && g.parser == SawZero && g.readers == [] && g.lost == 0;
    r := Take(e, f, s, g, ParserPop);
  }

  /** Every setting has a run that fills its peak, without any fault. */
  lemma PeakReached<U(!new)>(e: Hashes<U>, f: Faults, maxJobs: int, u: U) returns (s: State<U>, r: State<U>)
    ensures Initial(s) && s.maxJobs == maxJobs && Reaches(e, f, s, r) && InFlight(r) == Peak(maxJobs)
  {
    if maxJobs >= 2 {
      s, r := PeakLarge(e, f, maxJobs, u);
    } else if maxJobs >= 0 {
      s, r := PeakSmall(e, f, maxJobs, u);
    } else {
      s := Start(maxJobs, [u] + []);
      Here(e, f, s);
      r := ParserAttaches(e, f, s, s, u, []);
    }
  }

  ghost predicate NeverAbove<U(!new)>(e: Hashes<U>, maxJobs: int, bound: int) {
    forall s: State<U>, r: State<U> ::
      Initial(s) && s.maxJobs == maxJobs && Reaches(e, ALL_FAULTS, s, r) ==> InFlight(r) <= bound
  }

  /** The bounds on the jobs in flight in all reachable states are exactly the numbers from the peak up. */
  lemma PeakExact<U(!new)>(e: Hashes<U>, maxJobs: int, bound: int, u: U)
    ensures NeverAbove(e, maxJobs, bound) <==> Peak(maxJobs) <= bound
  {
    var s0, r0 := PeakReached(e, ALL_FAULTS, maxJobs, u);
    forall s: State<U>, r: State<U> | Initial(s) && s.maxJobs == maxJobs && Reaches(e, ALL_FAULTS, s, r)
      ensures InFlight(r) <= Peak(maxJobs)
    {
      var ts: seq<Step<U>> :| After(e, s, ts) == Some(r);
      PeakAlways(e, s, ts);
      InFlightIsCommitted(r);
    }
  }

  /** max_job_num + 1 is a bound exactly when max_job_num is at least 2. */
  lemma BoundExact<U(!new)>(e: Hashes<U>, maxJobs: int, u: U)
    ensures NeverAbove(e, maxJobs, maxJobs + 1) <==> maxJobs >= 2
  {
    PeakExact(e, maxJobs, maxJobs + 1, u);
  }

  // ---------------------------------------------------------------- stranded work

  /** A socket closed on an error event stays in the count, and nobody looks at the queue again. */
  lemma StrandedByEvent<U(!new)>(e: Hashes<U>, f: Faults, maxJobs: int, u: U) returns (s: State<U>, r: State<U>)
    requires f.event
    ensures Initial(s) && s.maxJobs == maxJobs && Reaches(e, f, s, r) && Stuck(r) && r.ourl != []
  {
    s := Start(maxJobs, [u] + [u]);
    Here(e, f, s);
    r := ParserAttaches(e, f, s, s, u, [u]);
    r := ParserCounts(e, f, s, r);
    r := Take(e, f, s, r, ServeError);
    assert r.surl == [u] + [];
    r := ParserQueuesOne(e, f, s, r, u, []);
    NothingMoves(r);
  }

  /** A finishing job whose attaches all fail, or that makes none, strands what is left in the queue. */
  lemma StrandedByAttach<U(!new)>(e: Hashes<U>, f: Faults, maxJobs: int, u: U) returns (s: State<U>, r: State<U>)
    requires f.attach || maxJobs <= 0
    ensures Initial(s) && s.maxJobs == maxJobs && Reaches(e, f, s, r) && Stuck(r) && r.ourl != []
  {
    s := Start(maxJobs, [u] + Copies(u, 3));
    r := OneAndThree(e, f, s, u);
    r := ServeAndFinish(e, f, s, r);
    if r.holder.owed > 0 { r := HolderFails(e, f, s, r, u, Copies(u, 2)); }
    if r.holder.owed > 0 { r := HolderFails(e, f, s, r, u, Copies(u, 1)); }
    r := Take(e, f, s, r, Unlock);
    NothingMoves(r);
  }

  lemma OneAndThree<U(!new)>(e: Hashes<U>, f: Faults, s: State<U>, u: U) returns (r: State<U>)
    requires s == Start(s.maxJobs, [u] + Copies(u, 3))
    ensures Reaches(e, f, s, r) && r == s.(surl := [], ourl := Copies(u, 3), waiting := 1, count := 1)
  {
    Here(e, f, s);
    r := ParserAttaches(e, f, s, s, u, Copies(u, 3));
    r := ParserCounts(e, f, s, r);
    assert r.surl == Copies(u, 3) + [];
    r := ParserQueues(e, f, s, r, u, 3, []);
  }

  /**
   * Queued URLs are attended in every reachable state, and no run ends with one left, exactly when
   * max_job_num is at least 1, no attach fails on a nonempty queue and no error event closes a socket.
   */
  lemma AttendedExact<U(!new)>(e: Hashes<U>, f: Faults, maxJobs: int, u: U)
    ensures maxJobs >= 1 && f == NO_FAULTS <==>
            forall s: State<U>, r: State<U> ::
              Initial(s) && s.maxJobs == maxJobs && Reaches(e, f, s, r) ==> Attended(r)
    ensures maxJobs >= 1 && f == NO_FAULTS <==>
            forall s: State<U>, r: State<U> ::
              Initial(s) && s.maxJobs == maxJobs && Reaches(e, f, s, r) && Stuck(r) ==> r.ourl == []
  {
    if maxJobs >= 1 && f == NO_FAULTS {
      forall s: State<U>, r: State<U> | Initial(s) && s.maxJobs == maxJobs && Reaches(e, f, s, r)
        ensures Attended(r) && (Stuck(r) ==> r.ourl == [])
      {
        var ts: seq<Step<U>> :| After(e, s, ts) == Some(r) && AllAllowed(f, ts);
        AttendedAlways(e, s, ts);
        StuckIs(r);
      }
    } else {
      var s, r;
      if f.event { s, r := StrandedByEvent(e, f, maxJobs, u); } else { s, r := StrandedByAttach(e, f, maxJobs, u); }
      var ts: seq<Step<U>> :| After(e, s, ts) == Some(r);
      CountedAlways(e, s, ts);
      StuckIs(r);
      assert !Attended(r);
    }
  }
}
