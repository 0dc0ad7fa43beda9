/**
 * The crawl scheduler as interleaved steps: the single parser thread, the epoll loop, reader threads,
 * and the one thread at a time that holds gctn_lock inside end_thread.
 *
 * An attach is three steps, as in the source: pop the queue, register the socket with epoll (from then
 * on its event may be served and its reader may even finish), and only then count it.
 */
module Scheduler {
  import opened Options
  import opened Bloom

  /** Where the parser thread is: between iterations, or in the push / zero test / attach sequence. */
  datatype Parser = Idle | Pushed | SawZero | Connecting | Registered

  /** Who holds gctn_lock and how many attaches it still owes, the one in progress included. */
  datatype Holder = Free | Owes(owed: nat) | HolderConnecting(owed: nat) | HolderRegistered(owed: nat)

  datatype State<U> = State(
    maxJobs: int,
    count: int,               // g_cur_thread_num
    surl: seq<U>,             // URLs to resolve
    ourl: seq<U>,             // URLs to fetch
    parser: Parser,
    holder: Holder,
    waiting: nat,             // registered with epoll, no event served yet
    readers: seq<seq<U>>,     // reader threads, each with the links it has still to extract
    lost: nat,                // sockets closed on an error event; the count is not lowered for them
    bits: set<int>,           // the Bloom filter
    found: seq<U>)            // every URL enqueued by discovery, in order

  datatype Step<U> =
    | Resolve(ok: bool)       // parser: take a URL, look it up; on success push it on ourl
    | ZeroTest                // parser: is g_cur_thread_num zero?
    | ParserPop | ParserRegister | ParserCount | ParserFail
    | Serve(links: seq<U>)    // epoll: event, start a reader whose page has these links
    | ServeError              // epoll: error event, close the socket
    | Extract(i: int)         // reader i: next link, test and set in the filter, enqueue if new
    | Finish(i: int)          // reader i: end_thread up to the attaches
    | HolderPop | HolderRegister | HolderCount | HolderFail
    | Unlock

  predicate Enabled<U>(s: State<U>, t: Step<U>) {
    match t
    case Resolve(_) => s.parser.Idle? && s.surl != []
    case ZeroTest => s.parser.Pushed?
    case ParserPop => s.parser.SawZero?
    case ParserRegister => s.parser.Connecting?
    case ParserFail => s.parser.Connecting?
    case ParserCount => s.parser.Registered?
    case Serve(_) => s.waiting > 0
    case ServeError => s.waiting > 0
    case Extract(i) => 0 <= i < |s.readers| && s.readers[i] != []
    case Finish(i) => 0 <= i < |s.readers| && s.readers[i] == [] && s.holder.Free?
    case HolderPop => s.holder.Owes? && s.holder.owed > 0
    case HolderRegister => s.holder.HolderConnecting? && s.holder.owed > 0
    case HolderFail => s.holder.HolderConnecting? && s.holder.owed > 0
    case HolderCount => s.holder.HolderRegistered? && s.holder.owed > 0
    case Unlock => s.holder == Owes(0)
  }

  /** How many attaches end_thread makes when it has lowered the count to c. */
  function Restarts(maxJobs: int, c: int): nat {
    var left := maxJobs - c;
    if left == 1 then 1 else if left > 1 then 2 else 0
  }

  ghost function Do<U>(e: Hashes<U>, s: State<U>, t: Step<U>): State<U>
    requires Enabled(s, t)
  {
    match t
    case Resolve(ok) =>
      if ok then s.(surl := s.surl[1..], ourl := s.ourl + [s.surl[0]], parser := Pushed)
      else s.(surl := s.surl[1..])
    case ZeroTest => s.(parser := if s.count == 0 then SawZero else Idle)
    case ParserPop => if s.ourl == [] then s.(parser := Idle) else s.(ourl := s.ourl[1..], parser := Connecting)
    case ParserRegister => s.(parser := Registered, waiting := s.waiting + 1)
    case ParserFail => s.(parser := Idle)
    case ParserCount => s.(parser := Idle, count := s.count + 1)
    case Serve(links) => s.(waiting := s.waiting - 1, readers := s.readers + [links])
    case ServeError => s.(waiting := s.waiting - 1, lost := s.lost + 1)
    case Extract(i) =>
      var url := s.readers[i][0];
      var s' := s.(readers := s.readers[i := s.readers[i][1..]]);
      if Seen(e, s.bits, url) then s'
      else s'.(surl := s.surl + [url], bits := Remember(e, s.bits, url), found := s.found + [url])
    case Finish(i) =>
      s.(readers := s.readers[..i] + s.readers[i + 1..], count := s.count - 1,
         holder := Owes(Restarts(s.maxJobs, s.count - 1)))
    case HolderPop =>
      if s.ourl == [] then s.(holder := Owes(s.holder.owed - 1))
      else s.(ourl := s.ourl[1..], holder := HolderConnecting(s.holder.owed))
    case HolderRegister => s.(holder := HolderRegistered(s.holder.owed), waiting := s.waiting + 1)
    case HolderFail => s.(holder := Owes(s.holder.owed - 1))
    case HolderCount => s.(holder := Owes(s.holder.owed - 1), count := s.count + 1)
    case Unlock => s.(holder := Free)
  }

  ghost predicate Initial<U>(s: State<U>) {
    && s.count == 0 && s.ourl == [] && s.parser.Idle? && s.holder.Free?
    && s.waiting == 0 && s.readers == [] && s.lost == 0 && s.bits == {} && s.found == []
  }

  /** The state after a run of steps, each enabled when taken; None if one is not. */
  ghost function After<U>(e: Hashes<U>, s: State<U>, ts: seq<Step<U>>): Option<State<U>> {
    if ts == [] then Some(s)
    else
      var r := After(e, s, ts[..|ts| - 1]);
      if r.Some? && Enabled(r.value, ts[|ts| - 1]) then Some(Do(e, r.value, ts[|ts| - 1])) else None
  }

  // ---------------------------------------------------------------- counting jobs

  function Owed(h: Holder): nat {
    if h.Free? then 0 else h.owed
  }

  /** The parser has decided to attach and has not finished doing so. */
  function Pending(p: Parser): nat {
    if p.SawZero? || p.Connecting? || p.Registered? then 1 else 0
  }

  /** Sockets registered with epoll that are not in the count yet. */
  function ParserUncounted(p: Parser): nat {
    if p.Registered? then 1 else 0
  }

  function Uncounted<U>(s: State<U>): nat {
    ParserUncounted(s.parser) + if s.holder.HolderRegistered? then 1 else 0
  }

  /** Popped from the queue, not registered yet. */
  function Connections<U>(s: State<U>): nat {
    (if s.parser.Connecting? then 1 else 0) + if s.holder.HolderConnecting? then 1 else 0
  }

  /** Every job between being popped and being finished, lost sockets included. */
  function InFlight<U>(s: State<U>): nat {
    Connections(s) + s.waiting + |s.readers| + s.lost
  }

  /** Conservation of jobs, and what the lock holder can owe. */
  ghost predicate Counted<U>(s: State<U>) {
    && s.count + Uncounted(s) == s.waiting + |s.readers| + s.lost
    && s.count + ParserUncounted(s.parser) >= 0
    && Owed(s.holder) <= 2
    && (s.holder.HolderConnecting? || s.holder.HolderRegistered? ==> s.holder.owed > 0)
  }

  lemma CountedStep<U>(e: Hashes<U>, s: State<U>, t: Step<U>)
    requires Counted(s) && Enabled(s, t)
    ensures Counted(Do(e, s, t)) && Do(e, s, t).maxJobs == s.maxJobs
  {
  }

  lemma {:induction false} CountedAlways<U>(e: Hashes<U>, s: State<U>, ts: seq<Step<U>>)
    requires Counted(s) && After(e, s, ts).Some?
    ensures Counted(After(e, s, ts).value) && After(e, s, ts).value.maxJobs == s.maxJobs
    decreases |ts|
  {
    if ts != [] {
      var n := |ts| - 1;
      CountedAlways(e, s, ts[..n]);
      CountedStep(e, After(e, s, ts[..n]).value, ts[n]);
    }
  }

  // ---------------------------------------------------------------- the bound

  function Max(a: int, b: int): int {
    if a >= b then a else b
  }

  function Min(a: int, b: int): int {
    if a <= b then a else b
  }

  function Committed<U>(s: State<U>): int {
    s.count + Owed(s.holder) + Pending(s.parser)
  }

  lemma InFlightIsCommitted<U>(s: State<U>)
    requires Counted(s)
    ensures InFlight(s) <= Committed(s)
  {
  }

  ghost predicate Bounded<U>(s: State<U>, bound: int) {
    Counted(s) && Committed(s) <= bound
  }

  /** A bound survives a step if the zero test may add one job to what the lock holder owes. */
  lemma BoundedStep<U>(e: Hashes<U>, s: State<U>, t: Step<U>, bound: int)
    requires Bounded(s, bound) && Enabled(s, t) && s.maxJobs + 1 <= bound
    requires t.ZeroTest? && s.count == 0 ==> Owed(s.holder) + 1 <= bound
    ensures Bounded(Do(e, s, t), bound)
  {
    CountedStep(e, s, t);
  }

  /** The most attaches end_thread can ever owe. */
  function OwedLimit(maxJobs: int): int {
    Min(2, Max(maxJobs + 1, 0))
  }

  /** The most jobs that can be in flight at once. */
  function Peak(maxJobs: int): int {
    Max(maxJobs + 1, OwedLimit(maxJobs) + 1)
  }

  lemma {:induction false} OwedAlways<U>(e: Hashes<U>, s: State<U>, ts: seq<Step<U>>)
    requires Initial(s) && After(e, s, ts).Some?
    ensures Owed(After(e, s, ts).value.holder) <= OwedLimit(s.maxJobs)
    decreases |ts|
  {
    if ts != [] {
      var n := |ts| - 1;
      OwedAlways(e, s, ts[..n]);
      CountedAlways(e, s, ts[..n]);
    }
  }

  /** In every interleaving count, attaches owed and the parser's pending attach stay within the peak. */
  lemma {:induction false} PeakAlways<U>(e: Hashes<U>, s: State<U>, ts: seq<Step<U>>)
    requires Initial(s) && After(e, s, ts).Some?
    ensures Bounded(After(e, s, ts).value, Peak(s.maxJobs)) && After(e, s, ts).value.maxJobs == s.maxJobs
    decreases |ts|
  {
    if ts != [] {
      var n := |ts| - 1;
      PeakAlways(e, s, ts[..n]);
      OwedAlways(e, s, ts[..n]);
      BoundedStep(e, After(e, s, ts[..n]).value, ts[n], Peak(s.maxJobs));
    }
  }

  /** Without a reader finishing ahead of its own count, the count never goes below zero. */
  ghost predicate Orderly<U>(e: Hashes<U>, s: State<U>, ts: seq<Step<U>>) {
    ts == [] ||
    (Orderly(e, s, ts[..|ts| - 1]) &&
     var r := After(e, s, ts[..|ts| - 1]);
     r.Some? && (ts[|ts| - 1].Finish? ==> r.value.count >= 1))
  }

  /** In orderly runs the bound is one more than max_job_num, or one if that is negative. */
  lemma {:induction false} BoundOrderly<U>(e: Hashes<U>, s: State<U>, ts: seq<Step<U>>)
    requires Initial(s) && After(e, s, ts).Some? && Orderly(e, s, ts)
    ensures var r := After(e, s, ts).value;
      Bounded(r, Max(s.maxJobs, 0) + 1) && r.count >= 0 && Owed(r.holder) <= Max(s.maxJobs, 0)
    decreases |ts|
  {
    if ts != [] {
      var n := |ts| - 1;
      BoundOrderly(e, s, ts[..n]);
      CountedAlways(e, s, ts[..n]);
      BoundedStep(e, After(e, s, ts[..n]).value, ts[n], Max(s.maxJobs, 0) + 1);
    }
  }

  /** Readers finish only while every registered job is counted, as they must where an attach is a single step. */
  ghost predicate Settled<U>(e: Hashes<U>, s: State<U>, ts: seq<Step<U>>) {
    ts == [] ||
    (Settled(e, s, ts[..|ts| - 1]) &&
     var r := After(e, s, ts[..|ts| - 1]);
     r.Some? && (ts[|ts| - 1].Finish? ==> Uncounted(r.value) == 0))
  }

  /** So that bound is only ever exceeded by a reader that finishes between registration and count. */
  lemma {:induction false} SettledIsOrderly<U>(e: Hashes<U>, s: State<U>, ts: seq<Step<U>>)
    requires Initial(s) && After(e, s, ts).Some? && Settled(e, s, ts)
    ensures Orderly(e, s, ts)
    decreases |ts|
  {
    if ts != [] {
      var n := |ts| - 1;
      SettledIsOrderly(e, s, ts[..n]);
      CountedAlways(e, s, ts[..n]);
    }
  }

  // ---------------------------------------------------------------- no stranded work

  /** What can go wrong outside: an attach on a nonempty queue, a socket closed on an error event. */
  datatype Faults = Faults(attach: bool, event: bool)

  const NO_FAULTS := Faults(false, false)
  const ALL_FAULTS := Faults(true, true)

  predicate Allowed<U>(f: Faults, t: Step<U>) {
    (t.ParserFail? || t.HolderFail? ==> f.attach) && (t.ServeError? ==> f.event)
  }

  ghost predicate AllAllowed<U>(f: Faults, ts: seq<Step<U>>) {
    forall k :: 0 <= k < |ts| ==> Allowed(f, ts[k])
  }

  /** A job that will still call end_thread, an attach on its way, or the parser about to test the count. */
  predicate Live<U>(s: State<U>) {
    s.waiting > 0 || s.readers != [] || Owed(s.holder) > 0 || !s.parser.Idle?
  }

  /** Someone will still look at the queue of URLs to fetch. */
  ghost predicate Attended<U>(s: State<U>) {
    s.ourl != [] ==> Live(s)
  }

  /** No thread can take another step. */
  ghost predicate Stuck<U(!new)>(s: State<U>) {
    forall t: Step<U> :: !Enabled(s, t)
  }

  lemma NothingMoves<U(!new)>(s: State<U>)
    requires s.waiting == 0 && s.readers == [] && s.parser.Idle? && s.surl == [] && s.holder.Free?
    ensures Stuck(s)
  {}

  lemma StuckIs<U(!new)>(s: State<U>)
    requires Counted(s)
    ensures Stuck(s) <==> !Live(s) && s.surl == [] && s.holder.Free?
  {
    if Stuck(s) {
      assert !Enabled(s, Resolve(true)) && !Enabled(s, ZeroTest) && !Enabled(s, ParserPop);
      assert !Enabled(s, ParserRegister) && !Enabled(s, ParserCount) && !Enabled(s, Serve([]));
      assert !Enabled(s, HolderPop) && !Enabled(s, HolderRegister) && !Enabled(s, HolderCount) && !Enabled(s, Unlock);
      assert !Enabled(s, Extract(0)) && !Enabled(s, Finish(0));
    }
  }

  /** The count sees every live job, so a positive count is attendance as long as no socket is lost. */
  ghost predicate Served<U>(s: State<U>) {
    && Counted(s) && s.lost == 0
    && (s.ourl != [] ==> s.count > 0 || Owed(s.holder) > 0 || !s.parser.Idle?)
    && (s.parser.Registered? && s.ourl != [] && Owed(s.holder) == 0 ==> s.count >= 0)
  }

  lemma ServedStep<U>(e: Hashes<U>, s: State<U>, t: Step<U>)
    requires Served(s) && Enabled(s, t) && s.maxJobs >= 1 && Allowed(NO_FAULTS, t)
    ensures Served(Do(e, s, t))
  {
    CountedStep(e, s, t);
  }

  /** Without faults, a nonempty queue is attended in every reachable state. */
  lemma {:induction false} AttendedAlways<U>(e: Hashes<U>, s: State<U>, ts: seq<Step<U>>)
    requires Initial(s) && s.maxJobs >= 1 && After(e, s, ts).Some? && AllAllowed(NO_FAULTS, ts)
    ensures Served(After(e, s, ts).value) && Attended(After(e, s, ts).value)
    decreases |ts|
  {
    if ts != [] {
      var n := |ts| - 1;
      AttendedAlways(e, s, ts[..n]);
      CountedAlways(e, s, ts[..n]);
      ServedStep(e, After(e, s, ts[..n]).value, ts[n]);
    }
  }

  /** So when nothing moves any more, both queues are empty and no job is counted. */
  lemma AllDone<U(!new)>(e: Hashes<U>, s: State<U>, ts: seq<Step<U>>)
    requires Initial(s) && s.maxJobs >= 1 && After(e, s, ts).Some? && AllAllowed(NO_FAULTS, ts)
    requires Stuck(After(e, s, ts).value)
    ensures var r := After(e, s, ts).value; r.surl == [] && r.ourl == [] && r.count == 0
  {
    AttendedAlways(e, s, ts);
    StuckIs(After(e, s, ts).value);
  }
}
