/** The shared counter and queue as the program updates them, tied to the steps of the scheduler. */
module Threads {
  import opened Bloom
  import opened Scheduler

  /** g_cur_thread_num, the ourl queue and the sockets registered with epoll. */
  class Shared<U> {
    const maxJobs: int
    var count: int
    var ourl: seq<U>
    var waiting: nat

    constructor (maxJobs: int)
      ensures this.maxJobs == maxJobs && count == 0 && ourl == [] && waiting == 0
    {
      this.maxJobs := maxJobs;
      count, ourl, waiting := 0, [], 0;
    }

    /** `s` shows these fields; everything else about it is up to the other threads. */
    ghost predicate Shows(s: State<U>)
      reads this
    {
      s.maxJobs == maxJobs && s.count == count && s.ourl == ourl && s.waiting == waiting
    }

    /** Run by the lock holder: pop, connect (which may fail), register, count. */
    method AttachEpollTask(connects: bool, ghost e: Hashes<U>, ghost s: State<U>) returns (rc: int, ghost s': State<U>)
      requires Shows(s) && s.holder.Owes? && s.holder.owed > 0
      modifies this`count, this`ourl, this`waiting
      ensures rc == 0 <==> old(ourl) != [] && connects
      ensures Shows(s') && s' == HolderAttach(e, s, connects)
    {
      s' := HolderAttach(e, s, connects);
      if ourl == [] { return -1, s'; }
      ourl := ourl[1..];
      if !connects { return -1, s'; }
      waiting := waiting + 1;
      count := count + 1;
      return 0, s';
    }

    /** Lower the count and start as many successors as there is room for, two at most. */
    method EndThread(first: bool, second: bool, ghost e: Hashes<U>, ghost s: State<U>, ghost i: int)
      returns (ghost s': State<U>)
      requires Shows(s) && Enabled(s, Finish(i))
      modifies this`count, this`ourl, this`waiting
      ensures Shows(s') && s'.holder.Free? && s' == EndThreadRun(e, s, i, first, second)
    {
      s' := Do(e, s, Finish(i));
      var rc: int;
      count := count - 1;
      var left := maxJobs - count;
      if left == 1 {
        rc, s' := AttachEpollTask(first, e, s');
      } else if left > 1 {
        rc, s' := AttachEpollTask(first, e, s');
        rc, s' := AttachEpollTask(second, e, s');
      }
      s' := Do(e, s', Unlock);
    }
  }

  /** The steps of one attach, taken in a row. */
  ghost function HolderAttach<U>(e: Hashes<U>, s: State<U>, connects: bool): State<U>
    requires s.holder.Owes? && s.holder.owed > 0
  {
    var popped := Do(e, s, HolderPop);
    if s.ourl == [] then popped
    else if !connects then Do(e, popped, HolderFail)
    else Do(e, Do(e, popped, HolderRegister), HolderCount)
  }

  /** The steps of one whole end_thread, taken in a row. */
  ghost function EndThreadRun<U>(e: Hashes<U>, s: State<U>, i: int, first: bool, second: bool): State<U>
    requires Enabled(s, Finish(i))
  {
    var s1 := Do(e, s, Finish(i));
    var s2 := if s1.holder.owed > 0 then HolderAttach(e, s1, first) else s1;
    var s3 := if s2.holder.owed > 0 then HolderAttach(e, s2, second) else s2;
    Do(e, s3, Unlock)
  }

  /** What an undisturbed end_thread does to the queue and the count when connecting works. */
  lemma EndThreadRestarts<U>(e: Hashes<U>, s: State<U>, i: int)
    requires Enabled(s, Finish(i))
    ensures var r, k := EndThreadRun(e, s, i, true, true), Restarts(s.maxJobs, s.count - 1);
      var n := if |s.ourl| < k then |s.ourl| else k;
      r.ourl == s.ourl[n..] && r.count == s.count - 1 + n && r.waiting == s.waiting + n
      && (s.count <= s.maxJobs ==> r.count <= s.maxJobs)
  {
  }
}
