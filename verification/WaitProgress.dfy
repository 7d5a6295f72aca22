// What can always happen next: nobody is stuck behind a lock, every lock is given back
// by its owner's own steps, and a sleeper can wake and leave.
module WaitProgress {
  import opened WaitProtocol
  import opened WaitNotify

  /** In every reachable state every thread inside a call can move, or waits for a lock
      whose owner can. */
  lemma NoDeadlock(run: seq<State>, k: nat, t: Tid)
    requires IsRun(run) && k < |run| && !run[k].PcOf(t).Idle?
    ensures var s := run[k];
            || (exists a: Action :: Enabled(s, t, a))
            || exists u: Tid :: s.PcOf(u).HoldsLock() && Enabled(s, u, Go)
  {
    hide IsRun, BucketFor, ListsAgree, NoLostWake;
    RunKeepsInv(run, k);
    var s, pc := run[k], run[k].PcOf(t);
    if pc.WaitSleeping? {
      assert Enabled(s, t, Wake(false));
    } else if !Enabled(s, t, Go) {
      var b := BucketFor(if pc.NotifyAcquire? then pc.addr else pc.w.addr);
      assert Holds(s, s.locks[b], b);
      OwnerMoves(s, s.locks[b]);
    }
  }

  lemma OwnerMoves(s: State, u: Tid)
    requires s.PcOf(u).HoldsLock()
    ensures Enabled(s, u, Go)
  {
    hide BucketFor;
  }

  // --- continuations by one thread ---

  function Last(run: seq<State>): (s: State)
    requires run != []
  {
    run[|run| - 1]
  }

  ghost predicate StepOf(s: State, r: State, t: Tid)
  {
    exists a: Action :: Enabled(s, t, a) && r == Apply(s, t, a)
  }

  // The run goes on by steps of one thread.
  ghost predicate ContinuedBy(run: seq<State>, more: seq<State>, t: Tid): (yes: bool)
    ensures yes ==> more != []
  {
    && IsRun(more) && 0 < |run| <= |more| && more[..|run|] == run
    && forall i: nat :: |run| - 1 <= i && i + 1 < |more| ==> StepOf(more[i], more[i + 1], t)
  }

  lemma NotYetContinued(run: seq<State>, t: Tid)
    requires IsRun(run)
    ensures ContinuedBy(run, run, t)
  {
  }

  lemma OneMore(run: seq<State>, more: seq<State>, t: Tid, a: Action)
    requires ContinuedBy(run, more, t) && Enabled(Last(more), t, a)
    ensures ContinuedBy(run, more + [Apply(Last(more), t, a)], t)
  {
    hide Enabled, Apply, Init;
    var s, r := Last(more), Apply(Last(more), t, a);
    assert StepOf(s, r, t) && Next(s, r);
    hide StepOf, Next;
    var all := more + [r];
    forall i: nat | i + 1 < |all|
      ensures Next(all[i], all[i + 1]) && (|run| - 1 <= i ==> StepOf(all[i], all[i + 1], t))
    {
      if i + 1 < |more| {
        assert Next(more[i], more[i + 1]);
      }
    }
  }

  // --- locks are given back ---

  // How many steps the owner of a lock has left at most.
  ghost function StepsToRelease(s: State, pc: Pc): (n: nat)
  {
    match pc
    case WaitLink(_) => 5
    case WaitCheck(_) => 4
    case WaitUnlink(_, _) => 2
    case NotifyScan(addr, _, pos) =>
      var len := |s.WaitList(BucketFor(addr))|;
      if pos < len then len - pos + 2 else 2
    case _ => 1
  }

  lemma OwnerStep(s: State, t: Tid)
    requires s.PcOf(t).HoldsLock()
    ensures var r, b := Apply(s, t, Go), BucketFor(s.PcOf(t).Target());
            || b !in r.locks
            || (&& r.PcOf(t).HoldsLock() && r.PcOf(t).Target() == s.PcOf(t).Target()
                && StepsToRelease(r, r.PcOf(t)) < StepsToRelease(s, s.PcOf(t)))
  {
    hide BucketFor, State.WaitList, State.Read, WithoutThread, Scan, Link, Unlink;
    var r := Apply(s, t, Go);
    match s.PcOf(t) {
      case WaitLink(w) => LinkMoves(s, t, w);
      case WaitUnlink(w, result) => UnlinkMoves(s, t, w, result);
      case NotifyScan(addr, all, pos) =>
        ScanMoves(s, t, addr, all, pos, t);
        SameLength(s, r, BucketFor(addr));
      case _ =>
    }
  }

  lemma SameLength(s: State, r: State, b: Bucket)
    requires r.lists == s.lists
    ensures r.WaitList(b) == s.WaitList(b)
  {
  }

  /** Whoever holds a lock gives it back by finitely many steps of its own. */
  lemma {:induction false} LockIsReleased(run: seq<State>, more: seq<State>, t: Tid) returns (rest: seq<State>)
    requires ContinuedBy(run, more, t) && Last(more).PcOf(t).HoldsLock()
    ensures ContinuedBy(run, rest, t) && BucketFor(Last(more).PcOf(t).Target()) !in Last(rest).locks
    decreases StepsToRelease(Last(more), Last(more).PcOf(t))
  {
    hide ContinuedBy, Enabled, Apply, BucketFor, StepsToRelease;
    var s := Last(more);
    OwnerMoves(s, t);
    var r := Apply(s, t, Go);
    OneMore(run, more, t, Go);
    OwnerStep(s, t);
    rest := more + [r];
    if BucketFor(s.PcOf(t).Target()) in r.locks {
      rest := LockIsReleased(run, rest, t);
    }
  }

  // --- sleepers can wake ---

  /** A sleeper wakes, signalled or not, and, if it is timed, its time may run out.  Once
      the lock is free, its own steps lead it to the check, or out with the result. */
  lemma SleeperWakes(run: seq<State>, t: Tid, timedOut: bool) returns (more: seq<State>)
    requires IsRun(run) && Last(run).PcOf(t).WaitSleeping?
    requires var w := Last(run).PcOf(t).w; BucketFor(w.addr) !in Last(run).locks && (timedOut ==> w.timed)
    ensures ContinuedBy(run, more, t) && Last(more).memory == Last(run).memory
    ensures var w := Last(run).PcOf(t).w;
            Last(more).PcOf(t) == if timedOut then WaitUnlink(w, false)
                                  else if w.timed then WaitUnlink(w, true) else WaitCheck(w)
  {
    hide ContinuedBy, BucketFor;
    var s := Last(run);
    NotYetContinued(run, t);
    OneMore(run, run, t, Wake(timedOut));
    var s1 := Apply(s, t, Wake(timedOut));
    more := run + [s1];
    OneMore(run, more, t, Go);
    more := more + [Apply(s1, t, Go)];
  }

  // A thread on its way out returns its result and frees the lock.
  lemma LeaverReturns(run: seq<State>, more: seq<State>, t: Tid) returns (rest: seq<State>)
    requires ContinuedBy(run, more, t) && Last(more).PcOf(t).WaitUnlink?
    ensures var pc := Last(more).PcOf(t);
            && ContinuedBy(run, rest, t) && Last(rest).PcOf(t) == WaitReturned(pc.w, pc.result)
            && BucketFor(pc.w.addr) !in Last(rest).locks
  {
    hide ContinuedBy, BucketFor, Unlink, WithoutThread;
    var s := Last(more);
    var w, result := s.PcOf(t).w, s.PcOf(t).result;
    UnlinkMoves(s, t, w, result);
    OneMore(run, more, t, Go);
    var s1 := Apply(s, t, Go);
    rest := more + [s1];
    OneMore(run, rest, t, Go);
    rest := rest + [Apply(s1, t, Go)];
  }

  /** If the value has changed and the lock is free, the waiter's own steps lead it from
      its sleep to returning TRUE, with the lock free again. */
  lemma ChangedMeansReturn(run: seq<State>, t: Tid) returns (more: seq<State>)
    requires IsRun(run) && Last(run).PcOf(t).WaitSleeping?
    requires var w := Last(run).PcOf(t).w; BucketFor(w.addr) !in Last(run).locks && Last(run).Read(w.addr) != w.cmp
    ensures var w := Last(run).PcOf(t).w;
            && ContinuedBy(run, more, t) && Last(more).PcOf(t) == WaitReturned(w, true)
            && BucketFor(w.addr) !in Last(more).locks
  {
    hide ContinuedBy, BucketFor, Enabled, Apply;
    var w := Last(run).PcOf(t).w;
    more := SleeperWakes(run, t, false);
    if !w.timed {
      var s := Last(more);
      OwnerMoves(s, t);
      OneMore(run, more, t, Go);
      CheckStep(s, t);
      more := more + [Apply(s, t, Go)];
    }
    more := LeaverReturns(run, more, t);
  }

  // --- waiters go to sleep ---

  // The state once thread t stands at the check in the call w.
  function CheckingState(s: State, t: Tid, w: Wait): (r: State)
  {
    var b := BucketFor(w.addr);
    s.(lists := s.lists[b := s.WaitList(b) + [t]], tickets := s.tickets + 1, locks := s.locks[b := t],
       threads := s.threads[t := WaitCheck(w.(ticket := s.tickets))])
  }

  // And once it has gone to sleep.
  function SleepingState(s: State, t: Tid, w: Wait): (r: State)
  {
    var b := BucketFor(w.addr);
    s.(lists := s.lists[b := s.WaitList(b) + [t]], tickets := s.tickets + 1,
       threads := s.threads[t := WaitSleeping(w.(ticket := s.tickets), false)])
  }

  lemma Enters(run: seq<State>, t: Tid, w: Wait) returns (more: seq<State>)
    requires IsRun(run) && Last(run).PcOf(t).Idle? && BucketFor(w.addr) !in Last(run).locks
    ensures ContinuedBy(run, more, t) && Last(more) == CheckingState(Last(run), t, w)
  {
    hide ContinuedBy, BucketFor;
    var s := Last(run);
    NotYetContinued(run, t);
    OneMore(run, run, t, BeginWait(w));
    var s1 := Apply(s, t, BeginWait(w));
    more := run + [s1];
    OneMore(run, more, t, Go);
    var s2 := Apply(s1, t, Go);
    more := more + [s2];
    OneMore(run, more, t, Go);
    LinkState(s, s2, t, w);
    more := more + [Apply(s2, t, Go)];
  }

  lemma LinkState(s: State, r: State, t: Tid, w: Wait)
    requires r == s.(locks := s.locks[BucketFor(w.addr) := t], threads := r.threads)
    requires r.threads == s.threads[t := WaitLink(w)] || r.threads == s.threads[t := WaitAcquire(w)][t := WaitLink(w)]
    ensures Link(r, t, w) == CheckingState(s, t, w)
  {
    hide BucketFor;
  }

  lemma FallsAsleep(s: State, r: State, t: Tid, w: Wait)
    requires r == CheckingState(s, t, w) && s.Read(w.addr) == w.cmp && BucketFor(w.addr) !in s.locks
    ensures Enabled(r, t, Go) && Enabled(Apply(r, t, Go), t, Go)
    ensures Apply(Apply(r, t, Go), t, Go) == SleepingState(s, t, w)
  {
    hide BucketFor, State.WaitList;
    var v, b := w.(ticket := s.tickets), BucketFor(w.addr);
    assert r.Read(w.addr) == s.Read(w.addr);
    var r1 := Apply(r, t, Go);
    assert r1 == r.At(t, WaitSleep(v));
    assert r.locks - {b} == s.locks;
    assert r.threads[t := WaitSleep(v)][t := WaitSleeping(v, false)] == s.threads[t := WaitSleeping(v, false)];
  }

  /** A thread that calls wait while the value is the one it names goes to sleep at the
      tail of the list, by its own steps, and leaves the lock free. */
  lemma EqualMeansSleep(run: seq<State>, t: Tid, w: Wait) returns (more: seq<State>)
    requires IsRun(run) && Last(run).PcOf(t).Idle?
    requires BucketFor(w.addr) !in Last(run).locks && Last(run).Read(w.addr) == w.cmp
    ensures ContinuedBy(run, more, t) && Last(more) == SleepingState(Last(run), t, w)
  {
    hide ContinuedBy, BucketFor, Apply, Enabled, CheckingState, SleepingState;
    more := Enters(run, t, w);
    var s := Last(more);
    FallsAsleep(Last(run), s, t, w);
    OneMore(run, more, t, Go);
    var r := Apply(s, t, Go);
    more := more + [r];
    OneMore(run, more, t, Go);
    more := more + [Apply(r, t, Go)];
  }


  // --- a notify_one that wakes nobody ---

  lemma OneMoreStep(run: seq<State>, t: Tid, a: Action)
    requires IsRun(run) && Enabled(Last(run), t, a)
    ensures IsRun(run + [Apply(Last(run), t, a)])
  {
    hide Apply, Enabled;
    NotYetContinued(run, t);
    OneMore(run, run, t, a);
  }

  // Threads 1 and 2 asleep on the address, one behind the other.
  ghost predicate TwoAsleep(s: State, addr: Addr)
  {
    && s.locks == map[] && s.WaitList(BucketFor(addr)) == [1, 2] && s.PcOf(3).Idle?
    && Asleep(s.PcOf(1)) && s.PcOf(1).w.addr == addr && s.PcOf(1).w.timed
    && Asleep(s.PcOf(2)) && s.PcOf(2).w.addr == addr
  }

  lemma TwoGoToSleep(addr: Addr) returns (run: seq<State>)
    ensures IsRun(run) && run != [] && TwoAsleep(run[|run| - 1], addr)
  {
    hide ContinuedBy, BucketFor, Apply, Enabled;
    var s0 := State(map[], map[], map[], map[], 0, {});
    var one := EqualMeansSleep([s0], 1, Wait(addr, 0, true, 0));
    assert IsRun(one) by { StillRun([s0], one, 1); }
    run := EqualMeansSleep(one, 2, Wait(addr, 0, false, 0));
    StillRun(one, run, 2);
  }

  lemma StillRun(run: seq<State>, more: seq<State>, t: Tid)
    requires ContinuedBy(run, more, t)
    ensures IsRun(more)
  {
  }

  // The last step of a notify_one that finds thread 1 on its way out.
  lemma SpentScan(s: State, addr: Addr)
    requires s.PcOf(3) == NotifyScan(addr, false, 0) && s.WaitList(BucketFor(addr)) == [1, 2]
    requires s.PcOf(1).WaitRelock? && s.PcOf(1).w.addr == addr
    ensures Apply(s, 3, Go) == s.At(3, NotifyUnlock(addr))
  {
    hide BucketFor;
  }

  /** A thread whose time is up but which does not have the lock back yet still stands in
      the list, and a notify_one can be spent on it while the thread behind it, asleep on
      the same address, sleeps on.  NotifyOneWakes says when this is so. */
  lemma NotifyOneCanBeSpent(addr: Addr) returns (run: seq<State>)
    ensures IsRun(run) && |run| > 1
    ensures var s, r := run[|run| - 2], run[|run| - 1];
            && s.PcOf(3) == NotifyScan(addr, false, 0) && r.PcOf(3) == NotifyUnlock(addr)
            && s.WaitList(BucketFor(addr)) == [1, 2] && WaitsOn(s, 1, addr) && WaitsOn(s, 2, addr)
            && Asleep(s.PcOf(2)) && Asleep(r.PcOf(2))
  {
    hide BucketFor, IsRun, Scan, State.WaitList;
    run := TwoGoToSleep(addr);
    var s := Last(run);
    OneMoreStep(run, 1, Wake(true));
    var s1 := Apply(s, 1, Wake(true));
    run := run + [s1];
    OneMoreStep(run, 3, BeginNotify(addr, false));
    var s2 := Apply(s1, 3, BeginNotify(addr, false));
    run := run + [s2];
    OneMoreStep(run, 3, Go);
    var s3 := Apply(s2, 3, Go);
    run := run + [s3];
    SameList(s, s3, BucketFor(addr));
    OneMoreStep(run, 3, Go);
    SpentScan(s3, addr);
    run := run + [Apply(s3, 3, Go)];
  }
}
