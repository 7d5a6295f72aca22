// What __std_atomic_wait_indirect returns, over whole runs: FALSE exactly after its
// sleep timed out, and TRUE after a wake or a value other than the one waited on.
module WaitOutcome {
  import opened WaitProtocol

  // The result of the call is settled.
  predicate Leaving(pc: Pc) { pc.WaitUnlink? || pc.WaitUnlock? || pc.WaitReturned? }

  // The call has its ticket.
  predicate Entered(pc: Pc) { pc.Linked() || pc.WaitUnlock? || pc.WaitReturned? }

  // What the thread stands on when its call comes to leave the loop.
  predicate Reason(s: State, t: Tid, w: Wait, result: bool)
  {
    if result then SeesOther(s, t, w) || (w.timed && s.PcOf(t) == WaitRelock(w, false))
    else s.PcOf(t) == WaitRelock(w, true)
  }

  lemma LeavingStep(s: State, t: Tid, a: Action)
    requires Inv(s) && Enabled(s, t, a) && Apply(s, t, a).PcOf(t).WaitUnlink?
    ensures var pc := Apply(s, t, a).PcOf(t); Reason(s, t, pc.w, pc.result)
  {
    hide Apply, Enabled, BucketFor, State.Read, ListsAgree, NoLostWake;
    OwnStep(s, t, a);
    if s.PcOf(t).WaitRelock? {
      RelockStep(s, t);
    } else {
      CheckStep(s, t);
      assert Holds(s, t, BucketFor(s.PcOf(t).w.addr));
    }
  }

  lemma {:induction false} LeavesForReason(run: seq<State>, k: nat, t: Tid)
    requires IsRun(run) && k < |run| && Leaving(run[k].PcOf(t))
    ensures var pc := run[k].PcOf(t); exists j: nat :: j < k && Reason(run[j], t, pc.w, pc.result)
  {
    hide Enabled, Apply, Reason, Inv;
    if k > 0 {
      var s := run[k - 1];
      assert Next(s, run[k - 1 + 1]);
      var u: Tid, a: Action :| Enabled(s, u, a) && run[k] == Apply(s, u, a);
      if u == t && run[k].PcOf(t).WaitUnlink? {
        RunKeepsInv(run, k - 1);
        LeavingStep(s, t, a);
      } else {
        if u == t {
          OwnStep(s, t, a);
        } else {
          OthersStay(s, u, a, t);
        }
        LeavesForReason(run, k - 1, t);
      }
    }
  }

  // --- a timeout is not forgotten ---

  // The call w of thread t that timed out is on its way out, or over.
  predicate SinceTimeout(s: State, t: Tid, w: Wait)
  {
    var pc := s.PcOf(t);
    && w.ticket < s.tickets
    && (Entered(pc) && pc.w.ticket <= w.ticket ==>
          pc == WaitRelock(w, true) || (Leaving(pc) && pc.w == w && !pc.result))
  }

  // A step of a thread in a call keeps the ticket; a new call takes the next one.
  lemma TicketStep(s: State, t: Tid, a: Action)
    requires Enabled(s, t, a)
    ensures var pc, r := s.PcOf(t), Apply(s, t, a);
            && s.tickets <= r.tickets
            && (Entered(r.PcOf(t)) ==> (Entered(pc) && r.PcOf(t).w == pc.w) || r.PcOf(t).w.ticket == s.tickets)
            && (pc.WaitRelock? ==> r.PcOf(t) == AfterSleep(pc.w, pc.timedOut))
            && (Leaving(pc) && Entered(r.PcOf(t)) ==> Leaving(r.PcOf(t)) && r.PcOf(t).result == pc.result)
  {
    hide BucketFor, State.WaitList, State.Read, WithoutThread, Scan, Store, Link, Unlink;
    ListTickets(s, t, a);
    match a {
      case Go =>
        match s.PcOf(t) {
          case WaitLink(w) => LinkMoves(s, t, w);
          case WaitUnlink(w, result) => UnlinkMoves(s, t, w, result);
          case StoreThen(addr, value, next) => StoreMoves(s, t, addr, value, next);
          case NotifyScan(addr, all, pos) => ScanMoves(s, t, addr, all, pos, t);
          case _ =>
        }
      case _ =>
    }
  }

  lemma ListTickets(s: State, t: Tid, a: Action)
    requires Enabled(s, t, a)
    ensures s.tickets <= Apply(s, t, a).tickets
  {
    hide BucketFor, State.WaitList, State.Read, WithoutThread, Scan;
    if Scanning(s, t, a) {
      var pc := s.PcOf(t);
      ScanInTwo(s, t, pc.addr, pc.all, pc.pos);
    }
  }

  lemma TimeoutStep(s: State, u: Tid, a: Action, t: Tid, w: Wait)
    requires Enabled(s, u, a) && SinceTimeout(s, t, w)
    ensures SinceTimeout(Apply(s, u, a), t, w)
  {
    hide Enabled, Apply;
    TicketStep(s, u, a);
    if u != t {
      OthersStay(s, u, a, t);
    }
  }

  lemma {:induction false} TimeoutLasts(run: seq<State>, j: nat, k: nat, t: Tid, w: Wait)
    requires IsRun(run) && j <= k < |run| && run[j].PcOf(t) == WaitRelock(w, true)
    ensures SinceTimeout(run[k], t, w)
    decreases k
  {
    hide Enabled, Apply, SinceTimeout, Inv;
    if j == k {
      RunKeepsInv(run, k);
      TimedOutTicket(run[k], t, w);
    } else {
      TimeoutLasts(run, j, k - 1, t, w);
      assert Next(run[k - 1], run[k - 1 + 1]);
      var u: Tid, a: Action :| Enabled(run[k - 1], u, a) && run[k] == Apply(run[k - 1], u, a);
      TimeoutStep(run[k - 1], u, a, t, w);
    }
  }

  lemma TimedOutTicket(s: State, t: Tid, w: Wait)
    requires Inv(s) && s.PcOf(t) == WaitRelock(w, true)
    ensures SinceTimeout(s, t, w)
  {
    hide BucketFor, LocksAgree, NoLostWake, State.WaitList;
    var b := BucketFor(w.addr);
    var i: nat :| i < |s.WaitList(b)| && s.WaitList(b)[i] == t;
    assert InList(s, t, b);
  }

  /** A call returns FALSE exactly if its sleep has timed out, and then it was timed.  It
      returns TRUE because it saw another value with the lock held, or, if it is timed,
      because it was woken in time. */
  lemma FalseIffTimedOut(run: seq<State>, k: nat, t: Tid)
    requires IsRun(run) && k < |run| && Leaving(run[k].PcOf(t))
    ensures var pc := run[k].PcOf(t);
            && (!pc.result <==> exists j: nat :: j < k && run[j].PcOf(t) == WaitRelock(pc.w, true))
            && (!pc.result ==> pc.w.timed)
            && (pc.result ==> exists j: nat :: j < k && Reason(run[j], t, pc.w, true))
  {
    hide IsRun, Reason;
    var pc := run[k].PcOf(t);
    LeavesForReason(run, k, t);
    if !pc.result {
      var j: nat :| j < k && Reason(run[j], t, pc.w, false);
      assert run[j].PcOf(t) == WaitRelock(pc.w, true) by { ReasonFalse(run[j], t, pc.w); }
      TimeoutsAreTimed(run, j, t);
    } else if j: nat :| j < k && run[j].PcOf(t) == WaitRelock(pc.w, true) {
      TimeoutLasts(run, j, k, t, pc.w);
    }
  }

  lemma ReasonFalse(s: State, t: Tid, w: Wait)
    requires Reason(s, t, w, false)
    ensures s.PcOf(t) == WaitRelock(w, true)
  {
  }

  // --- the value waited on ---

  lemma MemoryStep(s: State, t: Tid, a: Action, addr: Addr)
    requires Enabled(s, t, a)
    ensures var pc, r := s.PcOf(t), Apply(s, t, a);
            r.Read(addr) == if a.Go? && pc.StoreThen? && pc.addr == addr then pc.value else s.Read(addr)
  {
    hide BucketFor, State.WaitList, WithoutThread, Scan;
    if Scanning(s, t, a) {
      var pc := s.PcOf(t);
      ScanMoves(s, t, pc.addr, pc.all, pc.pos, t);
    }
  }

  // A store puts its value in place, and nothing else changes one.
  lemma OnlyStoresChange(run: seq<State>, k: nat, addr: Addr, t: Tid)
    requires IsRun(run) && k + 1 < |run|
    ensures var s, r := run[k], run[k + 1];
            && (s.PcOf(t).StoreThen? && s.PcOf(t).addr == addr && r.PcOf(t) != s.PcOf(t) ==>
                  r.Read(addr) == s.PcOf(t).value)
            && (r.Read(addr) != s.Read(addr) ==>
                  exists u: Tid :: s.PcOf(u).StoreThen? && s.PcOf(u).addr == addr && s.PcOf(u).value == r.Read(addr))
  {
    hide Enabled, Apply, State.Read;
    var s := run[k];
    assert Next(s, run[k + 1]);
    var u: Tid, a: Action :| Enabled(s, u, a) && run[k + 1] == Apply(s, u, a);
    MemoryStep(s, u, a, addr);
    if u != t {
      OthersStay(s, u, a, t);
    } else if s.PcOf(t).StoreThen? {
      OnlyGo(s, t, a);
    }
  }

  lemma OnlyGo(s: State, t: Tid, a: Action)
    requires Enabled(s, t, a) && s.PcOf(t).StoreThen?
    ensures a.Go?
  {
  }

  // --- stores that nobody announced ---

  // Thread u stores to the address in this step and no notify_all follows.
  predicate StoresQuietly(s: State, r: State, u: Tid, addr: Addr)
  {
    s.PcOf(u).StoreThen? && s.PcOf(u).addr == addr && !s.PcOf(u).next.All? && r.PcOf(u) != s.PcOf(u)
  }

  // Thread u begins a notify_all of the address in this step.
  predicate BeginsAll(s: State, r: State, u: Tid, addr: Addr)
  {
    r.PcOf(u) == NotifyAcquire(addr, true) && s.PcOf(u) != r.PcOf(u)
  }

  lemma UnannouncedStep(s: State, t: Tid, a: Action, addr: Addr)
    requires Enabled(s, t, a)
    ensures var r := Apply(s, t, a);
            && (addr in r.unannounced ==> addr in s.unannounced || StoresQuietly(s, r, t, addr))
            && (BeginsAll(s, r, t, addr) ==> addr !in r.unannounced)
  {
    hide BucketFor, State.WaitList, State.Read, WithoutThread, Scan;
    if Scanning(s, t, a) {
      var pc := s.PcOf(t);
      ScanMoves(s, t, pc.addr, pc.all, pc.pos, t);
    }
  }

  predicate BeginsAllAt(run: seq<State>, i: nat, u: Tid, addr: Addr)
    requires i + 1 < |run|
  {
    BeginsAll(run[i], run[i + 1], u, addr)
  }

  // Unannounced is what was stored to with no notify_all begun since.
  lemma {:induction false} UnannouncedStore(run: seq<State>, k: nat, addr: Addr) returns (j: nat, u: Tid)
    requires IsRun(run) && k < |run| && addr !in run[0].unannounced && addr in run[k].unannounced
    ensures j < k && StoresQuietly(run[j], run[j + 1], u, addr)
    ensures forall i: nat, n: Tid :: j < i < k ==> !BeginsAllAt(run, i, n, addr)
  {
    hide Enabled, Apply, BeginsAll, StoresQuietly;
    var last: nat, s := k - 1, run[k - 1];
    assert Next(s, run[last + 1]);
    var t: Tid, a: Action :| Enabled(s, t, a) && run[k] == Apply(s, t, a);
    UnannouncedStep(s, t, a, addr);
    if addr in s.unannounced {
      j, u := UnannouncedStore(run, k - 1, addr);
      forall n: Tid
        ensures !BeginsAllAt(run, last, n, addr)
      {
        if n != t {
          BeginsItself(s, t, a, n, addr);
        }
      }
    } else {
      j, u := k - 1, t;
    }
  }

  lemma BeginsItself(s: State, t: Tid, a: Action, n: Tid, addr: Addr)
    requires Enabled(s, t, a) && n != t
    ensures !BeginsAll(s, Apply(s, t, a), n, addr)
  {
    hide Enabled, Apply;
    OthersStay(s, t, a, n);
  }
}
