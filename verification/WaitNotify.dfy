// Whom notify_one and notify_all reach, over whole runs.
module WaitNotify {
  import opened WaitProtocol

  // The thread has a context on the address.
  predicate WaitsOn(s: State, u: Tid, addr: Addr) { s.PcOf(u).Linked() && s.PcOf(u).w.addr == addr }

  // What a scan leaves behind it: notify_one has passed nobody it was to wake, and
  // notify_all nobody who is still at risk.
  predicate Behind(s: State, u: Tid, addr: Addr, all: bool)
  {
    WaitsOn(s, u, addr) ==> all && !s.PcOf(u).AtRisk()
  }

  ghost predicate ScanOk(s: State, t: Tid)
  {
    s.PcOf(t).NotifyScan? ==>
      var pc := s.PcOf(t);
      forall i: nat :: i < pc.pos && i < |s.WaitList(BucketFor(pc.addr))| ==>
        Behind(s, s.WaitList(BucketFor(pc.addr))[i], pc.addr, pc.all)
  }

  // In the list of a locked bucket nobody but the owner of the lock gets far.
  lemma LockedOut(s: State, t: Tid, addr: Addr, u: Tid, a: Action)
    requires LocksAgree(s) && Holds(s, t, BucketFor(addr)) && u != t && WaitsOn(s, u, addr) && Enabled(s, u, a)
    ensures s.PcOf(u).WaitSleeping? && a.Wake? && Apply(s, u, a).PcOf(u) == WaitRelock(s.PcOf(u).w, a.timedOut)
  {
    hide BucketFor;
    assert !Holds(s, u, BucketFor(addr));
    assert BucketFor(addr) in s.locks;
  }

  // Neither does its list change.
  lemma LockedList(s: State, t: Tid, addr: Addr, u: Tid, a: Action)
    requires LocksAgree(s) && Holds(s, t, BucketFor(addr)) && Enabled(s, u, a)
    requires u == t ==> s.PcOf(t).NotifyScan?
    ensures Apply(s, u, a).WaitList(BucketFor(addr)) == s.WaitList(BucketFor(addr))
  {
    hide BucketFor, WithoutThread, State.Read, Scan, Store, LocksAgree;
    var pc := s.PcOf(u);
    if Scanning(s, u, a) {
      ScanMoves(s, u, pc.addr, pc.all, pc.pos, u);
    } else if a.Go? && (pc.WaitLink? || pc.WaitUnlink?) {
      OtherBucket(s, t, addr, u);
    } else {
      OtherLists(s, u, a);
      hide Apply, Enabled;
    }
  }

  lemma OtherBucket(s: State, t: Tid, addr: Addr, u: Tid)
    requires LocksAgree(s) && Holds(s, t, BucketFor(addr)) && u != t && (s.PcOf(u).WaitLink? || s.PcOf(u).WaitUnlink?)
    ensures BucketFor(s.PcOf(u).w.addr) != BucketFor(addr)
  {
    hide BucketFor;
    assert !Holds(s, u, BucketFor(addr));
  }

  // A step of another thread leaves what is behind the scan as it is.
  lemma BehindKept(s: State, t: Tid, addr: Addr, all: bool, u: Tid, a: Action, x: Tid)
    requires Inv(s) && Holds(s, t, BucketFor(addr)) && u != t && Enabled(s, u, a)
    requires x in s.WaitList(BucketFor(addr)) && Behind(s, x, addr, all)
    ensures Behind(Apply(s, u, a), x, addr, all)
  {
    hide Apply, Enabled, BucketFor, Holds, State.WaitList, NoLostWake;
    if x != u {
      OthersStay(s, u, a, x);
    } else if WaitsOn(s, x, addr) {
      LockedOut(s, t, addr, u, a);
    } else {
      StaysAway(s, u, a, addr);
    }
  }

  // A context is on one address.
  lemma StaysAway(s: State, u: Tid, a: Action, addr: Addr)
    requires Inv(s) && Enabled(s, u, a) && u in s.WaitList(BucketFor(addr)) && !WaitsOn(s, u, addr)
    ensures !WaitsOn(Apply(s, u, a), u, addr)
  {
    hide BucketFor, State.WaitList, State.Read, WithoutThread, Scan, Link, Unlink, Store, LocksAgree, NoLostWake;
    var i: nat :| i < |s.WaitList(BucketFor(addr))| && s.WaitList(BucketFor(addr))[i] == u;
    assert InList(s, u, BucketFor(addr));
    if a.Go? && s.PcOf(u).WaitUnlink? {
      UnlinkMoves(s, u, s.PcOf(u).w, s.PcOf(u).result);
    } else {
      OtherLists(s, u, a);
    }
  }

  lemma OtherScanKept(s: State, t: Tid, u: Tid, a: Action)
    requires Inv(s) && Enabled(s, u, a) && t != u && ScanOk(s, t)
    ensures ScanOk(Apply(s, u, a), t)
  {
    hide Apply, Enabled, Behind, Inv, BucketFor, State.WaitList;
    OthersStay(s, u, a, t);
    var r, pc := Apply(s, u, a), s.PcOf(t);
    if pc.NotifyScan? {
      InvLocks(s);
      LockedList(s, t, pc.addr, u, a);
      var l := s.WaitList(BucketFor(pc.addr));
      forall i: nat | i < pc.pos && i < |l|
        ensures Behind(r, l[i], pc.addr, pc.all)
      {
        BehindKept(s, t, pc.addr, pc.all, u, a, l[i]);
      }
    }
  }

  lemma InvLocks(s: State)
    requires Inv(s)
    ensures LocksAgree(s) && ListsAgree(s)
  {
  }

  // The scan's own step wakes whom it passes, if that one waits on the address.
  lemma StepBehind(s: State, t: Tid, addr: Addr, all: bool, pos: nat, i: nat)
    requires Inv(s) && s.PcOf(t) == NotifyScan(addr, all, pos) && i <= pos && i < |s.WaitList(BucketFor(addr))|
    requires i < pos ==> Behind(s, s.WaitList(BucketFor(addr))[i], addr, all)
    requires Scan(s, t, addr, all, pos).PcOf(t).NotifyScan?
    ensures Behind(Scan(s, t, addr, all, pos), s.WaitList(BucketFor(addr))[i], addr, all)
  {
    hide BucketFor, Scan, State.WaitList, NoLostWake;
    var x := s.WaitList(BucketFor(addr))[i];
    assert InList(s, x, BucketFor(addr));
    ScanMoves(s, t, addr, all, pos, x);
    if i == pos && WaitsOn(s, x, addr) && s.PcOf(x).AtRisk() {
      PassingWakes(s, t, addr, all, pos, x);
    }
  }

  lemma OwnScanKept(s: State, t: Tid, a: Action)
    requires Inv(s) && Enabled(s, t, a) && ScanOk(s, t)
    ensures ScanOk(Apply(s, t, a), t)
  {
    hide Behind, Inv, BucketFor, State.WaitList, Scan, Link, Unlink, Store;
    var r, pc := Apply(s, t, a), s.PcOf(t);
    if Scanning(s, t, a) && r.PcOf(t).NotifyScan? {
      ScanMoves(s, t, pc.addr, pc.all, pc.pos, t);
      SameList(s, r, BucketFor(pc.addr));
      forall i: nat | i < pc.pos + 1 && i < |s.WaitList(BucketFor(pc.addr))|
        ensures Behind(r, s.WaitList(BucketFor(pc.addr))[i], pc.addr, pc.all)
      {
        StepBehind(s, t, pc.addr, pc.all, pc.pos, i);
      }
    } else if r.PcOf(t).NotifyScan? {
      NotifierPath(s, t, a);
    }
  }

  lemma SameList(s: State, r: State, b: Bucket)
    requires r.lists == s.lists
    ensures r.WaitList(b) == s.WaitList(b)
  {
  }

  // A notifier comes to its scan from its lock, and stays with its address and kind.
  lemma NotifierPath(s: State, t: Tid, a: Action)
    requires Enabled(s, t, a)
    ensures var pc, pc' := s.PcOf(t), Apply(s, t, a).PcOf(t);
            && (pc'.NotifyScan? ==>
                  || (pc == NotifyAcquire(pc'.addr, pc'.all) && pc'.pos == 0)
                  || (pc'.pos > 0 && pc == NotifyScan(pc'.addr, pc'.all, pc'.pos - 1)))
            && (pc'.NotifyUnlock? ==> pc.NotifyScan? && pc.addr == pc'.addr)
            && (pc.NotifyAcquire? ==> pc' == NotifyScan(pc.addr, pc.all, 0))
            && (pc.StoreThen? && !pc.next.Nothing? ==> pc' == NotifyAcquire(pc.addr, pc.next.All?))
  {
    hide BucketFor, State.WaitList, State.Read, WithoutThread, Scan, Link, Unlink, Store;
    match a {
      case Go =>
        match s.PcOf(t) {
          case WaitLink(w) => LinkMoves(s, t, w);
          case WaitUnlink(w, result) => UnlinkMoves(s, t, w, result);
          case StoreThen(addr, value, next) => StoreMoves(s, t, addr, value, next);
          case NotifyScan(addr, all, pos) => ScanMoves(s, t, addr, all, pos, t);
          case _ =>
        }
      case _ =>
    }
  }

  lemma {:induction false} RunKeepsScans(run: seq<State>, k: nat, t: Tid)
    requires IsRun(run) && k < |run|
    ensures ScanOk(run[k], t)
  {
    hide Inv, Enabled, Apply, BucketFor, Behind;
    if k > 0 {
      RunKeepsScans(run, k - 1, t);
      RunKeepsInv(run, k - 1);
      assert Next(run[k - 1], run[k - 1 + 1]);
      var u: Tid, a: Action :| Enabled(run[k - 1], u, a) && run[k] == Apply(run[k - 1], u, a);
      if u == t {
        OwnScanKept(run[k - 1], t, a);
      } else {
        OtherScanKept(run[k - 1], t, u, a);
      }
    }
  }

  // The first thread in the list with a context on the address.
  ghost predicate FirstWaiter(s: State, l: seq<Tid>, addr: Addr, i: nat)
  {
    i < |l| && WaitsOn(s, l[i], addr) && forall j: nat :: j < i ==> !WaitsOn(s, l[j], addr)
  }

  predicate Asleep(pc: Pc) { pc.WaitSleeping? && !pc.signalled }

  // A scan moves by its own steps only.
  lemma ScanStep(run: seq<State>, k: nat, t: Tid)
    requires IsRun(run) && k + 1 < |run| && run[k].PcOf(t).NotifyScan? && run[k + 1].PcOf(t) != run[k].PcOf(t)
    ensures var pc := run[k].PcOf(t); run[k + 1] == Scan(run[k], t, pc.addr, pc.all, pc.pos)
  {
    hide Enabled, Apply, Scan;
    assert Next(run[k], run[k + 1]);
    var u: Tid, a: Action :| Enabled(run[k], u, a) && run[k + 1] == Apply(run[k], u, a);
    if u == t {
      OwnScanStep(run[k], t, a);
    } else {
      OthersStay(run[k], u, a, t);
    }
  }

  lemma OwnScanStep(s: State, t: Tid, a: Action)
    requires Enabled(s, t, a) && s.PcOf(t).NotifyScan?
    ensures var pc := s.PcOf(t); a.Go? && Apply(s, t, a) == Scan(s, t, pc.addr, pc.all, pc.pos)
  {
    hide BucketFor, Scan;
  }

  // Where a notify_one that has passed nobody it was to wake stops.
  lemma OneScan(s: State, t: Tid, addr: Addr, pos: nat, u: Tid)
    requires Inv(s) && ScanOk(s, t) && s.PcOf(t) == NotifyScan(addr, false, pos) && u != t
    ensures var r, l := Scan(s, t, addr, false, pos), s.WaitList(BucketFor(addr));
            && (r.PcOf(t).NotifyUnlock? ==> forall i: nat :: i < |l| && i != pos ==> !FirstWaiter(s, l, addr, i))
            && (r.PcOf(t).NotifyUnlock? && pos < |l| ==> FirstWaiter(s, l, addr, pos))
            && (r.PcOf(u) != s.PcOf(u) <==>
                  r.PcOf(t).NotifyUnlock? && pos < |l| && l[pos] == u && Asleep(s.PcOf(u)))
            && (r.PcOf(u) != s.PcOf(u) ==> r.PcOf(u) == WaitSleeping(s.PcOf(u).w, true))
  {
    hide BucketFor, Scan, State.WaitList, NoLostWake, LocksAgree;
    var l := s.WaitList(BucketFor(addr));
    ScanInTwo(s, t, addr, false, pos);
    assert forall i: nat :: i < pos && i < |l| ==> Behind(s, l[i], addr, false);
    if pos < |l| {
      assert InList(s, l[pos], BucketFor(addr));
    }
  }

  lemma OneScanInRun(run: seq<State>, k: nat, t: Tid, u: Tid)
    requires IsRun(run) && k + 1 < |run| && run[k].PcOf(t).NotifyScan? && run[k + 1].PcOf(t) != run[k].PcOf(t)
    requires !run[k].PcOf(t).all && u != t
    ensures var s, r, addr, pos := run[k], run[k + 1], run[k].PcOf(t).addr, run[k].PcOf(t).pos;
            var l := s.WaitList(BucketFor(addr));
            && (r.PcOf(t).NotifyUnlock? ==> forall i: nat :: i < |l| && i != pos ==> !FirstWaiter(s, l, addr, i))
            && (r.PcOf(t).NotifyUnlock? && pos < |l| ==> FirstWaiter(s, l, addr, pos))
            && (r.PcOf(u) != s.PcOf(u) <==>
                  r.PcOf(t).NotifyUnlock? && pos < |l| && l[pos] == u && Asleep(s.PcOf(u)))
            && (r.PcOf(u) != s.PcOf(u) ==> r.PcOf(u) == WaitSleeping(s.PcOf(u).w, true))
  {
    hide IsRun, Inv, ScanOk, Scan, BucketFor, FirstWaiter, State.WaitList;
    RunKeepsInv(run, k);
    RunKeepsScans(run, k, t);
    ScanStep(run, k, t);
    OneScan(run[k], t, run[k].PcOf(t).addr, run[k].PcOf(t).pos, u);
  }

  /** A step of notify_one wakes a thread exactly if it ends the scan and the thread is
      asleep and the first one in the list with a context on the address. */
  lemma NotifyOneWakes(run: seq<State>, k: nat, t: Tid, u: Tid)
    requires IsRun(run) && k + 1 < |run| && run[k].PcOf(t).NotifyScan? && run[k + 1].PcOf(t) != run[k].PcOf(t)
    requires !run[k].PcOf(t).all && u != t
    ensures var s, r, addr := run[k], run[k + 1], run[k].PcOf(t).addr;
            var l := s.WaitList(BucketFor(addr));
            && (r.PcOf(u) != s.PcOf(u) <==>
                  && r.PcOf(t).NotifyUnlock? && Asleep(s.PcOf(u))
                  && exists i: nat :: FirstWaiter(s, l, addr, i) && l[i] == u)
            && (r.PcOf(u) != s.PcOf(u) ==> r.PcOf(u) == WaitSleeping(s.PcOf(u).w, true))
  {
    hide IsRun, WaitsOn, BucketFor, State.WaitList;
    OneScanInRun(run, k, t, u);
  }

  /** When its scan ends, notify_one has found nobody with a context on the address, or
      the first one is not at risk of sleeping on. */
  lemma NotifyOneReaches(run: seq<State>, k: nat, t: Tid)
    requires IsRun(run) && k + 1 < |run| && run[k].PcOf(t).NotifyScan? && run[k + 1].PcOf(t).NotifyUnlock?
    requires !run[k].PcOf(t).all
    ensures var s, r, addr := run[k], run[k + 1], run[k].PcOf(t).addr;
            var l := s.WaitList(BucketFor(addr));
            || (forall i: nat :: i < |l| ==> !WaitsOn(s, l[i], addr))
            || (exists i: nat :: FirstWaiter(s, l, addr, i) && !r.PcOf(l[i]).AtRisk())
  {
    hide IsRun, BucketFor, State.WaitList, NoLostWake;
    var s, r, addr, pos := run[k], run[k + 1], run[k].PcOf(t).addr, run[k].PcOf(t).pos;
    var l := s.WaitList(BucketFor(addr));
    OneScanInRun(run, k, t, t + 1);
    if pos < |l| {
      assert FirstWaiter(s, l, addr, pos);
      OneScanInRun(run, k, t, l[pos]);
      RunKeepsInv(run, k);
      NoneAboutToSleep(s, t, l[pos]);
    } else {
      RunKeepsScans(run, k, t);
      assert forall i: nat :: i < |l| ==> Behind(s, l[i], addr, false);
    }
  }

  lemma NoneAboutToSleep(s: State, t: Tid, u: Tid)
    requires Inv(s) && s.PcOf(t).NotifyScan? && WaitsOn(s, u, s.PcOf(t).addr)
    ensures u != t && !s.PcOf(u).WaitSleep?
  {
    hide BucketFor, ListsAgree, NoLostWake;
    assert Holds(s, t, BucketFor(s.PcOf(t).addr));
    assert u != t ==> !Holds(s, u, BucketFor(s.PcOf(t).addr));
  }

  /** When its scan ends, notify_all has left nobody with a context on the address at
      risk of sleeping on. */
  lemma NotifyAllReaches(run: seq<State>, k: nat, t: Tid, u: Tid)
    requires IsRun(run) && k + 1 < |run| && run[k].PcOf(t).NotifyScan? && run[k + 1].PcOf(t).NotifyUnlock?
    requires run[k].PcOf(t).all && WaitsOn(run[k], u, run[k].PcOf(t).addr)
    ensures WaitsOn(run[k + 1], u, run[k].PcOf(t).addr) && !run[k + 1].PcOf(u).AtRisk()
  {
    hide IsRun, BucketFor, State.WaitList, NoLostWake, LocksAgree, Scan;
    var s, addr, pos := run[k], run[k].PcOf(t).addr, run[k].PcOf(t).pos;
    var l := s.WaitList(BucketFor(addr));
    RunKeepsInv(run, k);
    RunKeepsScans(run, k, t);
    ScanStep(run, k, t);
    ScanMoves(s, t, addr, true, pos, u);
    assert u in l;
    var i: nat :| i < |l| && l[i] == u;
    assert Behind(s, l[i], addr, true);
  }

  // --- the scan as a whole ---

  // The scan carried to its end by its own steps.
  ghost function ScanToEnd(s: State, t: Tid): (r: State)
    requires s.PcOf(t).NotifyScan?
    decreases |s.WaitList(BucketFor(s.PcOf(t).addr))| - s.PcOf(t).pos
  {
    var pc := s.PcOf(t);
    var r := Scan(s, t, pc.addr, pc.all, pc.pos);
    if r.PcOf(t).NotifyScan? then
      ScanMoves(s, t, pc.addr, pc.all, pc.pos, t);
      SameList(s, r, BucketFor(pc.addr));
      ScanToEnd(r, t)
    else r
  }

  lemma ScanIsStep(s: State, t: Tid)
    requires Inv(s) && s.PcOf(t).NotifyScan? && ScanOk(s, t)
    ensures var pc := s.PcOf(t);
            var r := Scan(s, t, pc.addr, pc.all, pc.pos);
            && r == Apply(s, t, Go) && Inv(r) && ScanOk(r, t) && r.lists == s.lists
            && r.WaitList(BucketFor(pc.addr)) == s.WaitList(BucketFor(pc.addr))
            && (r.PcOf(t) == NotifyUnlock(pc.addr) || r.PcOf(t) == NotifyScan(pc.addr, pc.all, pc.pos + 1))
  {
    hide BucketFor, Inv, ScanOk, Scan;
    var pc := s.PcOf(t);
    ScanMoves(s, t, pc.addr, pc.all, pc.pos, t);
    StepKeepsInv(s, t, Go);
    OwnScanKept(s, t, Go);
  }

  lemma FirstKept(s: State, r: State, t: Tid, l: seq<Tid>, addr: Addr, i: nat)
    requires forall u: Tid :: u != t ==> r.PcOf(u) == s.PcOf(u)
    requires !s.PcOf(t).Linked() && !r.PcOf(t).Linked()
    ensures FirstWaiter(r, l, addr, i) <==> FirstWaiter(s, l, addr, i)
  {
    assert forall u: Tid :: WaitsOn(r, u, addr) == WaitsOn(s, u, addr);
    hide WaitsOn;
  }

  // A whole notify_one wakes the first thread with a context on the address, if it is asleep.
  lemma {:induction false} OneToEnd(s: State, t: Tid, u: Tid)
    requires Inv(s) && s.PcOf(t).NotifyScan? && !s.PcOf(t).all && ScanOk(s, t) && u != t
    ensures var addr, e := s.PcOf(t).addr, ScanToEnd(s, t);
            var l := s.WaitList(BucketFor(addr));
            && e.PcOf(t) == NotifyUnlock(addr) && e.lists == s.lists
            && e.PcOf(u) == if Asleep(s.PcOf(u)) && exists i: nat :: FirstWaiter(s, l, addr, i) && l[i] == u
                            then WaitSleeping(s.PcOf(u).w, true) else s.PcOf(u)
    decreases |s.WaitList(BucketFor(s.PcOf(t).addr))| - s.PcOf(t).pos
  {
    hide BucketFor, Inv, ScanOk, Scan, State.WaitList;
    var addr, pos := s.PcOf(t).addr, s.PcOf(t).pos;
    var r, l := Scan(s, t, addr, false, pos), s.WaitList(BucketFor(addr));
    ScanIsStep(s, t);
    forall x: Tid | x != t
      ensures r.PcOf(t).NotifyScan? ==> r.PcOf(x) == s.PcOf(x)
    {
      OneScan(s, t, addr, pos, x);
    }
    OneScan(s, t, addr, pos, u);
    if r.PcOf(t).NotifyScan? {
      forall i: nat
        ensures FirstWaiter(r, l, addr, i) <==> FirstWaiter(s, l, addr, i)
      {
        FirstKept(s, r, t, l, addr, i);
      }
      hide FirstWaiter;
      assert pos < |l| by { EndsAtEnd(s, t, addr, false, pos); }
      OneToEnd(r, t, u);
    }
  }

  lemma EndsAtEnd(s: State, t: Tid, addr: Addr, all: bool, pos: nat)
    requires s.PcOf(t) == NotifyScan(addr, all, pos)
    ensures pos >= |s.WaitList(BucketFor(addr))| ==> Scan(s, t, addr, all, pos).PcOf(t) == NotifyUnlock(addr)
  {
    hide BucketFor, State.WaitList;
  }

  lemma AllScan(s: State, t: Tid, addr: Addr, pos: nat, u: Tid)
    requires s.PcOf(t) == NotifyScan(addr, true, pos) && u != t
    ensures var r, l := Scan(s, t, addr, true, pos), s.WaitList(BucketFor(addr));
            && (r.PcOf(t).NotifyScan? <==> pos < |l|)
            && r.PcOf(u) == if pos < |l| && l[pos] == u && Asleep(s.PcOf(u)) && WaitsOn(s, u, addr)
                            then WaitSleeping(s.PcOf(u).w, true) else s.PcOf(u)
  {
    hide BucketFor, Scan, State.WaitList;
    ScanInTwo(s, t, addr, true, pos);
  }

  // A whole notify_all wakes everybody on the address who is asleep.
  lemma {:induction false} AllToEnd(s: State, t: Tid, u: Tid)
    requires Inv(s) && s.PcOf(t).NotifyScan? && s.PcOf(t).all && ScanOk(s, t) && u != t
    ensures var addr, pos, e := s.PcOf(t).addr, s.PcOf(t).pos, ScanToEnd(s, t);
            && e.PcOf(t) == NotifyUnlock(addr) && e.lists == s.lists
            && e.PcOf(u) == if Asleep(s.PcOf(u)) && WaitsOn(s, u, addr) && InRest(s.WaitList(BucketFor(addr)), pos, u)
                            then WaitSleeping(s.PcOf(u).w, true) else s.PcOf(u)
    decreases |s.WaitList(BucketFor(s.PcOf(t).addr))| - s.PcOf(t).pos
  {
    hide BucketFor, Inv, ScanOk, Scan, State.WaitList;
    var addr, pos := s.PcOf(t).addr, s.PcOf(t).pos;
    ScanIsStep(s, t);
    AllScan(s, t, addr, pos, u);
    if pos < |s.WaitList(BucketFor(addr))| {
      AllToEnd(Scan(s, t, addr, true, pos), t, u);
    }
  }
}
