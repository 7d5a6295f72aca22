// The SRWLOCK and CONDITION_VARIABLE fallback of atomic wait and notify, as a
// transition system: any number of threads wait, store and notify, one atomic
// action of one thread at a time.
module WaitProtocol {

  type Addr = int
  type Bucket = int
  type Tid = int

  // _Atomic_wait_table_entry
  function BucketFor(addr: Addr): (b: Bucket)
  {
    var index := (addr % 0x1_0000_0000_0000_0000) as bv64;
    var mixed := index ^ (index >> 16);
    ((mixed ^ (mixed >> 8)) & 255) as int
  }

  // Every address has its place in the table of 256 entries.
  lemma BucketInTable(addr: Addr)
    ensures 0 <= BucketFor(addr) < 256
  {
    var index := (addr % 0x1_0000_0000_0000_0000) as bv64;
    var mixed := index ^ (index >> 16);
    assert (mixed ^ (mixed >> 8)) & 255 <= 255;
  }

  // The place is the exclusive or of the four low bytes of the address, so every byte
  // of these makes a difference.
  lemma BucketIsBytes(addr: Addr)
    ensures var x := (addr % 0x1_0000_0000_0000_0000) as bv64;
            BucketFor(addr) == ((x & 255) ^ ((x >> 8) & 255) ^ ((x >> 16) & 255) ^ ((x >> 24) & 255)) as int
  {
    var x := (addr % 0x1_0000_0000_0000_0000) as bv64;
    ByteFold(x);
  }

  lemma ByteFold(x: bv64)
    ensures var mixed := x ^ (x >> 16);
            (mixed ^ (mixed >> 8)) & 255 == (x & 255) ^ ((x >> 8) & 255) ^ ((x >> 16) & 255) ^ ((x >> 24) & 255)
  {
  }

  // One call of __std_atomic_wait_indirect.  The ticket is the order of arrival.
  datatype Wait = Wait(addr: Addr, cmp: int, timed: bool, ticket: nat)

  datatype Followup = Nothing | One | All

  // Where a thread is.  Waiters link a context, compare under the lock, and
  // sleep; notifiers walk the list of the bucket with the lock held.
  datatype Pc =
    | Idle
    | WaitAcquire(w: Wait)
    | WaitLink(w: Wait)
    | WaitCheck(w: Wait)
    | WaitSleep(w: Wait)
    | WaitSleeping(w: Wait, signalled: bool)
    | WaitRelock(w: Wait, timedOut: bool)
    | WaitUnlink(w: Wait, result: bool)
    | WaitUnlock(w: Wait, result: bool)
    | WaitReturned(w: Wait, result: bool)
    | StoreThen(addr: Addr, value: int, next: Followup)
    | NotifyAcquire(addr: Addr, all: bool)
    | NotifyScan(addr: Addr, all: bool, pos: nat)
    | NotifyUnlock(addr: Addr)
  {
    predicate HoldsLock()
    {
      WaitLink? || WaitCheck? || WaitSleep? || WaitUnlink? || WaitUnlock? || NotifyScan? || NotifyUnlock?
    }

    // Between the constructor and the destructor of the wait context.
    predicate Linked()
    {
      WaitCheck? || WaitSleep? || WaitSleeping? || WaitRelock? || WaitUnlink?
    }

    // The address whose bucket this thread is working on.
    function Target(): (addr: Addr)
      requires HoldsLock() || Linked()
    {
      match this
      case NotifyScan(addr, _, _) => addr
      case NotifyUnlock(addr) => addr
      case WaitLink(w) => w.addr
      case WaitCheck(w) => w.addr
      case WaitSleep(w) => w.addr
      case WaitSleeping(w, _) => w.addr
      case WaitRelock(w, _) => w.addr
      case WaitUnlink(w, _) => w.addr
      case WaitUnlock(w, _) => w.addr
    }

    // Asleep, or about to be, with no wake on its way.
    predicate AtRisk()
    {
      WaitSleep? || (WaitSleeping? && !signalled)
    }
  }

  datatype State = State(
    memory: map<Addr, int>,
    locks: map<Bucket, Tid>,
    lists: map<Bucket, seq<Tid>>,
    threads: map<Tid, Pc>,
    tickets: nat,
    unannounced: set<Addr>)  // stored to without a notify_all that began with or after the store
  {
    function Read(addr: Addr): (v: int) { if addr in memory then memory[addr] else 0 }
    function WaitList(b: Bucket): (l: seq<Tid>) { if b in lists then lists[b] else [] }
    function PcOf(t: Tid): (pc: Pc) { if t in threads then threads[t] else Idle }
    function At(t: Tid, pc: Pc): (s: State) { this.(threads := threads[t := pc]) }
    function Lock(b: Bucket, t: Tid): (s: State) { this.(locks := locks[b := t]) }
    function Unlock(b: Bucket): (s: State) { this.(locks := locks - {b}) }
  }

  datatype Action =
    | BeginWait(w: Wait)
    | BeginStore(addr: Addr, value: int, next: Followup)
    | BeginNotify(addr: Addr, all: bool)
    | Wake(timedOut: bool)
    | Go

  predicate Enabled(s: State, t: Tid, a: Action)
  {
    var pc := s.PcOf(t);
    match a
    case BeginWait(w) => pc.Idle?
    case BeginStore(_, _, _) => pc.Idle?
    case BeginNotify(_, _) => pc.Idle?
    // A sleeper wakes when signalled, spuriously, or when its time is up.
    case Wake(timedOut) => pc.WaitSleeping? && (timedOut ==> pc.w.timed)
    case Go =>
      match pc
      case Idle => false
      case WaitSleeping(_, _) => false
      case WaitAcquire(w) => BucketFor(w.addr) !in s.locks
      case WaitRelock(w, _) => BucketFor(w.addr) !in s.locks
      case NotifyAcquire(addr, _) => BucketFor(addr) !in s.locks
      case _ => true
  }

  // WakeAllConditionVariable reaches only a thread that sleeps on that variable.
  function Signalled(s: State, t: Tid): (r: State)
  {
    match s.PcOf(t)
    case WaitSleeping(w, _) => s.At(t, WaitSleeping(w, true))
    case _ => s
  }

  function WithoutThread(l: seq<Tid>, t: Tid): (r: seq<Tid>)
  {
    if l == [] then [] else if l[0] == t then l[1..] else [l[0]] + WithoutThread(l[1..], t)
  }

  function Apply(s: State, t: Tid, a: Action): (r: State)
    requires Enabled(s, t, a)
  {
    match a
    case BeginWait(w) => s.At(t, WaitAcquire(w))
    case BeginStore(addr, value, next) => s.At(t, StoreThen(addr, value, next))
    case BeginNotify(addr, all) => BeginNotifying(s, addr, all).At(t, NotifyAcquire(addr, all))
    case Wake(timedOut) => s.At(t, WaitRelock(s.PcOf(t).w, timedOut))
    case Go =>
      match s.PcOf(t)
      case WaitAcquire(w) => s.Lock(BucketFor(w.addr), t).At(t, WaitLink(w))
      case WaitLink(w) => Link(s, t, w)
      case WaitCheck(w) => s.At(t, if s.Read(w.addr) == w.cmp then WaitSleep(w) else WaitUnlink(w, true))
      case WaitSleep(w) => s.Unlock(BucketFor(w.addr)).At(t, WaitSleeping(w, false))
      case WaitRelock(w, timedOut) => s.Lock(BucketFor(w.addr), t).At(t, AfterSleep(w, timedOut))
      case WaitUnlink(w, result) => Unlink(s, t, w, result)
      case WaitUnlock(w, result) => s.Unlock(BucketFor(w.addr)).At(t, WaitReturned(w, result))
      case WaitReturned(_, _) => s.At(t, Idle)
      case StoreThen(addr, value, next) => Store(s, t, addr, value, next)
      case NotifyAcquire(addr, all) => s.Lock(BucketFor(addr), t).At(t, NotifyScan(addr, all, 0))
      case NotifyScan(addr, all, pos) => Scan(s, t, addr, all, pos)
      case NotifyUnlock(addr) => s.Unlock(BucketFor(addr)).At(t, Idle)
  }

  // The constructor of _Guarded_wait_context: in at the tail.
  function Link(s: State, t: Tid, w: Wait): (r: State)
  {
    var b := BucketFor(w.addr);
    s.(lists := s.lists[b := s.WaitList(b) + [t]], tickets := s.tickets + 1).At(t, WaitCheck(w.(ticket := s.tickets)))
  }

  // Its destructor.
  function Unlink(s: State, t: Tid, w: Wait, result: bool): (r: State)
  {
    var b := BucketFor(w.addr);
    s.(lists := s.lists[b := WithoutThread(s.WaitList(b), t)]).At(t, WaitUnlock(w, result))
  }

  // A timed wait returns after every wake, to let the caller look at the clock.
  function AfterSleep(w: Wait, timedOut: bool): (pc: Pc)
  {
    if timedOut then WaitUnlink(w, false) else if w.timed then WaitUnlink(w, true) else WaitCheck(w)
  }

  // From here on every waiter of the address has a notify_all on its way.
  function BeginNotifying(s: State, addr: Addr, all: bool): (r: State)
  {
    if all then s.(unannounced := s.unannounced - {addr}) else s
  }

  function Store(s: State, t: Tid, addr: Addr, value: int, next: Followup): (r: State)
  {
    var stored := s.(memory := s.memory[addr := value]);
    match next
    case All => BeginNotifying(stored, addr, true).At(t, NotifyAcquire(addr, true))
    case One => stored.(unannounced := s.unannounced + {addr}).At(t, NotifyAcquire(addr, false))
    case Nothing => stored.(unannounced := s.unannounced + {addr}).At(t, Idle)
  }

  // One turn of the loop in notify_one and notify_all.
  function Scan(s: State, t: Tid, addr: Addr, all: bool, pos: nat): (r: State)
  {
    var l := s.WaitList(BucketFor(addr));
    if pos >= |l| then s.At(t, NotifyUnlock(addr))
    else
      var pc := s.PcOf(l[pos]);
      if pc.Linked() && pc.Target() == addr then
        Signalled(s, l[pos]).At(t, if all then NotifyScan(addr, all, pos + 1) else NotifyUnlock(addr))
      else s.At(t, NotifyScan(addr, all, pos + 1))
  }

  ghost predicate Next(s: State, s': State)
  {
    exists t: Tid, a: Action :: Enabled(s, t, a) && s' == Apply(s, t, a)
  }

  predicate Init(s: State)
  {
    s.locks == map[] && s.lists == map[] && s.threads == map[]
  }

  ghost predicate IsRun(run: seq<State>)
  {
    && |run| > 0 && Init(run[0])
    && forall k: nat :: k + 1 < |run| ==> Next(run[k], run[k + 1])
  }

  // --- what every step keeps ---

  // The lock of a bucket is held by exactly the thread whose code holds it.
  ghost predicate LocksAgree(s: State)
  {
    && (forall b: Bucket :: b in s.locks ==> Holds(s, s.locks[b], b))
    && (forall t: Tid, b: Bucket :: Holds(s, t, b) ==> b in s.locks && s.locks[b] == t)
  }

  predicate Holds(s: State, t: Tid, b: Bucket)
  {
    s.PcOf(t).HoldsLock() && BucketFor(s.PcOf(t).Target()) == b
  }

  // The list of a bucket holds exactly the waiters inside the wait function, in
  // order of arrival (which also makes them distinct).
  ghost predicate ListsAgree(s: State)
  {
    && (forall t: Tid :: s.PcOf(t).Linked() ==> t in s.WaitList(BucketFor(s.PcOf(t).Target())))
    && (forall b: Bucket, k: nat :: k < |s.WaitList(b)| ==> InList(s, s.WaitList(b)[k], b))
    && (forall b: Bucket, j: nat, k: nat :: j < k < |s.WaitList(b)| ==> Earlier(s, s.WaitList(b)[j], s.WaitList(b)[k]))
  }

  predicate InList(s: State, t: Tid, b: Bucket)
  {
    var pc := s.PcOf(t);
    pc.Linked() && BucketFor(pc.Target()) == b && pc.w.ticket < s.tickets
  }

  predicate Earlier(s: State, t: Tid, u: Tid)
  {
    s.PcOf(t).Linked() && s.PcOf(u).Linked() && s.PcOf(t).w.ticket < s.PcOf(u).w.ticket
  }

  // Thread n is in a notify_all of the waiter's address and has not passed it.
  predicate Pending(s: State, n: Tid, t: Tid)
  {
    s.PcOf(t).AtRisk() &&
    var addr := s.PcOf(t).w.addr;
    match s.PcOf(n)
    case NotifyAcquire(a, all) => a == addr && all
    case NotifyScan(a, all, pos) => a == addr && all && InRest(s.WaitList(BucketFor(addr)), pos, t)
    case _ => false
  }

  predicate InRest(l: seq<Tid>, pos: nat, t: Tid)
  {
    exists k :: pos <= k < |l| && l[k] == t
  }

  // A waiter about to sleep for good still has its value, or somebody will come.
  ghost predicate Covered(s: State, t: Tid)
  {
    s.PcOf(t).AtRisk() ==>
      var w := s.PcOf(t).w;
      w.addr in s.unannounced || s.Read(w.addr) == w.cmp || exists n: Tid :: Pending(s, n, t)
  }

  ghost predicate NoLostWake(s: State)
  {
    forall t: Tid :: Covered(s, t)
  }

  ghost predicate Inv(s: State)
  {
    LocksAgree(s) && ListsAgree(s) && NoLostWake(s)
  }

  lemma InitInv(s: State)
    requires Init(s)
    ensures Inv(s)
  {
    hide BucketFor;
  }

  // --- locks ---

  predicate SameHold(pc: Pc, pc': Pc)
  {
    pc.HoldsLock() == pc'.HoldsLock() && (pc.HoldsLock() ==> pc.Target() == pc'.Target())
  }

  lemma PcMoved(s: State, r: State, t: Tid, pc: Pc)
    requires r.threads == s.threads[t := pc]
    ensures forall u: Tid :: r.PcOf(u) == if u == t then pc else s.PcOf(u)
  {
  }

  lemma HoldsMoved(s: State, r: State, t: Tid, pc: Pc)
    requires r.threads == s.threads[t := pc]
    ensures forall u: Tid, b: Bucket :: u != t ==> Holds(r, u, b) == Holds(s, u, b)
    ensures forall b: Bucket :: Holds(r, t, b) == (pc.HoldsLock() && BucketFor(pc.Target()) == b)
  {
    hide BucketFor, Pc.Target, Pc.HoldsLock;
  }

  lemma LocksUnchanged(s: State, r: State, t: Tid, pc: Pc)
    requires LocksAgree(s) && r.locks == s.locks && r.threads == s.threads[t := pc]
    requires SameHold(s.PcOf(t), pc)
    ensures LocksAgree(r)
  {
    HoldsMoved(s, r, t, pc);
    assert forall b: Bucket :: Holds(r, t, b) == Holds(s, t, b) by { hide BucketFor, Pc.Target, Pc.HoldsLock; }
    hide Holds;
  }

  lemma LocksAcquired(s: State, r: State, t: Tid, pc: Pc, b: Bucket)
    requires LocksAgree(s) && b !in s.locks && r.locks == s.locks[b := t] && r.threads == s.threads[t := pc]
    requires !s.PcOf(t).HoldsLock() && pc.HoldsLock() && BucketFor(pc.Target()) == b
    ensures LocksAgree(r)
  {
    HoldsMoved(s, r, t, pc);
    assert forall c: Bucket :: !Holds(s, t, c) && Holds(r, t, c) == (c == b) by {
      hide BucketFor, Pc.Target, Pc.HoldsLock;
    }
    hide Holds, Pc.HoldsLock, Pc.Target, BucketFor, LocksAgree;
    Acquired(s, r, t, b);
  }

  lemma Acquired(s: State, r: State, t: Tid, b: Bucket)
    requires LocksAgree(s) && b !in s.locks
    requires forall c: Bucket :: c in r.locks <==> c in s.locks || c == b
    requires forall c: Bucket :: c in r.locks ==> r.locks[c] == if c == b then t else s.locks[c]
    requires forall u: Tid, c: Bucket :: Holds(r, u, c) <==> Holds(s, u, c) || (u == t && c == b)
    ensures LocksAgree(r)
  {
    hide Holds;
  }

  lemma LocksReleased(s: State, r: State, t: Tid, pc: Pc, b: Bucket)
    requires LocksAgree(s) && r.locks == s.locks - {b} && r.threads == s.threads[t := pc]
    requires s.PcOf(t).HoldsLock() && BucketFor(s.PcOf(t).Target()) == b && !pc.HoldsLock()
    ensures LocksAgree(r)
  {
    HoldsMoved(s, r, t, pc);
    assert forall c: Bucket :: !Holds(r, t, c) && Holds(s, t, c) == (c == b) by {
      hide BucketFor, Pc.Target, Pc.HoldsLock;
    }
    hide Holds, Pc.HoldsLock, Pc.Target, BucketFor, LocksAgree;
    Released(s, r, t, b);
  }

  lemma Released(s: State, r: State, t: Tid, b: Bucket)
    requires LocksAgree(s)
    requires forall c: Bucket :: c in r.locks <==> c in s.locks && c != b
    requires forall c: Bucket :: c in r.locks ==> r.locks[c] == s.locks[c]
    requires forall u: Tid, c: Bucket :: Holds(r, u, c) <==> Holds(s, u, c) && u != t
    requires forall c: Bucket :: Holds(s, t, c) <==> c == b
    ensures LocksAgree(r)
  {
    hide Holds;
    assert Holds(s, t, b);
  }

  predicate Acquiring(s: State, t: Tid, a: Action)
  {
    a.Go? && (s.PcOf(t).WaitAcquire? || s.PcOf(t).WaitRelock? || s.PcOf(t).NotifyAcquire?)
  }

  predicate Releasing(s: State, t: Tid, a: Action)
  {
    a.Go? && (s.PcOf(t).WaitSleep? || s.PcOf(t).WaitUnlock? || s.PcOf(t).NotifyUnlock?)
  }

  predicate Scanning(s: State, t: Tid, a: Action)
  {
    a.Go? && s.PcOf(t).NotifyScan?
  }

  lemma AcquireLocks(s: State, t: Tid, a: Action)
    requires LocksAgree(s) && Enabled(s, t, a) && Acquiring(s, t, a)
    ensures LocksAgree(Apply(s, t, a))
  {
    hide BucketFor, LocksAgree;
    var pc, r := s.PcOf(t), Apply(s, t, a);
    LocksAcquired(s, r, t, r.PcOf(t), BucketFor(if pc.NotifyAcquire? then pc.addr else pc.w.addr));
  }

  lemma ReleaseLocks(s: State, t: Tid, a: Action)
    requires LocksAgree(s) && Enabled(s, t, a) && Releasing(s, t, a)
    ensures LocksAgree(Apply(s, t, a))
  {
    hide BucketFor, LocksAgree;
    var r := Apply(s, t, a);
    LocksReleased(s, r, t, r.PcOf(t), BucketFor(s.PcOf(t).Target()));
  }

  // A scan step is at most one wake followed by a step of the notifier.
  function ScanWake(s: State, addr: Addr, pos: nat): (r: State)
  {
    var l := s.WaitList(BucketFor(addr));
    if pos < |l| && s.PcOf(l[pos]).Linked() && s.PcOf(l[pos]).Target() == addr then Signalled(s, l[pos]) else s
  }

  function ScanNext(s: State, addr: Addr, all: bool, pos: nat): (pc: Pc)
  {
    var l := s.WaitList(BucketFor(addr));
    if pos >= |l| || (s.PcOf(l[pos]).Linked() && s.PcOf(l[pos]).Target() == addr && !all) then NotifyUnlock(addr)
    else NotifyScan(addr, all, pos + 1)
  }

  lemma ScanInTwo(s: State, t: Tid, addr: Addr, all: bool, pos: nat)
    ensures Scan(s, t, addr, all, pos) == ScanWake(s, addr, pos).At(t, ScanNext(s, addr, all, pos))
  {
    hide BucketFor, State.WaitList;
  }

  lemma ScanLocks(s: State, t: Tid, addr: Addr, all: bool, pos: nat)
    requires LocksAgree(s) && s.PcOf(t) == NotifyScan(addr, all, pos)
    ensures LocksAgree(Scan(s, t, addr, all, pos))
  {
    hide BucketFor, LocksAgree, State.WaitList, Scan;
    var l, w := s.WaitList(BucketFor(addr)), ScanWake(s, addr, pos);
    ScanInTwo(s, t, addr, all, pos);
    if w != s {
      LocksUnchanged(s, w, l[pos], w.PcOf(l[pos]));
    }
    LocksUnchanged(w, Scan(s, t, addr, all, pos), t, ScanNext(s, addr, all, pos));
  }

  // All other steps move one thread and touch no lock.
  lemma OtherStep(s: State, t: Tid, a: Action)
    requires Enabled(s, t, a) && !Acquiring(s, t, a) && !Releasing(s, t, a) && !Scanning(s, t, a)
    ensures var r := Apply(s, t, a);
            r.locks == s.locks && r.threads == s.threads[t := r.PcOf(t)] && SameHold(s.PcOf(t), r.PcOf(t))
  {
    hide BucketFor, State.WaitList, State.Read, WithoutThread, Scan, Link, Unlink, Store;
    match a {
      case Go =>
        match s.PcOf(t) {
          case WaitLink(w) => LinkMoves(s, t, w);
          case WaitUnlink(w, result) => UnlinkMoves(s, t, w, result);
          case StoreThen(addr, value, next) => StoreMoves(s, t, addr, value, next);
          case _ =>
        }
      case _ =>
    }
  }

  lemma LinkMoves(s: State, t: Tid, w: Wait)
    ensures Link(s, t, w).locks == s.locks
    ensures Link(s, t, w).threads == s.threads[t := WaitCheck(w.(ticket := s.tickets))]
  {
    hide BucketFor, State.WaitList;
  }

  lemma UnlinkMoves(s: State, t: Tid, w: Wait, result: bool)
    ensures var r := Unlink(s, t, w, result); r.locks == s.locks && r.threads == s.threads[t := WaitUnlock(w, result)]
  {
    hide BucketFor, State.WaitList, WithoutThread;
  }

  lemma StoreMoves(s: State, t: Tid, addr: Addr, value: int, next: Followup)
    ensures var r := Store(s, t, addr, value, next);
            && r.locks == s.locks && r.lists == s.lists && r.tickets == s.tickets
            && r.threads == s.threads[t := if next.Nothing? then Idle else NotifyAcquire(addr, next.All?)]
  {
  }

  lemma OtherLocks(s: State, t: Tid, a: Action)
    requires LocksAgree(s) && Enabled(s, t, a) && !Acquiring(s, t, a) && !Releasing(s, t, a) && !Scanning(s, t, a)
    ensures LocksAgree(Apply(s, t, a))
  {
    hide BucketFor, State.WaitList, State.Read, WithoutThread, LocksAgree, Scan;
    var r := Apply(s, t, a);
    OtherStep(s, t, a);
    hide Apply, Enabled;
    LocksUnchanged(s, r, t, r.PcOf(t));
  }

  lemma StepLocks(s: State, t: Tid, a: Action)
    requires LocksAgree(s) && Enabled(s, t, a)
    ensures LocksAgree(Apply(s, t, a))
  {
    if Acquiring(s, t, a) {
      AcquireLocks(s, t, a);
    } else if Releasing(s, t, a) {
      ReleaseLocks(s, t, a);
    } else if Scanning(s, t, a) {
      var pc := s.PcOf(t);
      ScanLocks(s, t, pc.addr, pc.all, pc.pos);
    } else {
      OtherLocks(s, t, a);
    }
  }

  // --- lists ---

  predicate SameLink(pc: Pc, pc': Pc)
  {
    pc.Linked() == pc'.Linked() && (pc.Linked() ==> pc.w == pc'.w)
  }

  // Everything in the lists of r was in a list of s and has kept its context.
  lemma ListsKept(s: State, r: State)
    requires ListsAgree(s) && r.lists == s.lists && r.tickets == s.tickets
    requires forall x: Tid :: SameLink(s.PcOf(x), r.PcOf(x))
    ensures ListsAgree(r)
  {
    assert forall b: Bucket :: r.WaitList(b) == s.WaitList(b);
    hide BucketFor, State.WaitList, State.PcOf;
    forall x: Tid | r.PcOf(x).Linked()
      ensures x in r.WaitList(BucketFor(r.PcOf(x).Target()))
    {
      assert SameLink(s.PcOf(x), r.PcOf(x));
      LinkedTarget(s.PcOf(x));
      LinkedTarget(r.PcOf(x));
    }
    forall b: Bucket, k: nat | k < |r.WaitList(b)|
      ensures InList(r, r.WaitList(b)[k], b)
    {
      var x := s.WaitList(b)[k];
      assert InList(s, x, b) && SameLink(s.PcOf(x), r.PcOf(x));
      LinkedTarget(s.PcOf(x));
      LinkedTarget(r.PcOf(x));
    }
    forall b: Bucket, j: nat, k: nat | j < k < |r.WaitList(b)|
      ensures Earlier(r, r.WaitList(b)[j], r.WaitList(b)[k])
    {
      var x, y := s.WaitList(b)[j], s.WaitList(b)[k];
      assert Earlier(s, x, y) && SameLink(s.PcOf(x), r.PcOf(x)) && SameLink(s.PcOf(y), r.PcOf(y));
    }
  }

  lemma LinkedTarget(pc: Pc)
    ensures pc.Linked() ==> pc.Target() == pc.w.addr
  {
  }

  lemma ListsUnchanged(s: State, r: State, t: Tid, pc: Pc)
    requires ListsAgree(s) && r.lists == s.lists && r.tickets == s.tickets && r.threads == s.threads[t := pc]
    requires SameLink(s.PcOf(t), pc)
    ensures ListsAgree(r)
  {
    hide ListsAgree;
    PcMoved(s, r, t, pc);
    ListsKept(s, r);
  }

  lemma ScanLists(s: State, t: Tid, addr: Addr, all: bool, pos: nat)
    requires ListsAgree(s) && s.PcOf(t) == NotifyScan(addr, all, pos)
    ensures ListsAgree(Scan(s, t, addr, all, pos))
  {
    hide BucketFor, ListsAgree, State.WaitList, Scan;
    var l, w := s.WaitList(BucketFor(addr)), ScanWake(s, addr, pos);
    ScanInTwo(s, t, addr, all, pos);
    if w != s {
      ListsUnchanged(s, w, l[pos], w.PcOf(l[pos]));
    }
    ListsUnchanged(w, Scan(s, t, addr, all, pos), t, ScanNext(s, addr, all, pos));
  }

  lemma StillInList(s: State, r: State, x: Tid, b: Bucket)
    requires InList(s, x, b) && r.PcOf(x) == s.PcOf(x) && s.tickets <= r.tickets
    ensures InList(r, x, b)
  {
  }

  lemma StillEarlier(s: State, r: State, x: Tid, y: Tid)
    requires Earlier(s, x, y) && r.PcOf(x) == s.PcOf(x) && r.PcOf(y) == s.PcOf(y)
    ensures Earlier(r, x, y)
  {
  }

  // A context enters at the tail with the newest ticket.
  lemma LinkLists(s: State, t: Tid, w: Wait)
    requires ListsAgree(s) && s.PcOf(t) == WaitLink(w)
    ensures ListsAgree(Link(s, t, w))
  {
    hide BucketFor, ListsAgree;
    var r := Link(s, t, w);
    PcMoved(s, r, t, r.PcOf(t));
    Appended(s, r, t, BucketFor(w.addr));
  }

  lemma Appended(s: State, r: State, t: Tid, b: Bucket)
    requires ListsAgree(s) && r.tickets == s.tickets + 1
    requires InList(r, t, b) && r.PcOf(t).w.ticket == s.tickets && !s.PcOf(t).Linked()
    requires forall x: Tid :: x != t ==> r.PcOf(x) == s.PcOf(x)
    requires forall c: Bucket :: r.WaitList(c) == if c == b then s.WaitList(b) + [t] else s.WaitList(c)
    ensures ListsAgree(r)
  {
    hide BucketFor, State.WaitList, State.PcOf, Pc.Target, Pc.Linked;
    forall x: Tid | r.PcOf(x).Linked()
      ensures x in r.WaitList(BucketFor(r.PcOf(x).Target()))
    {
    }
    forall c: Bucket, k: nat | k < |r.WaitList(c)|
      ensures InList(r, r.WaitList(c)[k], c)
    {
      if k < |s.WaitList(c)| {
        assert InList(s, s.WaitList(c)[k], c);
        StillInList(s, r, s.WaitList(c)[k], c);
      }
    }
    forall c: Bucket, j: nat, k: nat | j < k < |r.WaitList(c)|
      ensures Earlier(r, r.WaitList(c)[j], r.WaitList(c)[k])
    {
      assert InList(s, s.WaitList(c)[j], c);
      if k < |s.WaitList(c)| {
        assert InList(s, s.WaitList(c)[k], c);
        StillEarlier(s, r, s.WaitList(c)[j], s.WaitList(c)[k]);
      }
    }
  }

  lemma {:induction false} WithoutThreadAt(l: seq<Tid>, t: Tid) returns (k: nat)
    requires t in l
    ensures k < |l| && l[k] == t && WithoutThread(l, t) == l[..k] + l[k + 1..]
  {
    if l[0] == t {
      k := 0;
    } else {
      k := WithoutThreadAt(l[1..], t);
      k := k + 1;
    }
  }

  // A context leaves; nobody else is affected.
  lemma UnlinkLists(s: State, t: Tid, w: Wait, result: bool)
    requires ListsAgree(s) && s.PcOf(t) == WaitUnlink(w, result)
    ensures ListsAgree(Unlink(s, t, w, result))
  {
    hide BucketFor, WithoutThread;
    var r, b := Unlink(s, t, w, result), BucketFor(w.addr);
    var i := WithoutThreadAt(s.WaitList(b), t);
    PcMoved(s, r, t, r.PcOf(t));
    RemovedAt(s, r, t, b, i);
  }

  // The lists of r are those of s with the entry of t at position i of bucket b gone.
  lemma RemovedAt(s: State, r: State, t: Tid, b: Bucket, i: nat)
    requires ListsAgree(s) && r.tickets == s.tickets
    requires i < |s.WaitList(b)| && s.WaitList(b)[i] == t && !r.PcOf(t).Linked()
    requires forall x: Tid :: x != t ==> r.PcOf(x) == s.PcOf(x)
    requires forall c: Bucket ::
               r.WaitList(c) == if c == b then s.WaitList(b)[..i] + s.WaitList(b)[i + 1..] else s.WaitList(c)
    ensures ListsAgree(r)
  {
    hide BucketFor, State.WaitList, State.PcOf, Pc.Target, Pc.Linked;
    forall x: Tid | r.PcOf(x).Linked()
      ensures x in r.WaitList(BucketFor(r.PcOf(x).Target()))
    {
      assert x in s.WaitList(BucketFor(s.PcOf(x).Target()));
    }
    forall c: Bucket, k: nat | k < |r.WaitList(c)|
      ensures InList(r, r.WaitList(c)[k], c)
    {
      var k' := OldIndex(s, r, t, b, i, c, k);
      StillInList(s, r, s.WaitList(c)[k'], c);
    }
    forall c: Bucket, j: nat, k: nat | j < k < |r.WaitList(c)|
      ensures Earlier(r, r.WaitList(c)[j], r.WaitList(c)[k])
    {
      var j' := OldIndex(s, r, t, b, i, c, j);
      var k' := OldIndex(s, r, t, b, i, c, k);
      assert j' < k';
      StillEarlier(s, r, s.WaitList(c)[j'], s.WaitList(c)[k']);
    }
  }

  lemma OldIndex(s: State, r: State, t: Tid, b: Bucket, i: nat, c: Bucket, k: nat) returns (k': nat)
    requires ListsAgree(s) && i < |s.WaitList(b)| && s.WaitList(b)[i] == t && k < |r.WaitList(c)|
    requires r.WaitList(c) == if c == b then s.WaitList(b)[..i] + s.WaitList(b)[i + 1..] else s.WaitList(c)
    ensures k' == if c == b && k >= i then k + 1 else k
    ensures k' < |s.WaitList(c)| && s.WaitList(c)[k'] == r.WaitList(c)[k] && s.WaitList(c)[k'] != t
    ensures InList(s, s.WaitList(c)[k'], c)
  {
    hide BucketFor, State.WaitList, State.PcOf, Pc.Target, Pc.Linked;
    k' := if c == b && k >= i then k + 1 else k;
    assert InList(s, s.WaitList(c)[k'], c) && InList(s, t, b);
    if c == b {
      if k' < i {
        assert Earlier(s, s.WaitList(b)[k'], s.WaitList(b)[i]);
      } else {
        assert Earlier(s, s.WaitList(b)[i], s.WaitList(b)[k']);
      }
    }
  }

  lemma OtherLists(s: State, t: Tid, a: Action)
    requires Enabled(s, t, a) && !Scanning(s, t, a) && !(a.Go? && (s.PcOf(t).WaitLink? || s.PcOf(t).WaitUnlink?))
    ensures var r := Apply(s, t, a);
            && r.lists == s.lists && r.tickets == s.tickets
            && r.threads == s.threads[t := r.PcOf(t)] && SameLink(s.PcOf(t), r.PcOf(t))
  {
    hide BucketFor, State.WaitList, State.Read, WithoutThread, Scan, Link, Unlink, Store;
    match a {
      case Go =>
        match s.PcOf(t) {
          case StoreThen(addr, value, next) => StoreMoves(s, t, addr, value, next);
          case _ =>
        }
      case _ =>
    }
  }

  lemma StepLists(s: State, t: Tid, a: Action)
    requires ListsAgree(s) && Enabled(s, t, a)
    ensures ListsAgree(Apply(s, t, a))
  {
    hide BucketFor, State.WaitList, ListsAgree, Scan, Link, Unlink, Store;
    var r, pc := Apply(s, t, a), s.PcOf(t);
    if Scanning(s, t, a) {
      ScanLists(s, t, pc.addr, pc.all, pc.pos);
    } else if a.Go? && pc.WaitLink? {
      LinkLists(s, t, pc.w);
    } else if a.Go? && pc.WaitUnlink? {
      UnlinkLists(s, t, pc.w, pc.result);
    } else {
      OtherLists(s, t, a);
      hide Apply, Enabled;
      ListsUnchanged(s, r, t, r.PcOf(t));
    }
  }

  // --- wakes ---

  // A notifier still to come stays so while neither thread moves and its list stands.
  lemma PendingKept(s: State, r: State, n: Tid, x: Tid)
    requires Pending(s, n, x) && r.PcOf(n) == s.PcOf(n) && r.PcOf(x).AtRisk() && r.PcOf(x).w == s.PcOf(x).w
    requires s.PcOf(n).NotifyScan? ==> r.WaitList(BucketFor(s.PcOf(n).addr)) == s.WaitList(BucketFor(s.PcOf(n).addr))
    ensures Pending(r, n, x)
  {
    hide BucketFor, State.WaitList, State.PcOf;
  }

  // A thread that holds the lock of a bucket keeps every scanner out of it.
  lemma NoScanner(s: State, t: Tid, n: Tid, b: Bucket)
    requires LocksAgree(s) && Holds(s, t, b) && n != t
    ensures s.PcOf(n).NotifyScan? ==> BucketFor(s.PcOf(n).addr) != b
  {
    hide BucketFor;
    assert !Holds(s, n, b);
  }

  // Steps that leave memory alone and move only t, from no notification.
  lemma CoveredByOthers(s: State, r: State, t: Tid, x: Tid)
    requires Covered(s, x) && r.memory == s.memory && r.unannounced == s.unannounced
    requires forall u: Tid :: u != t ==> r.PcOf(u) == s.PcOf(u)
    requires r.PcOf(x).AtRisk() ==> s.PcOf(x).AtRisk() && r.PcOf(x).w == s.PcOf(x).w
    requires !s.PcOf(t).NotifyAcquire? && !s.PcOf(t).NotifyScan?
    requires forall n: Tid :: n != t && s.PcOf(n).NotifyScan? ==>
               r.WaitList(BucketFor(s.PcOf(n).addr)) == s.WaitList(BucketFor(s.PcOf(n).addr))
    ensures Covered(r, x)
  {
    hide BucketFor, State.WaitList, State.PcOf;
    if r.PcOf(x).AtRisk() && exists n: Tid :: Pending(s, n, x) {
      var n: Tid :| Pending(s, n, x);
      assert n != t;
      PendingKept(s, r, n, x);
    }
  }

  lemma StoreCovered(s: State, t: Tid, addr: Addr, value: int, next: Followup, x: Tid)
    requires Covered(s, x) && s.PcOf(t) == StoreThen(addr, value, next)
    ensures Covered(Store(s, t, addr, value, next), x)
  {
    hide BucketFor;
    var r := Store(s, t, addr, value, next);
    StoreMoves(s, t, addr, value, next);
    PcMoved(s, r, t, r.PcOf(t));
    if r.PcOf(x).AtRisk() {
      if s.PcOf(x).w.addr == addr {
        assert next.All? ==> Pending(r, t, x);
      } else if exists n: Tid :: Pending(s, n, x) {
        var n: Tid :| Pending(s, n, x);
        PendingKept(s, r, n, x);
      }
    }
  }

  // Calling notify_all puts everybody at risk on the address in its way.
  lemma BeginNotifyCovered(s: State, t: Tid, addr: Addr, all: bool, x: Tid)
    requires Covered(s, x) && s.PcOf(t).Idle?
    ensures Covered(BeginNotifying(s, addr, all).At(t, NotifyAcquire(addr, all)), x)
  {
    hide BucketFor;
    var r := BeginNotifying(s, addr, all).At(t, NotifyAcquire(addr, all));
    PcMoved(s, r, t, NotifyAcquire(addr, all));
    if r.PcOf(x).AtRisk() {
      if all && s.PcOf(x).w.addr == addr {
        assert Pending(r, t, x);
      } else if exists n: Tid :: Pending(s, n, x) {
        var n: Tid :| Pending(s, n, x);
        PendingKept(s, r, n, x);
      }
    }
  }

  // Taking the lock starts the scan in front of the whole list.
  lemma NotifyAcquireCovered(s: State, t: Tid, addr: Addr, all: bool, x: Tid)
    requires Covered(s, x) && ListsAgree(s) && s.PcOf(t) == NotifyAcquire(addr, all)
    ensures Covered(s.Lock(BucketFor(addr), t).At(t, NotifyScan(addr, all, 0)), x)
  {
    hide BucketFor;
    var r := s.Lock(BucketFor(addr), t).At(t, NotifyScan(addr, all, 0));
    PcMoved(s, r, t, NotifyScan(addr, all, 0));
    if r.PcOf(x).AtRisk() && exists n: Tid :: Pending(s, n, x) {
      var n: Tid :| Pending(s, n, x);
      if n == t {
        assert x in s.WaitList(BucketFor(addr));
        assert InRest(r.WaitList(BucketFor(addr)), 0, x);
        assert Pending(r, t, x);
      } else {
        PendingKept(s, r, n, x);
      }
    }
  }

  // Passing a waiter of the address wakes it: it is asleep, since it would need
  // the lock to be anywhere else in the list and still at risk.
  lemma PassingWakes(s: State, t: Tid, addr: Addr, all: bool, pos: nat, x: Tid)
    requires LocksAgree(s) && s.PcOf(t) == NotifyScan(addr, all, pos) && s.PcOf(x).AtRisk() && s.PcOf(x).w.addr == addr
    requires pos < |s.WaitList(BucketFor(addr))| && s.WaitList(BucketFor(addr))[pos] == x
    ensures !Scan(s, t, addr, all, pos).PcOf(x).AtRisk()
  {
    hide BucketFor, State.WaitList;
    assert Holds(s, t, BucketFor(addr));
    assert !Holds(s, x, BucketFor(addr));
  }

  lemma ScanMoves(s: State, t: Tid, addr: Addr, all: bool, pos: nat, u: Tid)
    requires s.PcOf(t) == NotifyScan(addr, all, pos)
    ensures var r := Scan(s, t, addr, all, pos);
            && r.memory == s.memory && r.unannounced == s.unannounced && r.lists == s.lists
            && (u != t && r.PcOf(u) != s.PcOf(u) ==>
                  s.PcOf(u).WaitSleeping? && r.PcOf(u) == WaitSleeping(s.PcOf(u).w, true))
            && r.PcOf(t) == ScanNext(s, addr, all, pos)
  {
    hide BucketFor, State.WaitList, Scan;
    ScanInTwo(s, t, addr, all, pos);
  }

  lemma ScanCovered(s: State, t: Tid, addr: Addr, all: bool, pos: nat, x: Tid)
    requires Covered(s, x) && LocksAgree(s) && s.PcOf(t) == NotifyScan(addr, all, pos)
    ensures Covered(Scan(s, t, addr, all, pos), x)
  {
    var r := Scan(s, t, addr, all, pos);
    ScanMoves(s, t, addr, all, pos, x);
    hide BucketFor, Scan, State.PcOf, LocksAgree, State.WaitList, ScanNext;
    if r.PcOf(x).AtRisk() && exists n: Tid :: Pending(s, n, x) {
      var n: Tid :| Pending(s, n, x);
      if n == t {
        OwnScanPending(s, t, addr, all, pos, x);
      } else {
        ScanMoves(s, t, addr, all, pos, n);
        PendingKept(s, r, n, x);
      }
    }
  }

  lemma OwnScanPending(s: State, t: Tid, addr: Addr, all: bool, pos: nat, x: Tid)
    requires LocksAgree(s) && s.PcOf(t) == NotifyScan(addr, all, pos) && Pending(s, t, x)
    requires Scan(s, t, addr, all, pos).PcOf(x).AtRisk()
    ensures Pending(Scan(s, t, addr, all, pos), t, x)
  {
    var r, l := Scan(s, t, addr, all, pos), s.WaitList(BucketFor(addr));
    ScanMoves(s, t, addr, all, pos, x);
    hide BucketFor, Scan, State.PcOf, LocksAgree;
    var k :| pos <= k < |l| && l[k] == x;
    if k == pos {
      PassingWakes(s, t, addr, all, pos, x);
    }
    assert InRest(r.WaitList(BucketFor(addr)), pos + 1, x);
  }

  // A waiter goes to sleep only after finding its value, with the lock held.
  lemma CheckCovered(s: State, t: Tid, w: Wait, x: Tid)
    requires Covered(s, x) && s.PcOf(t) == WaitCheck(w)
    ensures Covered(s.At(t, if s.Read(w.addr) == w.cmp then WaitSleep(w) else WaitUnlink(w, true)), x)
  {
    hide BucketFor;
    var r := s.At(t, if s.Read(w.addr) == w.cmp then WaitSleep(w) else WaitUnlink(w, true));
    PcMoved(s, r, t, r.PcOf(t));
    if x != t {
      CoveredByOthers(s, r, t, x);
    }
  }

  // Entering or leaving the list of a bucket nobody else can be scanning.
  lemma RelinkCovered(s: State, r: State, t: Tid, b: Bucket, x: Tid)
    requires Covered(s, x) && LocksAgree(s) && Holds(s, t, b) && r.memory == s.memory && r.unannounced == s.unannounced
    requires s.PcOf(t).WaitLink? || s.PcOf(t).WaitUnlink?
    requires !r.PcOf(t).AtRisk() && forall u: Tid :: u != t ==> r.PcOf(u) == s.PcOf(u)
    requires forall c: Bucket :: c != b ==> r.WaitList(c) == s.WaitList(c)
    ensures Covered(r, x)
  {
    hide BucketFor, State.WaitList, State.PcOf, LocksAgree, Covered, Holds;
    forall n: Tid | n != t && s.PcOf(n).NotifyScan?
      ensures r.WaitList(BucketFor(s.PcOf(n).addr)) == s.WaitList(BucketFor(s.PcOf(n).addr))
    {
      NoScanner(s, t, n, b);
    }
    CoveredByOthers(s, r, t, x);
  }

  lemma LinkCovered(s: State, t: Tid, w: Wait, x: Tid)
    requires Covered(s, x) && LocksAgree(s) && s.PcOf(t) == WaitLink(w)
    ensures Covered(Link(s, t, w), x)
  {
    hide BucketFor, Covered, LocksAgree;
    var r := Link(s, t, w);
    PcMoved(s, r, t, r.PcOf(t));
    RelinkCovered(s, r, t, BucketFor(w.addr), x);
  }

  lemma UnlinkCovered(s: State, t: Tid, w: Wait, result: bool, x: Tid)
    requires Covered(s, x) && LocksAgree(s) && s.PcOf(t) == WaitUnlink(w, result)
    ensures Covered(Unlink(s, t, w, result), x)
  {
    hide BucketFor, Covered, LocksAgree, WithoutThread;
    var r := Unlink(s, t, w, result);
    PcMoved(s, r, t, r.PcOf(t));
    RelinkCovered(s, r, t, BucketFor(w.addr), x);
  }

  predicate SpecialForWakes(s: State, t: Tid, a: Action)
  {
    var pc := s.PcOf(t);
    || a.BeginNotify?
    || (a.Go? && (pc.WaitLink? || pc.WaitUnlink? || pc.WaitCheck?))
    || (a.Go? && (pc.StoreThen? || pc.NotifyAcquire? || pc.NotifyScan?))
  }

  // The remaining steps put nobody at risk and touch neither memory nor lists.
  lemma PlainStep(s: State, t: Tid, a: Action)
    requires Enabled(s, t, a) && !SpecialForWakes(s, t, a)
    ensures var r := Apply(s, t, a);
            && r.memory == s.memory && r.unannounced == s.unannounced && r.lists == s.lists
            && r.threads == s.threads[t := r.PcOf(t)]
            && (r.PcOf(t).AtRisk() ==> s.PcOf(t).AtRisk() && r.PcOf(t).w == s.PcOf(t).w)
  {
    hide BucketFor, State.WaitList, State.Read, WithoutThread, Scan, Link, Unlink, Store;
    match a {
      case Go =>
      case _ =>
    }
  }

  lemma PlainCovered(s: State, t: Tid, a: Action, x: Tid)
    requires Covered(s, x) && Enabled(s, t, a) && !SpecialForWakes(s, t, a)
    ensures Covered(Apply(s, t, a), x)
  {
    var r := Apply(s, t, a);
    PlainStep(s, t, a);
    PcMoved(s, r, t, r.PcOf(t));
    hide BucketFor, Apply, Enabled, Covered, State.PcOf;
    CoveredByOthers(s, r, t, x);
  }

  lemma StepCovered(s: State, t: Tid, a: Action, x: Tid)
    requires LocksAgree(s) && ListsAgree(s) && Covered(s, x) && Enabled(s, t, a)
    ensures Covered(Apply(s, t, a), x)
  {
    hide BucketFor, Covered, LocksAgree, ListsAgree, Scan, Link, Unlink, Store, State.Read;
    if a.BeginNotify? {
      BeginNotifyCovered(s, t, a.addr, a.all, x);
    } else if SpecialForWakes(s, t, a) {
      match s.PcOf(t) {
        case WaitLink(w) => LinkCovered(s, t, w, x);
        case WaitUnlink(w, result) => UnlinkCovered(s, t, w, result, x);
        case WaitCheck(w) => CheckCovered(s, t, w, x);
        case StoreThen(addr, value, next) => StoreCovered(s, t, addr, value, next, x);
        case NotifyAcquire(addr, all) => NotifyAcquireCovered(s, t, addr, all, x);
        case NotifyScan(addr, all, pos) => ScanCovered(s, t, addr, all, pos, x);
      }
    } else {
      PlainCovered(s, t, a, x);
    }
  }

  // Every atomic action of every thread keeps the invariant.
  lemma StepKeepsInv(s: State, t: Tid, a: Action)
    requires Inv(s) && Enabled(s, t, a)
    ensures Inv(Apply(s, t, a))
  {
    hide Apply, Enabled, Covered, LocksAgree, ListsAgree;
    StepLocks(s, t, a);
    StepLists(s, t, a);
    forall x: Tid
      ensures Covered(Apply(s, t, a), x)
    {
      assert Covered(s, x);
      StepCovered(s, t, a, x);
    }
  }

  // So it holds in every state of every run.
  lemma {:induction false} RunKeepsInv(run: seq<State>, k: nat)
    requires IsRun(run) && k < |run|
    ensures Inv(run[k])
  {
    hide Inv, Enabled, Apply, Init;
    if k == 0 {
      InitInv(run[0]);
    } else {
      RunKeepsInv(run, k - 1);
      assert Next(run[k - 1], run[k - 1 + 1]);
      var t: Tid, a: Action :| Enabled(run[k - 1], t, a) && run[k] == Apply(run[k - 1], t, a);
      StepKeepsInv(run[k - 1], t, a);
    }
  }

  // No lost wake: a waiter asleep without a wake still has the value it waits on,
  // unless a notify_all of its address is on the way to it, or the address was
  // stored to and no notify_all of it has begun since.
  lemma NoWakeIsLost(run: seq<State>, k: nat, t: Tid)
    requires IsRun(run) && k < |run|
    requires run[k].PcOf(t).WaitSleeping? && !run[k].PcOf(t).signalled
    ensures var s, w := run[k], run[k].PcOf(t).w;
            w.addr in s.unannounced || s.Read(w.addr) == w.cmp || exists n: Tid :: Pending(s, n, t)
  {
    hide IsRun, State.Read, Pending;
    RunKeepsInv(run, k);
    assert Covered(run[k], t);
  }

  // In particular none is, once all notifications of the address are through.
  lemma QuietMeansUnchanged(run: seq<State>, k: nat, t: Tid, addr: Addr)
    requires IsRun(run) && k < |run| && addr !in run[k].unannounced
    requires forall n: Tid ::
               !(run[k].PcOf(n).NotifyAcquire? || run[k].PcOf(n).NotifyScan?) || run[k].PcOf(n).addr != addr
    requires run[k].PcOf(t).WaitSleeping? && !run[k].PcOf(t).signalled && run[k].PcOf(t).w.addr == addr
    ensures run[k].Read(addr) == run[k].PcOf(t).w.cmp
  {
    hide IsRun, BucketFor, State.Read, InRest;
    NoWakeIsLost(run, k, t);
    if n: Tid :| Pending(run[k], n, t) {
    }
  }

  // No two threads are ever inside the same bucket's lock.
  lemma MutualExclusion(run: seq<State>, k: nat, t: Tid, u: Tid)
    requires IsRun(run) && k < |run| && run[k].PcOf(t).HoldsLock() && run[k].PcOf(u).HoldsLock()
    requires BucketFor(run[k].PcOf(t).Target()) == BucketFor(run[k].PcOf(u).Target())
    ensures t == u
  {
    hide IsRun, BucketFor, ListsAgree, NoLostWake;
    RunKeepsInv(run, k);
    var b := BucketFor(run[k].PcOf(t).Target());
    assert Holds(run[k], t, b) && Holds(run[k], u, b);
  }

  // The list of a bucket is exactly its waiters, each once, in order of arrival.
  lemma ListIsWaiters(run: seq<State>, k: nat, b: Bucket, t: Tid)
    requires IsRun(run) && k < |run|
    ensures t in run[k].WaitList(b) <==> run[k].PcOf(t).Linked() && BucketFor(run[k].PcOf(t).Target()) == b
    ensures forall i: nat, j: nat :: i < j < |run[k].WaitList(b)| ==>
              Earlier(run[k], run[k].WaitList(b)[i], run[k].WaitList(b)[j])
  {
    hide IsRun, BucketFor, LocksAgree, NoLostWake, State.WaitList, Earlier;
    RunKeepsInv(run, k);
    if t in run[k].WaitList(b) {
      var i: nat :| i < |run[k].WaitList(b)| && run[k].WaitList(b)[i] == t;
      assert InList(run[k], t, b);
    }
  }

  // A notifier stands on a context that is still linked, and wakes nobody who
  // waits on another address.
  lemma ScanVisitsLive(run: seq<State>, k: nat, t: Tid, u: Tid)
    requires IsRun(run) && k < |run| && run[k].PcOf(t).NotifyScan?
    ensures var s, addr, pos := run[k], run[k].PcOf(t).addr, run[k].PcOf(t).pos;
            && (pos < |s.WaitList(BucketFor(addr))| ==> s.PcOf(s.WaitList(BucketFor(addr))[pos]).Linked())
            && (u != t && Apply(s, t, Go).PcOf(u) != s.PcOf(u) ==>
                  && s.PcOf(u).WaitSleeping? && s.PcOf(u).w.addr == addr
                  && Apply(s, t, Go).PcOf(u) == WaitSleeping(s.PcOf(u).w, true))
  {
    hide IsRun, BucketFor, LocksAgree, NoLostWake, State.WaitList;
    RunKeepsInv(run, k);
    var s, addr, pos := run[k], run[k].PcOf(t).addr, run[k].PcOf(t).pos;
    if pos < |s.WaitList(BucketFor(addr))| {
      assert InList(s, s.WaitList(BucketFor(addr))[pos], BucketFor(addr));
    }
  }

  // A step of one thread changes another one only by waking it from its sleep.
  lemma OthersStay(s: State, u: Tid, a: Action, t: Tid)
    requires Enabled(s, u, a) && t != u
    ensures var r := Apply(s, u, a);
            r.PcOf(t) == s.PcOf(t) || (s.PcOf(t).WaitSleeping? && r.PcOf(t) == WaitSleeping(s.PcOf(t).w, true))
  {
    hide BucketFor, State.WaitList, State.Read, WithoutThread, Scan, Link, Unlink, Store;
    var pc := s.PcOf(u);
    if Scanning(s, u, a) {
      ScanMoves(s, u, pc.addr, pc.all, pc.pos, t);
    } else if a.Go? && pc.WaitLink? {
      LinkMoves(s, u, pc.w);
    } else if a.Go? && pc.WaitUnlink? {
      UnlinkMoves(s, u, pc.w, pc.result);
    } else {
      OtherLists(s, u, a);
      hide Apply, Enabled;
    }
  }

  // How a thread gets to leave the loop of the wait function by its own step.
  lemma OwnStep(s: State, t: Tid, a: Action)
    requires Enabled(s, t, a)
    ensures var pc, pc' := s.PcOf(t), Apply(s, t, a).PcOf(t);
            && (pc'.WaitUnlink? ==> a.Go? && (pc.WaitCheck? || pc.WaitRelock?))
            && (pc'.WaitUnlock? ==> pc == WaitUnlink(pc'.w, pc'.result))
            && (pc'.WaitReturned? ==> pc == WaitUnlock(pc'.w, pc'.result))
            && (pc'.WaitRelock? ==> a.Wake? && pc.WaitSleeping? && (pc'.timedOut ==> pc'.w.timed))
  {
    hide BucketFor, State.WaitList, State.Read, WithoutThread, Scan, Link, Unlink, Store;
    match a {
      case Go =>
        match s.PcOf(t) {
          case WaitLink(w) => LinkMoves(s, t, w);
          case WaitUnlink(w, result) => UnlinkMoves(s, t, w, result);
          case StoreThen(addr, value, next) => StoreMoves(s, t, addr, value, next);
          case NotifyScan(addr, all, pos) => ScanMoves(s, t, addr, all, pos, t);
          case _ =>
        }
      case _ =>
    }
  }

  // Only a timed sleep times out.
  lemma {:induction false} TimeoutsAreTimed(run: seq<State>, k: nat, t: Tid)
    requires IsRun(run) && k < |run| && run[k].PcOf(t).WaitRelock? && run[k].PcOf(t).timedOut
    ensures run[k].PcOf(t).w.timed
  {
    hide Enabled, Apply;
    if k > 0 {
      var s := run[k - 1];
      assert Next(s, run[k - 1 + 1]);
      var u: Tid, a: Action :| Enabled(s, u, a) && run[k] == Apply(s, u, a);
      if u == t {
        OwnStep(s, t, a);
      } else {
        OthersStay(s, u, a, t);
        TimeoutsAreTimed(run, k - 1, t);
      }
    }
  }

  // An untimed wait leaves its loop only in the check, with the lock held and a
  // value other than the comparand in front of it, and then it returns TRUE.
  lemma UntimedReturnsOnInequality(run: seq<State>, k: nat, t: Tid)
    requires IsRun(run) && k + 1 < |run|
    requires !run[k].PcOf(t).WaitUnlink? && run[k + 1].PcOf(t).WaitUnlink? && !run[k + 1].PcOf(t).w.timed
    ensures run[k].PcOf(t).WaitCheck?
    ensures var w := run[k].PcOf(t).w;
            && run[k].Read(w.addr) != w.cmp && run[k + 1].PcOf(t) == WaitUnlink(w, true)
            && BucketFor(w.addr) in run[k].locks && run[k].locks[BucketFor(w.addr)] == t
  {
    hide Enabled, Apply, BucketFor, State.Read;
    var s := run[k];
    RunKeepsInv(run, k);
    assert Next(s, run[k + 1]);
    var u: Tid, a: Action :| Enabled(s, u, a) && run[k + 1] == Apply(s, u, a);
    if u == t {
      OwnStep(s, t, a);
      if s.PcOf(t).WaitRelock? {
        RelockStep(s, t);
        TimeoutsAreTimed(run, k, t);
      } else {
        CheckStep(s, t);
        assert Holds(s, t, BucketFor(s.PcOf(t).w.addr));
      }
    } else {
      OthersStay(s, u, a, t);
    }
  }

  // The thread sees, with the lock held, a value other than the one it waits on.
  predicate SeesOther(s: State, t: Tid, w: Wait)
  {
    && s.PcOf(t) == WaitCheck(w) && s.Read(w.addr) != w.cmp
    && BucketFor(w.addr) in s.locks && s.locks[BucketFor(w.addr)] == t
  }

  // So an untimed wait returns TRUE, and only after it has seen another value.
  lemma {:induction false} UntimedReturnsTrue(run: seq<State>, k: nat, t: Tid)
    requires IsRun(run) && k < |run|
    requires var pc := run[k].PcOf(t); (pc.WaitUnlink? || pc.WaitUnlock? || pc.WaitReturned?) && !pc.w.timed
    ensures run[k].PcOf(t).result && exists j: nat :: j < k && SeesOther(run[j], t, run[k].PcOf(t).w)
  {
    hide Enabled, Apply, BucketFor, State.Read, SeesOther;
    if k > 0 {
      var s := run[k - 1];
      assert Next(s, run[k - 1 + 1]);
      var u: Tid, a: Action :| Enabled(s, u, a) && run[k] == Apply(s, u, a);
      if u == t {
        OwnStep(s, t, a);
      } else {
        OthersStay(s, u, a, t);
      }
      if run[k].PcOf(t).WaitUnlink? && !s.PcOf(t).WaitUnlink? {
        LeavesOnInequality(run, k - 1, t);
      } else {
        UntimedReturnsTrue(run, k - 1, t);
      }
    }
  }

  lemma LeavesOnInequality(run: seq<State>, k: nat, t: Tid)
    requires IsRun(run) && k + 1 < |run|
    requires !run[k].PcOf(t).WaitUnlink? && run[k + 1].PcOf(t).WaitUnlink? && !run[k + 1].PcOf(t).w.timed
    ensures SeesOther(run[k], t, run[k + 1].PcOf(t).w) && run[k + 1].PcOf(t).result
  {
    hide IsRun, BucketFor;
    UntimedReturnsOnInequality(run, k, t);
  }

  lemma RelockStep(s: State, t: Tid)
    requires Enabled(s, t, Go) && s.PcOf(t).WaitRelock?
    ensures Apply(s, t, Go).PcOf(t) == AfterSleep(s.PcOf(t).w, s.PcOf(t).timedOut)
  {
    hide BucketFor;
  }

  lemma CheckStep(s: State, t: Tid)
    requires s.PcOf(t).WaitCheck?
    ensures var w := s.PcOf(t).w;
            Apply(s, t, Go).PcOf(t) == if s.Read(w.addr) == w.cmp then WaitSleep(w) else WaitUnlink(w, true)
  {
    hide BucketFor;
  }
}
