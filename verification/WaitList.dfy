// The intrusive circular list of a wait table entry: contexts live on the stacks
// of the waiting threads and are spliced in and out under the entry's lock.
module WaitList {
  import opened WaitProtocol
  import opened WaitNotify

  // _Wait_context.  The condition variable is reduced to whether it was signalled.
  class WaitContext {
    const storage: Addr
    ghost const thread: Tid  // whose stack it is on
    var next: WaitContext?
    var prev: WaitContext?
    var signalled: bool

    constructor (storage: Addr, ghost thread: Tid, next: WaitContext?, prev: WaitContext?)
      ensures this.storage == storage && this.thread == thread && this.next == next && this.prev == prev && !signalled
    {
      this.storage, this.thread, this.next, this.prev, this.signalled := storage, thread, next, prev, false;
    }
  }

  ghost predicate Distinct(r: seq<WaitContext>)
  {
    forall i, j :: 0 <= i < j < |r| ==> r[i] != r[j]
  }

  // The pointers of a doubly linked ring.
  ghost predicate Ring(r: seq<WaitContext>)
    reads (set c | c in r)`next, (set c | c in r)`prev
  {
    && Distinct(r)
    && (forall i :: 0 <= i < |r| ==> r[i].next == After(r, i) && r[i].prev == Before(r, i))
  }

  function After(r: seq<WaitContext>, i: nat): (c: WaitContext)
    requires i < |r|
  {
    if i + 1 == |r| then r[0] else r[i + 1]
  }

  function Before(r: seq<WaitContext>, i: nat): (c: WaitContext)
    requires i < |r|
  {
    if i == 0 then r[|r| - 1] else r[i - 1]
  }

  class WaitTableEntry {
    const head: WaitContext
    ghost var ring: seq<WaitContext>  // the sentinel, then the waiters in order of arrival

    ghost predicate Valid()
      reads this, (set c | c in ring)`next, (set c | c in ring)`prev
    {
      |ring| > 0 && ring[0] == head && Ring(ring)
    }

    constructor ()
      ensures Valid() && ring == [head] && fresh(head)
    {
      head := new WaitContext(0, 0, null, null);
      new;
      head.next, head.prev := head, head;
      ring := [head];
    }

    // The constructor of _Guarded_wait_context: in before the sentinel, at the tail.
    method Link(storage: Addr, ghost thread: Tid) returns (context: WaitContext)
      requires Valid()
      modifies this, (set c | c in ring)`next, (set c | c in ring)`prev
      ensures Valid() && fresh(context) && ring == old(ring) + [context]
      ensures context.storage == storage && context.thread == thread && !context.signalled
    {
      assert head.prev == Before(ring, 0);
      context := new WaitContext(storage, thread, head, head.prev);
      context.prev.next := context;
      context.next.prev := context;
      ring := ring + [context];
    }

    // Its destructor: the neighbours close the gap, everybody else stays.
    method Unlink(context: WaitContext, ghost k: nat)
      requires Valid() && 0 < k < |ring| && ring[k] == context
      modifies this, (set c | c in ring)`next, (set c | c in ring)`prev
      ensures Valid() && ring == old(ring)[..k] + old(ring)[k + 1..]
    {
      ghost var r := ring;
      assert context.next == After(r, k) && context.prev == Before(r, k);
      context.next.prev := context.prev;
      context.prev.next := context.next;
      ring := r[..k] + r[k + 1..];
      RingWithout(r, ring, k);
    }

    // __std_atomic_notify_all_indirect: exactly the waiters on the address are woken.
    method NotifyAll(storage: Addr)
      requires Valid()
      modifies (set c | c in ring)`signalled
      ensures Valid() && head.signalled == old(head.signalled)
      ensures forall j :: 0 < j < |ring| ==> ring[j].signalled == (old(ring[j].signalled) || ring[j].storage == storage)
    {
      hide Ring;
      RingAt(ring, 0);
      var context := head.next;
      ghost var i := 1;
      while context != head
        invariant Valid() && 1 <= i <= |ring| && context == (if i == |ring| then head else ring[i])
        invariant forall j :: 0 < j < i ==> ring[j].signalled == (old(ring[j].signalled) || ring[j].storage == storage)
        invariant forall j :: i <= j < |ring| ==> ring[j].signalled == old(ring[j].signalled)
        invariant head.signalled == old(head.signalled)
        decreases |ring| - i
      {
        RingAt(ring, i);
        if context.storage == storage {
          context.signalled := true;
        }
        context := context.next;
        i := i + 1;
      }
    }

    // __std_atomic_notify_one_indirect: only the waiter that has waited longest on
    // the address is woken, if there is one.
    method NotifyOne(storage: Addr)
      requires Valid()
      modifies (set c | c in ring)`signalled
      ensures Valid() && head.signalled == old(head.signalled)
      ensures forall j :: 0 < j < |ring| ==> ring[j].signalled == (old(ring[j].signalled) || IsFirst(ring, j, storage))
    {
      hide Ring;
      RingAt(ring, 0);
      var context := head.next;
      ghost var i := 1;
      while context != head
        invariant Valid() && 1 <= i <= |ring| && context == (if i == |ring| then head else ring[i])
        invariant forall j :: 0 < j < i ==> ring[j].storage != storage
        invariant forall j :: 0 <= j < |ring| ==> ring[j].signalled == old(ring[j].signalled)
        decreases |ring| - i
      {
        RingAt(ring, i);
        if context.storage == storage {
          context.signalled := true;
          break;
        }
        context := context.next;
        i := i + 1;
      }
    }
  }

  // --- the list of the protocol ---

  // The threads whose contexts are in the ring, behind the sentinel.
  ghost function Waiters(r: seq<WaitContext>): (l: seq<Tid>)
    requires |r| > 0
  {
    seq(|r| - 1, i requires 0 <= i < |r| - 1 => r[i + 1].thread)
  }

  // A waiter links its context: the ring follows the protocol's step.
  method LinkStep(entry: WaitTableEntry, w: Wait, ghost s: State, ghost t: Tid) returns (context: WaitContext)
    requires entry.Valid() && Waiters(entry.ring) == s.WaitList(BucketFor(w.addr))
    modifies entry, (set c | c in entry.ring)`next, (set c | c in entry.ring)`prev
    ensures entry.Valid() && fresh(context) && context.thread == t && entry.ring == old(entry.ring) + [context]
    ensures Waiters(entry.ring) == WaitProtocol.Link(s, t, w).WaitList(BucketFor(w.addr))
  {
    hide Ring, BucketFor;
    context := entry.Link(w.addr, t);
  }

  // And unlinks it, wherever in the ring it stands.
  method UnlinkStep(entry: WaitTableEntry, context: WaitContext, w: Wait, result: bool, ghost i: nat, ghost s: State)
    requires entry.Valid() && 0 < i < |entry.ring| && entry.ring[i] == context
    requires Inv(s) && Waiters(entry.ring) == s.WaitList(BucketFor(w.addr))
    modifies entry, (set c | c in entry.ring)`next, (set c | c in entry.ring)`prev
    ensures entry.Valid() && entry.ring == old(entry.ring)[..i] + old(entry.ring)[i + 1..]
    ensures Waiters(entry.ring) == WaitProtocol.Unlink(s, context.thread, w, result).WaitList(BucketFor(w.addr))
  {
    hide Ring, BucketFor, Inv;
    ghost var r, b := entry.ring, BucketFor(w.addr);
    WaitersDistinct(s, b);
    WithoutAt(s.WaitList(b), i - 1);
    entry.Unlink(context, i);
    assert Waiters(entry.ring) == Waiters(r)[..i - 1] + Waiters(r)[i..];
  }

  // These are the protocol's own steps, and no other step touches a list: every run
  // of the protocol is a run of the rings.
  lemma ListSteps(s: State, t: Tid, a: Action, b: Bucket)
    requires Enabled(s, t, a)
    ensures var pc, r := s.PcOf(t), Apply(s, t, a);
            if a.Go? && pc.WaitLink? then r == WaitProtocol.Link(s, t, pc.w)
            else if a.Go? && pc.WaitUnlink? then r == WaitProtocol.Unlink(s, t, pc.w, pc.result)
            else r.WaitList(b) == s.WaitList(b)
  {
    hide BucketFor, WaitProtocol.Link, WaitProtocol.Unlink;
    var pc := s.PcOf(t);
    if Scanning(s, t, a) {
      ScanMoves(s, t, pc.addr, pc.all, pc.pos, t);
    } else if !(a.Go? && (pc.WaitLink? || pc.WaitUnlink?)) {
      OtherLists(s, t, a);
    }
  }

  // A context says what its thread waits on, and whether it is to wake from its sleep.
  ghost predicate Mirrors(context: WaitContext, s: State)
    reads context`signalled
  {
    var pc := s.PcOf(context.thread);
    pc.Linked() && pc.w.addr == context.storage && (pc.WaitSleeping? ==> pc.signalled == context.signalled)
  }

  ghost predicate MirrorsList(r: seq<WaitContext>, s: State, b: Bucket)
    reads (set c | c in r)`signalled
  {
    |r| > 0 && Waiters(r) == s.WaitList(b) && forall j :: 0 < j < |r| ==> Mirrors(r[j], s)
  }

  // The ring and the list agree on who waits on the address first.
  lemma SameFirst(r: seq<WaitContext>, s: State, storage: Addr, j: nat)
    requires MirrorsList(r, s, BucketFor(storage)) && 0 < j < |r| && Inv(s)
    ensures var l := s.WaitList(BucketFor(storage));
            IsFirst(r, j, storage) <==> exists i: nat :: FirstWaiter(s, l, storage, i) && l[i] == r[j].thread
  {
    hide BucketFor, Inv, State.WaitList;
    var l := s.WaitList(BucketFor(storage));
    WaitersDistinct(s, BucketFor(storage));
    assert l[j - 1] == r[j].thread;
    assert forall i: nat :: i < |l| ==> WaitsOn(s, l[i], storage) == (r[i + 1].storage == storage) by {
      assert forall i: nat :: i < |l| ==> Mirrors(r[i + 1], s) && l[i] == r[i + 1].thread;
    }
    hide WaitsOn, Mirrors;
    if IsFirst(r, j, storage) {
      assert FirstWaiter(s, l, storage, j - 1);
    }
    if i: nat :| FirstWaiter(s, l, storage, i) && l[i] == r[j].thread {
      assert i == j - 1;
      forall p | 0 < p < j
        ensures r[p].storage != storage
      {
        assert !WaitsOn(s, l[p - 1], storage);
      }
    }
  }

  // notify_one in the ring is the scan of the protocol from its start to its end.
  method NotifyOneStep(entry: WaitTableEntry, storage: Addr, ghost s: State, ghost t: Tid)
    requires entry.Valid() && Inv(s) && s.PcOf(t) == NotifyScan(storage, false, 0)
    requires MirrorsList(entry.ring, s, BucketFor(storage))
    modifies (set c | c in entry.ring)`signalled
    ensures entry.Valid() && MirrorsList(entry.ring, ScanToEnd(s, t), BucketFor(storage))
  {
    hide Ring, BucketFor, Inv, ScanToEnd, State.WaitList;
    ghost var r, e := entry.ring, ScanToEnd(s, t);
    forall j | 0 < j < |r|
      ensures r[j].thread != t
      ensures e.PcOf(r[j].thread) == if Asleep(s.PcOf(r[j].thread)) && IsFirst(r, j, storage)
                                     then WaitSleeping(s.PcOf(r[j].thread).w, true) else s.PcOf(r[j].thread)
    {
      assert Mirrors(r[j], s);
      SameFirst(r, s, storage, j);
      OneToEnd(s, t, r[j].thread);
    }
    assert e.lists == s.lists by { OneToEnd(s, t, t + 1); }
    SameList(s, e, BucketFor(storage));
    hide IsFirst;
    entry.NotifyOne(storage);
  }

  // And notify_all is the scan that stops for nobody.
  method NotifyAllStep(entry: WaitTableEntry, storage: Addr, ghost s: State, ghost t: Tid)
    requires entry.Valid() && Inv(s) && s.PcOf(t) == NotifyScan(storage, true, 0)
    requires MirrorsList(entry.ring, s, BucketFor(storage))
    modifies (set c | c in entry.ring)`signalled
    ensures entry.Valid() && MirrorsList(entry.ring, ScanToEnd(s, t), BucketFor(storage))
  {
    hide Ring, BucketFor, Inv, ScanToEnd, State.WaitList;
    ghost var r, e := entry.ring, ScanToEnd(s, t);
    forall j | 0 < j < |r|
      ensures r[j].thread != t
      ensures e.PcOf(r[j].thread) == if Asleep(s.PcOf(r[j].thread)) && r[j].storage == storage
                                     then WaitSleeping(s.PcOf(r[j].thread).w, true) else s.PcOf(r[j].thread)
    {
      assert Mirrors(r[j], s);
      assert s.WaitList(BucketFor(storage))[j - 1] == r[j].thread;
      AllToEnd(s, t, r[j].thread);
    }
    assert e.lists == s.lists by { AllToEnd(s, t, t + 1); }
    SameList(s, e, BucketFor(storage));
    entry.NotifyAll(storage);
  }

  lemma WaitersDistinct(s: State, b: Bucket)
    requires Inv(s)
    ensures forall i: nat, j: nat :: i < j < |s.WaitList(b)| ==> s.WaitList(b)[i] != s.WaitList(b)[j]
  {
    hide BucketFor, State.WaitList, LocksAgree, NoLostWake;
    forall i: nat, j: nat | i < j < |s.WaitList(b)|
      ensures s.WaitList(b)[i] != s.WaitList(b)[j]
    {
      assert Earlier(s, s.WaitList(b)[i], s.WaitList(b)[j]);
    }
  }

  lemma {:induction false} WithoutAt(l: seq<Tid>, i: nat)
    requires i < |l| && forall j: nat, k: nat :: j < k < |l| ==> l[j] != l[k]
    ensures WithoutThread(l, l[i]) == l[..i] + l[i + 1..]
  {
    if i > 0 {
      WithoutAt(l[1..], i - 1);
      assert l[..i] + l[i + 1..] == [l[0]] + (l[1..][..i - 1] + l[1..][i..]);
    }
  }

  // The waiter at position j is the first one in the ring on the address.
  ghost predicate IsFirst(r: seq<WaitContext>, j: nat, storage: Addr)
  {
    0 < j < |r| && r[j].storage == storage && forall i :: 0 < i < j ==> r[i].storage != storage
  }

  lemma RingAt(r: seq<WaitContext>, i: nat)
    requires Ring(r) && i < |r|
    ensures r[i].next == After(r, i)
    ensures forall j :: 0 <= j < |r| && j != i ==> r[j] != r[i]
  {
  }

  // A ring with one element taken out, seen pointer by pointer.
  lemma RingWithout(r: seq<WaitContext>, r': seq<WaitContext>, k: nat)
    requires 0 < k < |r| && r' == r[..k] + r[k + 1..] && Distinct(r)
    requires forall i :: 0 <= i < |r| && i != k ==>
               r[i].next == (if After(r, i) == r[k] then After(r, k) else After(r, i))
    requires forall i :: 0 <= i < |r| && i != k ==>
               r[i].prev == (if Before(r, i) == r[k] then Before(r, k) else Before(r, i))
    ensures Ring(r')
  {
    assert Distinct(r');
    forall i | 0 <= i < |r'|
      ensures r'[i].next == After(r', i) && r'[i].prev == Before(r', i)
    {
      NeighboursWithout(r, r', k, i);
    }
  }

  lemma NeighboursWithout(r: seq<WaitContext>, r': seq<WaitContext>, k: nat, i: nat)
    requires 0 < k < |r| && r' == r[..k] + r[k + 1..] && Distinct(r) && i < |r'|
    ensures var o := if i < k then i else i + 1;
            && r'[i] == r[o]
            && After(r', i) == (if After(r, o) == r[k] then After(r, k) else After(r, o))
            && Before(r', i) == (if Before(r, o) == r[k] then Before(r, k) else Before(r, o))
  {
    var o := if i < k then i else i + 1;
    assert After(r, o) == r[k] <==> o == k - 1;
    assert Before(r, o) == r[k] <==> o == (if k + 1 == |r| then 0 else k + 1);
  }
}
