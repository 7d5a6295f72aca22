// How the atomic wait functions settle on an API level: several threads may be
// detecting, forcing and reading the level at once, with compare-exchanges that
// may fail spuriously and a final store that compares nothing.
module ApiLevel {

  const NOT_SET := 0
  const DETECTING := 1
  const HAS_SRWLOCK := 2
  const HAS_WAIT_ON_ADDRESS := 3

  type Tid = int

  datatype Pc =
    | Idle
    | ForceLoad                     // _Force_wait_functions_srwlock_only
    | ForceExchange(local: int)
    | AcquireLoad                   // _Acquire_wait_functions
    | InitExchange(level: int)      // _Init_wait_functions
    | Detect
    | StoreWait
    | StoreWakeSingle
    | StoreWakeAll
    | StoreLevel(level: int)
    | Returned(level: int)
  {
    // After the level was set to detecting by this thread and before its store.
    predicate InFlight() { Detect? || StoreWait? || StoreWakeSingle? || StoreWakeAll? || StoreLevel? }
  }

  datatype State = State(level: int, pfnWait: bool, pfnWakeSingle: bool, pfnWakeAll: bool, threads: map<Tid, Pc>) {
    function PcOf(t: Tid): (pc: Pc) { if t in threads then threads[t] else Idle }
    function At(t: Tid, pc: Pc): (s: State) { this.(threads := threads[t := pc]) }
    predicate FunctionsSet() { pfnWait && pfnWakeSingle && pfnWakeAll }
  }

  // A call starts, or a thread goes on; the flag is whether a weak
  // compare-exchange that could succeed fails for no reason.
  datatype Action = BeginForce | BeginAcquire | Go(spurious: bool)

  predicate Enabled(s: State, t: Tid, a: Action)
  {
    if a.Go? then !s.PcOf(t).Idle? && !s.PcOf(t).Returned? else s.PcOf(t).Idle? || s.PcOf(t).Returned?
  }

  // A compare-exchange with the value it expects in place, and no spurious failure.
  predicate Succeeds(s: State, expected: int, a: Action)
    requires a.Go?
  {
    s.level == expected && !a.spurious
  }

  // Detection finds the same answer every time: all three functions, or not.
  function NextPc(available: bool, s: State, pc: Pc, a: Action): (r: Pc)
  {
    match a
    case BeginForce => ForceLoad
    case BeginAcquire => AcquireLoad
    case Go(_) =>
      match pc
      case ForceLoad => if s.level <= DETECTING then ForceExchange(s.level) else AcquireLoad
      case ForceExchange(local) =>
        if Succeeds(s, local, a) || s.level > DETECTING then AcquireLoad else ForceExchange(s.level)
      case AcquireLoad => if s.level <= DETECTING then InitExchange(s.level) else Returned(s.level)
      case InitExchange(level) =>
        if Succeeds(s, level, a) then Detect
        else if s.level > DETECTING then Returned(s.level) else InitExchange(s.level)
      case Detect => if available then StoreWait else StoreLevel(HAS_SRWLOCK)
      case StoreWait => StoreWakeSingle
      case StoreWakeSingle => StoreWakeAll
      case StoreWakeAll => StoreLevel(HAS_WAIT_ON_ADDRESS)
      case StoreLevel(level) => Returned(level)
      case _ => pc
  }

  function Effect(s: State, pc: Pc, a: Action): (r: State)
    ensures r.threads == s.threads
  {
    if !a.Go? then s
    else
      match pc
      case ForceExchange(local) => if Succeeds(s, local, a) then s.(level := HAS_SRWLOCK) else s
      case InitExchange(level) => if Succeeds(s, level, a) then s.(level := DETECTING) else s
      case StoreWait => s.(pfnWait := true)
      case StoreWakeSingle => s.(pfnWakeSingle := true)
      case StoreWakeAll => s.(pfnWakeAll := true)
      case StoreLevel(level) => s.(level := level)
      case _ => s
  }

  function Apply(available: bool, s: State, t: Tid, a: Action): (r: State)
    requires Enabled(s, t, a)
  {
    Effect(s, s.PcOf(t), a).At(t, NextPc(available, s, s.PcOf(t), a))
  }

  ghost predicate Next(available: bool, s: State, s': State)
  {
    exists t: Tid, a: Action :: Enabled(s, t, a) && s' == Apply(available, s, t, a)
  }

  const INITIAL := State(NOT_SET, false, false, false, map[])

  // A run from any state; those that start in INITIAL are the program's.
  ghost predicate IsRun(available: bool, run: seq<State>)
  {
    |run| > 0 && forall k: nat :: k + 1 < |run| ==> Next(available, run[k], run[k + 1])
  }

  predicate PcOk(available: bool, s: State, pc: Pc)
  {
    match pc
    case ForceExchange(local) => local <= DETECTING
    case InitExchange(level) => level <= DETECTING
    case Detect => s.level >= DETECTING
    case StoreWait => s.level >= DETECTING && available
    case StoreWakeSingle => s.level >= DETECTING && available && s.pfnWait
    case StoreWakeAll => s.level >= DETECTING && available && s.pfnWait && s.pfnWakeSingle
    case StoreLevel(level) =>
      && s.level >= DETECTING && level == (if available then HAS_WAIT_ON_ADDRESS else HAS_SRWLOCK)
      && (available ==> s.FunctionsSet())
    case Returned(level) => HAS_SRWLOCK <= level <= s.level
    case _ => true
  }

  predicate ThreadOk(available: bool, s: State, t: Tid)
  {
    PcOk(available, s, s.PcOf(t))
  }

  ghost predicate Inv(available: bool, s: State)
  {
    && NOT_SET <= s.level <= HAS_WAIT_ON_ADDRESS
    && (s.level == HAS_WAIT_ON_ADDRESS ==> available && s.FunctionsSet())
    && forall t: Tid :: ThreadOk(available, s, t)
  }

  // A step never lowers the level and clears no pointer.
  predicate Grows(s: State, r: State)
  {
    && s.level <= r.level && (s.pfnWait ==> r.pfnWait)
    && (s.pfnWakeSingle ==> r.pfnWakeSingle) && (s.pfnWakeAll ==> r.pfnWakeAll)
  }

  lemma EffectGrows(available: bool, s: State, pc: Pc, a: Action)
    requires NOT_SET <= s.level <= HAS_WAIT_ON_ADDRESS
    requires (s.level == HAS_WAIT_ON_ADDRESS ==> available && s.FunctionsSet())
    requires PcOk(available, s, pc)
    ensures var r := Effect(s, pc, a);
            && Grows(s, r) && r.level <= HAS_WAIT_ON_ADDRESS
            && (r.level == HAS_WAIT_ON_ADDRESS ==> available && r.FunctionsSet())
  {
  }

  lemma NextPcOk(available: bool, s: State, pc: Pc, a: Action)
    requires NOT_SET <= s.level <= HAS_WAIT_ON_ADDRESS && PcOk(available, s, pc)
    ensures PcOk(available, Effect(s, pc, a), NextPc(available, s, pc, a))
  {
  }

  lemma StillOk(available: bool, s: State, r: State, pc: Pc)
    requires PcOk(available, s, pc) && Grows(s, r)
    ensures PcOk(available, r, pc)
  {
  }

  // One step keeps the invariant, never lowers the level, and clears no pointer.
  lemma Step(available: bool, s: State, t: Tid, a: Action)
    requires Inv(available, s) && Enabled(s, t, a)
    ensures Inv(available, Apply(available, s, t, a))
    ensures s.level <= Apply(available, s, t, a).level
    ensures s.FunctionsSet() ==> Apply(available, s, t, a).FunctionsSet()
  {
    hide Effect, NextPc, PcOk, Enabled;
    var e, r := Effect(s, s.PcOf(t), a), Apply(available, s, t, a);
    assert ThreadOk(available, s, t);
    EffectGrows(available, s, s.PcOf(t), a);
    NextPcOk(available, s, s.PcOf(t), a);
    forall u: Tid
      ensures ThreadOk(available, r, u)
    {
      assert ThreadOk(available, s, u);
      StillOk(available, s, r, s.PcOf(u));
      StillOk(available, e, r, r.PcOf(t));
    }
  }

  lemma {:induction false} RunKeepsInv(available: bool, run: seq<State>, k: nat)
    requires IsRun(available, run) && run[0] == INITIAL && k < |run|
    ensures Inv(available, run[k])
  {
    hide Apply, Enabled;
    if k > 0 {
      RunKeepsInv(available, run, k - 1);
      assert Next(available, run[k - 1], run[k - 1 + 1]);
      var t: Tid, a: Action :| Enabled(run[k - 1], t, a) && run[k] == Apply(available, run[k - 1], t, a);
      Step(available, run[k - 1], t, a);
    }
  }

  // The level never decreases, so above detecting it never returns below, and the
  // three pointers are there whenever the level says they are.
  lemma {:induction false} LevelNeverDecreases(available: bool, run: seq<State>, j: nat, k: nat)
    requires IsRun(available, run) && run[0] == INITIAL && j <= k < |run|
    ensures run[j].level <= run[k].level
    ensures run[k].level == HAS_WAIT_ON_ADDRESS ==> run[k].FunctionsSet()
    decreases k
  {
    hide Apply, Enabled;
    RunKeepsInv(available, run, k);
    if j < k {
      LevelNeverDecreases(available, run, j, k - 1);
      RunKeepsInv(available, run, k - 1);
      assert Next(available, run[k - 1], run[k - 1 + 1]);
      var t: Tid, a: Action :| Enabled(run[k - 1], t, a) && run[k] == Apply(available, run[k - 1], t, a);
      Step(available, run[k - 1], t, a);
    }
  }

  // What a caller gets back is a real level, and at the higher one it may call
  // through the pointers.
  lemma ReturnedLevel(available: bool, run: seq<State>, k: nat, t: Tid)
    requires IsRun(available, run) && run[0] == INITIAL && k < |run| && run[k].PcOf(t).Returned?
    ensures HAS_SRWLOCK <= run[k].PcOf(t).level <= run[k].level
    ensures run[k].PcOf(t).level == HAS_WAIT_ON_ADDRESS ==> run[k].FunctionsSet()
  {
    hide IsRun;
    RunKeepsInv(available, run, k);
    assert ThreadOk(available, run[k], t);
  }

  // And it is the level at that moment.
  lemma ReturnedIsCurrent(available: bool, run: seq<State>, k: nat, t: Tid)
    requires IsRun(available, run) && k + 1 < |run| && !run[k].PcOf(t).Returned? && run[k + 1].PcOf(t).Returned?
    ensures run[k + 1].PcOf(t).level == run[k + 1].level
  {
    assert Next(available, run[k], run[k + 1]);
    var u: Tid, a: Action :| Enabled(run[k], u, a) && run[k + 1] == Apply(available, run[k], u, a);
  }

  // --- forcing the lower level ---

  // In a call that forces, before its exchange and after it.
  predicate Forcing(s: State, pc: Pc)
  {
    pc.ForceLoad? || pc.ForceExchange? || ((pc.AcquireLoad? || pc.Returned?) && s.level >= HAS_SRWLOCK)
  }

  lemma ForcingStep(available: bool, s: State, u: Tid, a: Action, t: Tid)
    requires Inv(available, s) && Enabled(s, u, a) && Forcing(s, s.PcOf(t)) && !s.PcOf(t).Returned?
    ensures var r := Apply(available, s, u, a); Forcing(r, r.PcOf(t))
  {
    hide Inv;
    Step(available, s, u, a);
  }

  /** A call that forces does not detect: it gets past its exchange only when the level is
      set, by itself or by somebody else, and comes back with a level that is set. */
  lemma {:induction false} ForcingForces(available: bool, run: seq<State>, j: nat, k: nat, t: Tid)
    requires IsRun(available, run) && run[0] == INITIAL && j <= k < |run| && run[j].PcOf(t).ForceLoad?
    requires forall i: nat :: j <= i < k ==> !run[i].PcOf(t).Returned?
    ensures Forcing(run[k], run[k].PcOf(t))
    decreases k
  {
    hide Apply, Enabled, Forcing, Inv;
    if j < k {
      ForcingForces(available, run, j, k - 1, t);
      RunKeepsInv(available, run, k - 1);
      assert Next(available, run[k - 1], run[k - 1 + 1]);
      var u: Tid, a: Action :| Enabled(run[k - 1], u, a) && run[k] == Apply(available, run[k - 1], u, a);
      ForcingStep(available, run[k - 1], u, a, t);
    } else {
      assert Forcing(run[k], ForceLoad) by { StartsForcing(run[k]); }
    }
  }

  lemma StartsForcing(s: State)
    ensures Forcing(s, ForceLoad)
  {
  }

  // Only detections raise the level beyond the forced one.
  ghost predicate NoDetection(run: seq<State>, k: nat)
    requires k < |run|
  {
    forall i: nat, u: Tid :: i <= k ==> !run[i].PcOf(u).InFlight()
  }

  lemma {:induction false} LevelWithoutDetection(available: bool, run: seq<State>, k: nat)
    requires IsRun(available, run) && run[0] == INITIAL && k < |run| && NoDetection(run, k)
    ensures run[k].level == NOT_SET || run[k].level == HAS_SRWLOCK
  {
    hide Enabled;
    if k > 0 {
      LevelWithoutDetection(available, run, k - 1);
      var s := run[k - 1];
      assert Next(available, s, run[k - 1 + 1]);
      var u: Tid, a: Action :| Enabled(s, u, a) && run[k] == Apply(available, s, u, a);
      assert !s.PcOf(u).InFlight() && !run[k].PcOf(u).InFlight();
    }
  }

  /** If nobody has begun to detect, a call that forces comes back with the lower level. */
  lemma ForcedLevelIsLower(available: bool, run: seq<State>, k: nat, t: Tid)
    requires IsRun(available, run) && run[0] == INITIAL && k < |run| && run[k].PcOf(t).Returned? && NoDetection(run, k)
    ensures run[k].PcOf(t).level == HAS_SRWLOCK && run[k].level == HAS_SRWLOCK
  {
    hide IsRun, NoDetection;
    ReturnedLevel(available, run, k, t);
    LevelWithoutDetection(available, run, k);
  }

  /** Left to itself while the level is open, a call that forces sets the lower level,
      even over a detection, and returns it. */
  lemma ForceAlone(available: bool, s: State, t: Tid) returns (run: seq<State>)
    requires s.level <= DETECTING && (s.PcOf(t).Idle? || s.PcOf(t).Returned?)
    ensures IsRun(available, run) && run[0] == s
    ensures run[|run| - 1].level == HAS_SRWLOCK && run[|run| - 1].PcOf(t) == Returned(HAS_SRWLOCK)
  {
    var s1 := Apply(available, s, t, BeginForce);
    var s2 := Apply(available, s1, t, Go(false));
    var s3 := Apply(available, s2, t, Go(false));
    var s4 := Apply(available, s3, t, Go(false));
    assert Next(available, s, s1) by { assert Enabled(s, t, BeginForce); }
    assert Next(available, s1, s2) by { assert Enabled(s1, t, Go(false)); }
    assert Next(available, s2, s3) by { assert Enabled(s2, t, Go(false)); }
    assert Next(available, s3, s4) by { assert Enabled(s3, t, Go(false)); }
    run := [s, s1, s2, s3, s4];
  }

  // --- when a level is final ---

  // Some detection that was under way when the level was forced will still raise it.
  ghost predicate CanStillChange(available: bool, s: State)
  {
    available && s.level == HAS_SRWLOCK && exists t: Tid :: s.PcOf(t).InFlight()
  }

  lemma FinalStep(available: bool, s: State, t: Tid, a: Action)
    requires Inv(available, s) && s.level >= HAS_SRWLOCK && !CanStillChange(available, s) && Enabled(s, t, a)
    ensures Apply(available, s, t, a).level == s.level
    ensures !CanStillChange(available, Apply(available, s, t, a))
  {
    var r := Apply(available, s, t, a);
    assert ThreadOk(available, s, t);
    if u: Tid :| r.PcOf(u).InFlight() {
      assert s.PcOf(u).InFlight() || s.PcOf(t).InFlight();
    }
  }

  lemma {:induction false} StaysFinal(available: bool, run: seq<State>, k: nat)
    requires IsRun(available, run) && Inv(available, run[0]) && k < |run|
    requires run[0].level >= HAS_SRWLOCK && !CanStillChange(available, run[0])
    ensures Inv(available, run[k]) && run[k].level == run[0].level && !CanStillChange(available, run[k])
  {
    hide Apply, Enabled, Inv, CanStillChange;
    if k > 0 {
      StaysFinal(available, run, k - 1);
      assert Next(available, run[k - 1], run[k - 1 + 1]);
      var t: Tid, a: Action :| Enabled(run[k - 1], t, a) && run[k] == Apply(available, run[k - 1], t, a);
      Step(available, run[k - 1], t, a);
      FinalStep(available, run[k - 1], t, a);
    }
  }

  // A detection in flight, left to run, ends by storing its level.
  lemma {:induction false} FinishDetection(available: bool, s: State, t: Tid) returns (run: seq<State>)
    requires Inv(available, s) && s.PcOf(t).InFlight()
    ensures IsRun(available, run) && run[0] == s
    ensures run[|run| - 1].level == if available then HAS_WAIT_ON_ADDRESS else HAS_SRWLOCK
    decreases match s.PcOf(t)
              case Detect => 4
              case StoreWait => 3
              case StoreWakeSingle => 2
              case StoreWakeAll => 1
              case _ => 0
  {
    assert ThreadOk(available, s, t);
    var r := Apply(available, s, t, Go(false));
    assert Next(available, s, r) by { assert Enabled(s, t, Go(false)); }
    Step(available, s, t, Go(false));
    if s.PcOf(t).StoreLevel? {
      run := [s, r];
    } else {
      var rest := FinishDetection(available, r, t);
      run := [s] + rest;
      PrependStep(available, s, rest);
    }
  }

  lemma PrependStep(available: bool, s: State, rest: seq<State>)
    requires IsRun(available, rest) && Next(available, s, rest[0])
    ensures IsRun(available, [s] + rest)
  {
    hide Next;
    var run := [s] + rest;
    forall k: nat | k + 1 < |run|
      ensures Next(available, run[k], run[k + 1])
    {
      if k > 0 {
        assert Next(available, rest[k - 1], rest[k - 1 + 1]);
      }
    }
  }

  // The header promises that a level once set can no longer be changed.  That is
  // so in every continuation exactly when no detection that can find the better
  // functions was in flight.
  lemma FinalIff(available: bool, s: State)
    requires Inv(available, s) && s.level >= HAS_SRWLOCK
    ensures (forall run: seq<State>, k: nat ::
               IsRun(available, run) && run[0] == s && k < |run| ==> run[k].level == s.level)
       <==> !CanStillChange(available, s)
  {
    hide Inv, Next;
    if CanStillChange(available, s) {
      var t: Tid :| s.PcOf(t).InFlight();
      var run := FinishDetection(available, s, t);
      assert run[|run| - 1].level != s.level;
    } else {
      forall run: seq<State>, k: nat | IsRun(available, run) && run[0] == s && k < |run|
        ensures run[k].level == s.level
      {
        StaysFinal(available, run, k);
      }
    }
  }

  // One thread detects while another forces the lower level and is told it is in
  // use; then the detection stores the higher one.
  lemma ForcedLevelChanges() returns (run: seq<State>, j: nat)
    ensures IsRun(true, run) && run[0] == INITIAL && j < |run|
    ensures run[j].PcOf(1) == Returned(HAS_SRWLOCK) && run[j].level == HAS_SRWLOCK
    ensures run[|run| - 1].level == HAS_WAIT_ON_ADDRESS
  {
    var s0 := INITIAL;
    var s1 := Apply(true, s0, 0, BeginAcquire);
    var s2 := Apply(true, s1, 0, Go(false));
    var s3 := Apply(true, s2, 0, Go(false));
    var s4 := Apply(true, s3, 1, BeginForce);
    var s5 := Apply(true, s4, 1, Go(false));
    var s6 := Apply(true, s5, 1, Go(false));
    var s7 := Apply(true, s6, 1, Go(false));
    assert s7 == State(HAS_SRWLOCK, false, false, false, map[0 := Detect, 1 := Returned(HAS_SRWLOCK)]);
    var rest := FinishDetection(true, s7, 0);
    var r6 := [s6] + rest;
    OneStep(s6, 1, Go(false), rest);
    OneStep(s5, 1, Go(false), r6);
    OneStep(s4, 1, Go(false), [s5] + r6);
    OneStep(s3, 1, BeginForce, [s4] + ([s5] + r6));
    OneStep(s2, 0, Go(false), [s3] + ([s4] + ([s5] + r6)));
    OneStep(s1, 0, Go(false), [s2] + ([s3] + ([s4] + ([s5] + r6))));
    OneStep(s0, 0, BeginAcquire, [s1] + ([s2] + ([s3] + ([s4] + ([s5] + r6)))));
    run := [s0] + ([s1] + ([s2] + ([s3] + ([s4] + ([s5] + r6)))));
    j := 7;
  }

  lemma OneStep(s: State, t: Tid, a: Action, rest: seq<State>)
    requires Enabled(s, t, a) && IsRun(true, rest) && rest[0] == Apply(true, s, t, a)
    ensures IsRun(true, [s] + rest)
  {
    assert Next(true, s, rest[0]);
    PrependStep(true, s, rest);
  }
}
