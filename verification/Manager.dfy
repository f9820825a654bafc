/**
  The threads manager: any number of cores, the manager mutex that serialises halting all cores with
  continuing all cores, and the debugger thread. Every core lives by CoreMachine; the calls of the
  manager are split at each core mutex they take.
*/
module Manager {
  import opened CoreMachine

  /** A thread inside threads_mgr_halt_cores. */
  datatype HaltLoc = NotHalting | WantsLock | Signalling(next: nat)

  /** The debugger thread inside the other calls of the manager. */
  datatype Debugger =
    | Quiet
    | Asking(next: nat)        // threads_mgr_are_halted, about to look at core `next`
    | Answered(all: bool)      // threads_mgr_are_halted has returned
    | ContinueOne(core: nat)   // found the core halted, about to continue it
    | StepOne(core: nat)       // found the core halted, about to step it
    | InStep(core: nat)        // inside the step call
    | CheckAll(next: nat)      // threads_mgr_continue_cores, first loop
    | ContinueAll(next: nat)   // threads_mgr_continue_cores, second loop
    | Crashed                  // a broken-invariant crash of the manager

  datatype Owner = Free | Held(thread: nat)

  /** Threads 0 to |cores| - 1 are the core threads, thread |cores| is the debugger. */
  datatype System = System(cores: seq<Core>, halting: seq<HaltLoc>, debugger: Debugger, mutex: Owner)

  datatype Event =
    | ThreadStep(core: nat, step: Step)       // the core's own thread
    | Request(core: nat, request: Signal)     // an HSM request to the core, from any core
    | HaltCall(thread: nat) | HaltLock(thread: nat) | HaltNext(thread: nat) | HaltUnlock(thread: nat)
    | Ask | AskNext | AskDone
    | ContinueCall(core: nat) | ContinueGo
    | StepCall(core: nat) | StepGo | StepResume
    | AllTryLock | AllCheck | AllContinue | AllUnlock

  /** The debugger is free to take a step of its own calls. */
  predicate DebuggerRuns(s: System) {
    |s.halting| == |s.cores| + 1 && s.halting[|s.cores|].NotHalting?
  }

  predicate Possible(s: System, e: Event) {
    && !s.debugger.Crashed?
    && |s.halting| == |s.cores| + 1
    && var n := |s.cores|;
       match e
       case ThreadStep(i, t) =>
         && i < n && t in {Dispatch, Wake, Execute, ReadFlag, Leave} && Enabled(s.cores[i], t)
         && s.halting[i].NotHalting?
       case Request(i, r) => i < n && IsHsm(r)
       case HaltCall(t) =>
         && t <= n && s.halting[t].NotHalting?
         && (if t < n then s.cores[t].thread.Exec? else s.debugger.Quiet?)
       case HaltLock(t) => t <= n && s.halting[t].WantsLock? && s.mutex.Free?
       case HaltNext(t) => t <= n && s.halting[t].Signalling? && s.halting[t].next < n
       case HaltUnlock(t) => t <= n && s.halting[t].Signalling? && s.halting[t].next >= n
       case Ask => DebuggerRuns(s) && s.debugger.Quiet?
       case AskNext => s.debugger.Asking? && s.debugger.next < n
       case AskDone => s.debugger.Answered? || (s.debugger.Asking? && s.debugger.next >= n)
       case ContinueCall(i) => DebuggerRuns(s) && s.debugger.Quiet? && i < n
       case ContinueGo =>
         s.debugger.ContinueOne? && s.debugger.core < n && Enabled(s.cores[s.debugger.core], Continue)
       case StepCall(i) => DebuggerRuns(s) && s.debugger.Quiet? && i < n
       case StepGo => s.debugger.StepOne? && s.debugger.core < n && Enabled(s.cores[s.debugger.core], StepBegin)
       case StepResume => s.debugger.InStep? && s.debugger.core < n && Enabled(s.cores[s.debugger.core], StepWake)
       case AllTryLock => DebuggerRuns(s) && s.debugger.Quiet?
       case AllCheck => s.debugger.CheckAll?
       case AllContinue =>
         s.debugger.ContinueAll? && s.debugger.next < n && Enabled(s.cores[s.debugger.next], Continue)
       case AllUnlock => s.debugger.ContinueAll? && s.debugger.next >= n
  }

  function OnCore(s: System, i: nat, t: Step): System
    requires i < |s.cores| && Enabled(s.cores[i], t)
  {
    s.(cores := s.cores[i := Apply(s.cores[i], t)])
  }

  function Next(s: System, e: Event): System
    requires Possible(s, e)
  {
    var n := |s.cores|;
    match e
    case ThreadStep(i, t) => OnCore(s, i, t)
    case Request(i, r) => OnCore(s, i, Hsm(r))
    case HaltCall(t) => s.(halting := s.halting[t := WantsLock])
    case HaltLock(t) => s.(halting := s.halting[t := Signalling(0)], mutex := Held(t))
    case HaltNext(t) =>
      var k := s.halting[t].next;
      OnCore(s, k, Halt).(halting := s.halting[t := Signalling(k + 1)])
    case HaltUnlock(t) => s.(halting := s.halting[t := NotHalting], mutex := Free)
    case Ask => s.(debugger := Asking(0))
    case AskNext =>
      s.(debugger := if s.cores[s.debugger.next].state == Halted then Asking(s.debugger.next + 1) else Answered(false))
    case AskDone => s.(debugger := if s.debugger.Asking? then Answered(true) else Quiet)
    case ContinueCall(i) => s.(debugger := if s.cores[i].state == Halted then ContinueOne(i) else Crashed)
    case ContinueGo => OnCore(s, s.debugger.core, Continue).(debugger := Quiet)
    case StepCall(i) => s.(debugger := if s.cores[i].state == Halted then StepOne(i) else Crashed)
    case StepGo => OnCore(s, s.debugger.core, StepBegin).(debugger := InStep(s.debugger.core))
    case StepResume =>
      var d := OnCore(s, s.debugger.core, StepWake);
      if d.cores[s.debugger.core].stepper.Idle? then d.(debugger := Quiet) else d
    case AllTryLock => if s.mutex.Free? then s.(debugger := CheckAll(0), mutex := Held(n)) else s
    case AllCheck =>
      s.(debugger := if s.debugger.next >= n then ContinueAll(0)
                     else if s.cores[s.debugger.next].state == Halted then CheckAll(s.debugger.next + 1)
                     else Crashed)
    case AllContinue =>
      OnCore(s, s.debugger.next, Continue).(debugger := ContinueAll(s.debugger.next + 1))
    case AllUnlock => s.(debugger := Quiet, mutex := Free)
  }

  /** All cores as threads_mgr_init leaves them: core 0 resumes started, the others stopped. */
  predicate Initial(s: System) {
    && |s.cores| > 0 && |s.halting| == |s.cores| + 1
    && (forall i :: 0 <= i < |s.cores| ==> s.cores[i] == Fresh(if i == 0 then StartS else StopS))
    && (forall t :: 0 <= t < |s.halting| ==> s.halting[t] == NotHalting)
    && s.mutex.Free?
    // without a debugger, main continues core 0 once and for all
    && (s.debugger == Quiet || s.debugger == ContinueOne(0))
  }

  // ----- the invariant

  predicate CoresInv(s: System) {
    forall i :: 0 <= i < |s.cores| ==> Inv(s.cores[i]) && (!s.cores[i].stepper.Idle? <==> s.debugger == InStep(i))
  }

  predicate AllHalted(s: System, lo: nat, hi: nat)
    requires hi <= |s.cores|
  {
    forall j :: lo <= j < hi ==> s.cores[j].state == Halted
  }

  predicate InsideMutex(s: System, t: nat)
    requires t < |s.halting|
  {
    s.halting[t].Signalling? || (t + 1 == |s.halting| && (s.debugger.CheckAll? || s.debugger.ContinueAll?))
  }

  /** The mutex is held exactly by the thread that is inside it. */
  predicate LockInv(s: System) {
    && |s.halting| == |s.cores| + 1
    && (forall t :: 0 <= t < |s.halting| ==> (InsideMutex(s, t) <==> s.mutex == Held(t)))
    && (forall t :: 0 <= t < |s.halting| && s.halting[t].Signalling? ==> s.halting[t].next <= |s.cores|)
    && (s.mutex.Held? ==> s.mutex.thread < |s.halting|)
    && (!s.halting[|s.cores|].NotHalting? ==> s.debugger.Quiet?)
  }

  /** A core thread that halts all cores does so from inside an instruction. */
  predicate CallersInv(s: System) {
    |s.halting| == |s.cores| + 1 &&
    forall t :: 0 <= t < |s.cores| && !s.halting[t].NotHalting? ==> s.cores[t].thread.Exec?
  }

  /** What the debugger has found out about the cores still holds. */
  predicate DebuggerInv(s: System) {
    var n := |s.cores|;
    match s.debugger
    case Asking(k) => k <= n && AllHalted(s, 0, k)
    case Answered(all) => all ==> AllHalted(s, 0, n)
    case ContinueOne(i) => i < n && s.cores[i].state == Halted
    case StepOne(i) => i < n && s.cores[i].state == Halted
    case InStep(i) => i < n
    case CheckAll(k) => k <= n && AllHalted(s, 0, k)
    case ContinueAll(k) => k <= n && AllHalted(s, k, n)
    case _ => true
  }

  /** A crash of the manager ends the process; until then all parts hold. */
  predicate SystemInv(s: System) {
    s.debugger.Crashed? || (CoresInv(s) && LockInv(s) && CallersInv(s) && DebuggerInv(s))
  }

  lemma SystemInvInit(s: System)
    requires Initial(s)
    ensures SystemInv(s)
  {}

  /**
    What a manager may rely on when one core takes a step: the step keeps the core's invariant, only the
    step call moves the stepper, only the core's own thread leaves the run loop, and nothing but a
    continue or a step call takes a core out of HALTED.
  */
  lemma CoreStepFacts(c: Core, t: Step)
    requires Inv(c) && Legal(c, t)
    ensures Inv(Apply(c, t))
    ensures t !in {StepBegin, StepWake} ==> (Apply(c, t).stepper.Idle? <==> c.stepper.Idle?)
    ensures t == StepBegin ==> !Apply(c, t).stepper.Idle?
    ensures t.Hsm? || t in {Halt, Continue, StepBegin, StepWake} ==> (Apply(c, t).thread.Exec? <==> c.thread.Exec?)
    ensures c.state == Halted && c.stepper.Idle? && t !in {Continue, StepBegin} ==> Apply(c, t).state == Halted
  {
    InvStep(c, t);
  }

  /** The core an event acts on and the step it takes there; no core for the other events. */
  function Acts(s: System, e: Event): (nat, Step)
    requires Possible(s, e)
  {
    match e
    case ThreadStep(i, t) => (i, t)
    case Request(i, r) => (i, Hsm(r))
    case HaltNext(t) => (s.halting[t].next, Halt)
    case ContinueGo => (s.debugger.core, Continue)
    case StepGo => (s.debugger.core, StepBegin)
    case StepResume => (s.debugger.core, StepWake)
    case AllContinue => (s.debugger.next, Continue)
    case _ => (|s.cores|, Halt)
  }

  /** Every continue the manager issues finds its core HALTED: the discipline CoreMachine asks for. */
  lemma ManagerIsDisciplined(s: System, e: Event)
    requires SystemInv(s) && Possible(s, e) && Acts(s, e).0 < |s.cores|
    ensures Legal(s.cores[Acts(s, e).0], Acts(s, e).1)
    ensures Acts(s, e).1 in {Continue, StepBegin} ==> s.cores[Acts(s, e).0].state == Halted
    ensures Next(s, e).cores == s.cores[Acts(s, e).0 := Apply(s.cores[Acts(s, e).0], Acts(s, e).1)]
  {}

  lemma CoresInvStep(s: System, e: Event)
    requires SystemInv(s) && Possible(s, e)
    ensures CoresInv(Next(s, e))
  {
    var (i, t) := Acts(s, e);
    if i < |s.cores| {
      ManagerIsDisciplined(s, e);
      CoreStepFacts(s.cores[i], t);
    } else {
      assert Next(s, e).cores == s.cores;
    }
  }

  lemma LockInvStep(s: System, e: Event)
    requires LockInv(s) && Possible(s, e)
    ensures Next(s, e).debugger.Crashed? || LockInv(Next(s, e))
  {
    assert forall t :: 0 <= t < |s.halting| ==> (InsideMutex(s, t) <==> s.mutex == Held(t));
    assert e.HaltUnlock? ==> InsideMutex(s, e.thread);
    assert e.AllUnlock? ==> InsideMutex(s, |s.cores|);
  }

  lemma CallersInvStep(s: System, e: Event)
    requires SystemInv(s) && Possible(s, e)
    ensures CallersInv(Next(s, e))
  {
    var (i, t) := Acts(s, e);
    if i < |s.cores| {
      ManagerIsDisciplined(s, e);
      CoreStepFacts(s.cores[i], t);
    }
  }

  /** The debugger itself takes core `j` out of HALTED with this event. */
  predicate Releases(s: System, e: Event, j: nat)
    requires Possible(s, e)
  {
    Acts(s, e) == (j, Continue) || Acts(s, e) == (j, StepBegin)
  }

  /** HALTED is stable under every event of every thread except the debugger's own continue and step. */
  lemma HaltedIsStable(s: System, e: Event, j: nat)
    requires SystemInv(s) && Possible(s, e) && j < |s.cores|
    requires s.cores[j].state == Halted && s.debugger != InStep(j) && !Releases(s, e, j)
    ensures |Next(s, e).cores| == |s.cores| && Next(s, e).cores[j].state == Halted
  {
    var (i, t) := Acts(s, e);
    if i < |s.cores| {
      ManagerIsDisciplined(s, e);
      CoreStepFacts(s.cores[i], t);
    }
  }

  ghost predicate KeepsHalted(s: System, e: Event)
    requires Possible(s, e)
  {
    && |Next(s, e).cores| == |s.cores|
    && forall j :: 0 <= j < |s.cores| && s.cores[j].state == Halted && s.debugger != InStep(j) && !Releases(s, e, j)
                   ==> Next(s, e).cores[j].state == Halted
  }

  predicate IsDebuggerEvent(e: Event) {
    !(e.ThreadStep? || e.Request? || e.HaltCall? || e.HaltLock? || e.HaltNext? || e.HaltUnlock?)
  }

  lemma DebuggerInvOthers(s: System, e: Event)
    requires DebuggerInv(s) && Possible(s, e) && KeepsHalted(s, e) && !IsDebuggerEvent(e)
    ensures DebuggerInv(Next(s, e))
  {
    var d := Next(s, e);
    assert d.debugger == s.debugger;
    assert forall j :: !Releases(s, e, j);
  }

  lemma DebuggerInvOwn(s: System, e: Event)
    requires DebuggerInv(s) && Possible(s, e) && KeepsHalted(s, e) && IsDebuggerEvent(e)
    ensures Next(s, e).debugger.Crashed? || DebuggerInv(Next(s, e))
  {}

  lemma SystemInvStep(s: System, e: Event)
    requires SystemInv(s) && Possible(s, e)
    ensures SystemInv(Next(s, e))
  {
    CoresInvStep(s, e);
    LockInvStep(s, e);
    CallersInvStep(s, e);
    forall j: nat | j < |s.cores| && s.cores[j].state == Halted && s.debugger != InStep(j) && !Releases(s, e, j)
      ensures Next(s, e).cores[j].state == Halted
    {
      HaltedIsStable(s, e, j);
    }
    if IsDebuggerEvent(e) { DebuggerInvOwn(s, e); } else { DebuggerInvOthers(s, e); }
  }

  // ----- whole runs

  ghost predicate Run(r: seq<System>, es: seq<Event>) {
    && |r| == |es| + 1 && Initial(r[0])
    && forall i :: 0 <= i < |es| ==> Possible(r[i], es[i]) && r[i + 1] == Next(r[i], es[i])
  }

  lemma {:induction false} RunSystemInv(r: seq<System>, es: seq<Event>, k: nat)
    requires Run(r, es) && k <= |es|
    ensures SystemInv(r[k])
  {
    if k == 0 {
      SystemInvInit(r[0]);
    } else {
      RunSystemInv(r, es, k - 1);
      SystemInvStep(r[k - 1], es[k - 1]);
    }
  }

  /**
    Safety of the whole machine, for any number of cores and every interleaving of core threads, HSM
    requests, halt-all calls and one debugger: no core breaks its invariant, every continue and step
    finds its core HALTED, and no halted core is running.
  */
  lemma {:induction false} SystemSafety(r: seq<System>, es: seq<Event>, k: nat, i: nat)
    requires Run(r, es) && k <= |es| && !r[k].debugger.Crashed? && i < |r[k].cores|
    ensures Inv(r[k].cores[i])
    ensures r[k].cores[i].state == Halted ==> !InRun(r[k].cores[i].thread)
    ensures r[k].cores[i].thread.Leaving? ==> r[k].cores[i].exit
    ensures k < |es| && Acts(r[k], es[k]).0 == i && Acts(r[k], es[k]).1 in {Continue, StepBegin} ==>
              r[k].cores[i].state == Halted
  {
    RunSystemInv(r, es, k);
    if k < |es| && Acts(r[k], es[k]).0 == i {
      ManagerIsDisciplined(r[k], es[k]);
    }
  }

  /** The one-by-one check of threads_mgr_are_halted is a snapshot: if it answers yes, all cores are halted at once. */
  lemma {:induction false} AnswerIsASnapshot(r: seq<System>, es: seq<Event>, k: nat)
    requires Run(r, es) && k <= |es| && r[k].debugger == Answered(true)
    ensures forall i :: 0 <= i < |r[k].cores| ==> r[k].cores[i].state == Halted
  {
    RunSystemInv(r, es, k);
  }

  /** Halting all and continuing all never interleave: at most one thread is inside the manager mutex. */
  lemma {:induction false} MutualExclusion(r: seq<System>, es: seq<Event>, k: nat, t: nat, u: nat)
    requires Run(r, es) && k <= |es| && !r[k].debugger.Crashed?
    requires t < |r[k].halting| && u < |r[k].halting| && InsideMutex(r[k], t) && InsideMutex(r[k], u)
    ensures t == u
  {
    RunSystemInv(r, es, k);
  }

  /** The core has been told to stop, or has stopped. */
  predicate Stopping(c: Core) { c.state == HaltPending || c.state == Halted }

  /** The debugger neither continues nor steps a core with this event, nor is it in the middle of a step. */
  predicate HandsOff(s: System, e: Event)
    requires Possible(s, e)
  {
    !s.debugger.InStep? && Acts(s, e).1 !in {Continue, StepBegin}
  }

  lemma StoppingIsStable(s: System, e: Event, j: nat)
    requires SystemInv(s) && Possible(s, e) && HandsOff(s, e) && j < |s.cores| && Stopping(s.cores[j])
    ensures |Next(s, e).cores| == |s.cores| && Stopping(Next(s, e).cores[j])
  {
    var (i, t) := Acts(s, e);
    if i < |s.cores| {
      ManagerIsDisciplined(s, e);
      CoreStepFacts(s.cores[i], t);
      StoppingStep(s.cores[i], t);
    }
  }

  lemma StoppingStep(c: Core, t: Step)
    requires Inv(c) && Legal(c, t) && c.stepper.Idle? && t !in {Continue, StepBegin}
    ensures Stopping(c) || t == Halt ==> Stopping(Apply(c, t))
  {}

  /** Thread `t` is halting all cores and has told all cores below its position. */
  predicate Reached(s: System, t: nat) {
    && t < |s.halting| == |s.cores| + 1
    && s.halting[t].Signalling? && s.halting[t].next <= |s.cores|
    && forall j :: 0 <= j < s.halting[t].next ==> Stopping(s.cores[j])
  }

  lemma ReachedStep(s: System, e: Event, t: nat)
    requires LockInv(s) && Possible(s, e) && Reached(s, t) && e != HaltUnlock(t)
    requires |Next(s, e).cores| == |s.cores|
    requires forall j :: 0 <= j < |s.cores| && Stopping(s.cores[j]) ==> Stopping(Next(s, e).cores[j])
    ensures Reached(Next(s, e), t)
  {
    assert InsideMutex(s, t) && forall u :: 0 <= u < |s.halting| ==> (InsideMutex(s, u) <==> s.mutex == Held(u));
    if e == HaltNext(t) {
      var k := s.halting[t].next;
      assert Next(s, e).cores[k] == ApplyHalt(s.cores[k]);
    }
  }

  lemma ReachedKept(s: System, e: Event, t: nat)
    requires SystemInv(s) && Possible(s, e) && HandsOff(s, e) && Reached(s, t) && e != HaltUnlock(t)
    ensures Reached(Next(s, e), t)
  {
    assert |Next(s, e).cores| == |s.cores|;
    forall j: nat | j < |s.cores| && Stopping(s.cores[j])
      ensures Stopping(Next(s, e).cores[j])
    {
      StoppingIsStable(s, e, j);
    }
    ReachedStep(s, e, t);
  }

  lemma ReachedStarts(s: System, t: nat)
    requires Possible(s, HaltLock(t))
    ensures Reached(Next(s, HaltLock(t)), t)
  {}

  /**
    A halt-all reaches every core: from taking the lock at `a` until any later point `b` at which thread
    `t` has got to core `next`, all cores below `next` are halted or about to halt, unless the debugger
    itself releases one of them.
  */
  lemma {:induction false} HaltAllReaches(r: seq<System>, es: seq<Event>, t: nat, a: nat, b: nat)
    requires Run(r, es) && a < b <= |es| && es[a] == HaltLock(t)
    requires forall i :: a < i < b ==> HandsOff(r[i], es[i]) && es[i] != HaltUnlock(t)
    ensures Reached(r[b], t)
  {
    if b > a + 1 {
      HaltAllReaches(r, es, t, a, b - 1);
      RunSystemInv(r, es, b - 1);
      ReachedKept(r[b - 1], es[b - 1], t);
    } else {
      ReachedStarts(r[a], t);
    }
  }

  // ----- the holder of the manager mutex never waits

  /** The event by which the holder goes on. */
  function HolderEvent(s: System, t: nat): Event
    requires t < |s.halting| == |s.cores| + 1 && InsideMutex(s, t)
  {
    if s.halting[t].Signalling? then
      if s.halting[t].next < |s.cores| then HaltNext(t) else HaltUnlock(t)
    else if s.debugger.CheckAll? then AllCheck
    else if s.debugger.next < |s.cores| then AllContinue
    else AllUnlock
  }

  function HolderDistance(s: System, t: nat): int
    requires t < |s.halting| == |s.cores| + 1 && InsideMutex(s, t)
  {
    var n := |s.cores|;
    if s.halting[t].Signalling? then n - s.halting[t].next + 1
    else if s.debugger.CheckAll? then 2 * n - s.debugger.next + 2
    else n - s.debugger.next + 1
  }

  /** It can always go on, whatever the core mutexes and the other threads do, and it comes closer to unlocking. */
  lemma HolderProgress(s: System, t: nat)
    requires SystemInv(s) && !s.debugger.Crashed? && s.mutex == Held(t)
    ensures t < |s.halting| == |s.cores| + 1 && InsideMutex(s, t)
    ensures Possible(s, HolderEvent(s, t)) && HolderDistance(s, t) > 0
    ensures
      var d := Next(s, HolderEvent(s, t));
      || d.mutex.Free? || d.debugger.Crashed?
      || (d.mutex == Held(t) && InsideMutex(d, t) && HolderDistance(d, t) < HolderDistance(s, t))
  {
    if s.debugger.ContinueAll? && s.debugger.next < |s.cores| {
      assert s.cores[s.debugger.next].stepper.Idle?;
    }
  }

  /** Nobody else moves it away. */
  lemma HolderUndisturbed(s: System, t: nat, e: Event)
    requires SystemInv(s) && Possible(s, e) && s.mutex == Held(t)
    requires t < |s.halting| && InsideMutex(s, t) && e != HolderEvent(s, t)
    ensures Next(s, e).mutex == Held(t) && InsideMutex(Next(s, e), t)
    ensures HolderDistance(Next(s, e), t) == HolderDistance(s, t)
  {
    assert forall u :: 0 <= u < |s.halting| ==> (InsideMutex(s, u) <==> s.mutex == Held(u));
    assert InsideMutex(s, |s.cores|) <==> t == |s.cores|;
    assert e.HaltUnlock? || e.HaltNext? ==> InsideMutex(s, e.thread);
  }
}
