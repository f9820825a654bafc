/**
  The run/stop/halt/step protocol of one core, as a transition system.

  A core is driven by one thread (the loop around cthread_fsm) and by signallers: other cores
  sending HSM requests and halts, and the debugger sending continue and step. Every critical
  section of the core mutex is one transition, split at each condition-variable wait; the lock-free
  run loop is split into executing an instruction and reading the exit flag. Waits may wake up
  spuriously. The `executed` counter is a history variable.
*/
module CoreMachine {

  /** The states of a core: the seven HSM states of the SBI specification and four debug states. */
  datatype State =
    | Started | Stopped | StartPending | StopPending
    | Suspended | SuspendPending | ResumePending
    | Halted | Stepping | HaltPending | ContinuePending

  datatype Signal = StartS | StopS | SuspendS | HaltS | StepS

  /** Where the core thread is. `stepping` tells the run entered from STEP from the one from START. */
  datatype ThreadLoc =
    | Ready                                  // about to lock the mutex and dispatch on the signal
    | Parked(on: Signal, notified: bool)     // in cond_wait(cond_signal)
    | Exec(stepping: bool)                   // in the run loop, about to execute an instruction
    | Check(stepping: bool)                  // in the run loop, about to read the exit flag
    | Leaving(stepping: bool)                // the run loop returned, the mutex is not yet locked

  /** Where the debugger is inside the step call of this core. */
  datatype StepperLoc =
    | Idle
    | AwaitStepping(notified: bool)          // in cond_wait(cond_state) for STEPPING
    | AwaitHalted(notified: bool)            // in cond_wait(cond_state) for HALTED

  datatype Core = Core(
    state: State,
    signal: Signal,
    buffered: Signal,            // the HSM signal to resume with
    exit: bool,             // atomic_exit_loop
    thread: ThreadLoc,
    stepper: StepperLoc,
    executed: nat)

  datatype Step =
    | Hsm(request: Signal) | Halt | Continue      // signallers
    | StepBegin | StepWake                        // the debugger inside the step call
    | Dispatch | Wake | Execute | ReadFlag | Leave // the core thread

  predicate IsHsm(s: Signal) { s in {StartS, StopS, SuspendS} }

  /** The state that acknowledges a signal: the cast from signal to state. */
  function Target(s: Signal): State {
    match s
    case StartS => Started
    case StopS => Stopped
    case SuspendS => Suspended
    case HaltS => Halted
    case StepS => Stepping
  }

  /** The states in which an HSM request is buffered instead of taken. */
  predicate Debugging(s: State) { s in {Halted, HaltPending, ContinuePending, Stepping} }

  predicate InRun(t: ThreadLoc) { t.Exec? || t.Check? || t.Leaving? }

  function NotifyThread(c: Core): Core {
    if c.thread.Parked? then c.(thread := c.thread.(notified := true)) else c
  }

  function NotifyStepper(c: Core): Core {
    if c.stepper.Idle? then c else c.(stepper := c.stepper.(notified := true))
  }

  // ----- signallers

  /** An HSM request is taken when it starts a resting core or stops or suspends a started one. */
  predicate Takes(s: State, request: Signal) {
    if request == StartS then s == Stopped || s == Suspended else s == Started
  }

  /** The buffered signal accepts a request when the HSM it stands for would. */
  predicate Buffers(buffered: Signal, request: Signal) {
    if request == StartS then buffered == StopS || buffered == SuspendS else buffered == StartS
  }

  function PendingState(s: State, request: Signal): State {
    match request
    case StartS => if s == Stopped then StartPending else ResumePending
    case StopS => StopPending
    case _ => SuspendPending
  }

  function ApplyHsm(c: Core, request: Signal): Core
    requires IsHsm(request)
  {
    if Takes(c.state, request) then
      NotifyThread(c.(signal := request, buffered := request, exit := request != StartS,
                      state := PendingState(c.state, request)))
    else if Debugging(c.state) && Buffers(c.buffered, request) then
      c.(buffered := request)
    else
      c
  }

  /** Continue restores the buffered signal. It is also accepted while a halt is pending. */
  function ApplyContinue(c: Core): Core {
    if c.state == Halted || c.state == HaltPending then
      NotifyThread(c.(signal := c.buffered, exit := c.buffered != StartS, state := ContinuePending))
    else
      c
  }

  function ApplyHalt(c: Core): Core {
    if c.state == Halted || c.state == HaltPending then c
    else NotifyThread(c.(signal := HaltS, state := HaltPending, exit := true))
  }

  function ApplyStepBegin(c: Core): Core {
    NotifyThread(c.(signal := StepS, exit := true, stepper := AwaitStepping(false)))
  }

  function ApplyStepWake(c: Core): Core
    requires !c.stepper.Idle?
  {
    match c.stepper
    case AwaitStepping(_) =>
      if c.state == Stepping then NotifyThread(c.(signal := HaltS, stepper := AwaitHalted(false)))
      else c.(stepper := AwaitStepping(false))
    case AwaitHalted(_) =>
      c.(stepper := if c.state == Halted then Idle else AwaitHalted(false))
  }

  // ----- the core thread

  /** One round of the wait loop: acknowledge the signal if that is still to be done, then wait. */
  function WaitOn(c: Core, on: Signal): Core {
    var acked := if c.state != Target(on) then NotifyStepper(c.(state := Target(on))) else c;
    acked.(thread := Parked(on, false))
  }

  function ApplyDispatch(c: Core): Core {
    match c.signal
    case StartS => NotifyStepper(c.(exit := false, state := Started)).(thread := Exec(false))
    case StepS => WaitOn(c.(exit := true), StepS)
    case s => WaitOn(c, s)
  }

  function ApplyWake(c: Core): Core
    requires c.thread.Parked?
  {
    if c.signal == c.thread.on then WaitOn(c, c.thread.on)
    else if c.thread.on == StepS && c.buffered == StartS then c.(thread := Exec(true))
    else c.(thread := Ready)
  }

  // ----- the transition system of one core

  predicate Enabled(c: Core, s: Step) {
    match s
    case Hsm(r) => IsHsm(r)
    case Halt => true
    case Continue => c.stepper.Idle?
    case StepBegin => c.stepper.Idle? && c.state == Halted
    case StepWake => !c.stepper.Idle?
    case Dispatch => c.thread.Ready?
    case Wake => c.thread.Parked?
    case Execute => c.thread.Exec?
    case ReadFlag => c.thread.Check?
    case Leave => c.thread.Leaving?
  }

  function Apply(c: Core, s: Step): Core
    requires Enabled(c, s)
  {
    match s
    case Hsm(r) => ApplyHsm(c, r)
    case Halt => ApplyHalt(c)
    case Continue => ApplyContinue(c)
    case StepBegin => ApplyStepBegin(c)
    case StepWake => ApplyStepWake(c)
    case Dispatch => ApplyDispatch(c)
    case Wake => ApplyWake(c)
    case Execute => c.(thread := Check(c.thread.stepping), executed := c.executed + 1)
    case ReadFlag => c.(thread := if c.exit then Leaving(c.thread.stepping) else Exec(c.thread.stepping))
    case Leave => c.(thread := Ready)
  }

  /** The core as cthread_init leaves it, with the HSM signal it will resume with. */
  function Fresh(resume: Signal): Core
  {
    Core(Halted, HaltS, resume, false, Ready, Idle, 0)
  }

  /** The debugger continues a core only when the core is not on its way to a halt. */
  predicate Disciplined(c: Core, s: Step) { s == Continue ==> c.state != HaltPending }

  predicate Legal(c: Core, s: Step) { Enabled(c, s) && Disciplined(c, s) }

  // ----- the inductive invariant

  /** Each state carries the signal that leads to it, or that it is leaving for. */
  predicate Paired(c: Core) {
    && IsHsm(c.buffered)
    && match c.state
       case Started | StartPending | ResumePending => c.signal == StartS
       case Stopped | StopPending => c.signal == StopS
       case Suspended | SuspendPending => c.signal == SuspendS
       case HaltPending => c.signal == HaltS
       case Halted | Stepping => c.signal == HaltS || c.signal == StepS
       case ContinuePending => IsHsm(c.signal)
  }

  /** The exit flag is clear exactly when the signal is START. */
  predicate FlagAgrees(c: Core) { c.exit == (c.signal != StartS) }

  /** A core nobody has signalled since its initialisation. */
  predicate Untouched(c: Core) {
    && c.state == Halted && c.signal == HaltS && c.stepper.Idle?
    && (c.thread.Ready? || c.thread == Parked(HaltS, false) || c.thread == Parked(HaltS, true))
  }

  /** What the core's state can be, given where its thread is. */
  predicate Located(c: Core) {
    match c.thread
    case Ready => c.state !in {Started, Stopped, Suspended} && !(c.state == Stepping && c.signal == StepS)
    case Parked(on, notified) =>
      && (!notified ==> c.signal == on && c.state == Target(on))
      && (match on
          case StartS => false
          case StopS => c.state in {Stopped, StartPending, HaltPending}
          case SuspendS => c.state in {Suspended, ResumePending, HaltPending}
          case HaltS => c.state in {Halted, ContinuePending, HaltPending}
          case StepS => c.state in {Stepping, HaltPending})
    case Exec(stepping) => RunState(c, stepping)
    case Check(stepping) => RunState(c, stepping)
    case Leaving(stepping) => RunState(c, stepping) && c.state != Started
  }

  predicate RunState(c: Core, stepping: bool) {
    if stepping then c.state in {Stepping, HaltPending} && c.signal == HaltS
    else c.state in {Started, StopPending, SuspendPending, HaltPending}
  }

  /** A step call in which a halt arrived before the debugger saw STEPPING: it never returns. */
  predicate Stuck(c: Core) {
    c.stepper.AwaitStepping? && c.signal == HaltS && (c.state == HaltPending || c.state == Halted)
  }

  /** What the core's state can be, given where the debugger is in the step call. */
  predicate StepperLocated(c: Core) {
    match c.stepper
    case Idle => c.signal != StepS && c.state != Stepping && !(c.thread.Parked? && c.thread.on == StepS)
    case AwaitStepping(notified) =>
      || (c.state == Halted && c.signal == StepS)
      || (c.state == Stepping && c.signal == StepS && notified && c.thread.Parked? && c.thread.on == StepS)
      || Stuck(c)
    case AwaitHalted(notified) =>
      && c.signal == HaltS
      && (c.state in {Stepping, HaltPending} || (c.state == Halted && notified))
  }

  predicate Inv(c: Core) {
    && Paired(c)
    && (FlagAgrees(c) || (!c.exit && Untouched(c)))
    && Located(c)
    && StepperLocated(c)
  }

  lemma InvInit(resume: Signal)
    requires IsHsm(resume)
    ensures Inv(Fresh(resume))
  {}

  lemma InvHsm(c: Core, request: Signal)
    requires Inv(c) && IsHsm(request)
    ensures Inv(ApplyHsm(c, request))
  {}

  lemma InvDebug(c: Core, s: Step)
    requires Inv(c) && Legal(c, s) && s in {Halt, Continue, StepBegin, StepWake}
    ensures Inv(Apply(c, s))
  {}

  lemma InvDispatch(c: Core)
    requires Inv(c) && c.thread.Ready?
    ensures Inv(ApplyDispatch(c))
  {}

  lemma InvWake(c: Core)
    requires Inv(c) && c.thread.Parked?
    ensures Inv(ApplyWake(c))
  {}

  lemma InvInRun(c: Core, s: Step)
    requires Inv(c) && Legal(c, s) && s in {Execute, ReadFlag, Leave}
    ensures Inv(Apply(c, s))
  {}

  lemma InvThread(c: Core, s: Step)
    requires Inv(c) && Legal(c, s) && s in {Dispatch, Wake, Execute, ReadFlag, Leave}
    ensures Inv(Apply(c, s))
  {
    if s == Dispatch { InvDispatch(c); } else if s == Wake { InvWake(c); } else { InvInRun(c, s); }
  }

  /** The invariant is kept by every critical section of every party. */
  lemma InvStep(c: Core, s: Step)
    requires Inv(c) && Legal(c, s)
    ensures Inv(Apply(c, s))
  {
    match s
    case Hsm(r) => InvHsm(c, r);
    case Halt | Continue | StepBegin | StepWake => InvDebug(c, s);
    case _ => InvThread(c, s);
  }

  // ----- whole runs

  /** `r` is the sequence of states visited by taking the steps `ss`. */
  ghost predicate Run(r: seq<Core>, ss: seq<Step>) {
    && |r| == |ss| + 1
    && forall i :: 0 <= i < |ss| ==> Legal(r[i], ss[i]) && r[i + 1] == Apply(r[i], ss[i])
  }

  lemma {:induction false} RunInv(r: seq<Core>, ss: seq<Step>, k: nat)
    requires Run(r, ss) && Inv(r[0]) && k <= |ss|
    ensures Inv(r[k])
  {
    if k > 0 {
      RunInv(r, ss, k - 1);
      InvStep(r[k - 1], ss[k - 1]);
    }
  }

  /**
    Safety of every interleaving: state and signal stay paired, a halted core is not running, a
    running core is in one of five states, leaving the run loop finds the exit flag set (the hot-loop
    assertion) and the buffered signal is never a debug signal (the assertion of continue).
  */
  lemma {:induction false} RunSafety(resume: Signal, r: seq<Core>, ss: seq<Step>, k: nat)
    requires IsHsm(resume) && Run(r, ss) && r[0] == Fresh(resume) && k <= |ss|
    ensures Paired(r[k])
    ensures r[k].state == Halted ==> !InRun(r[k].thread)
    ensures InRun(r[k].thread) ==> r[k].state in {Started, StopPending, SuspendPending, HaltPending, Stepping}
    ensures r[k].thread.Leaving? ==> r[k].exit
    ensures r[k].buffered !in {HaltS, StepS}
  {
    InvInit(resume);
    RunInv(r, ss, k);
  }

  /** A thread that waits without a pending notification waits for a change that has not happened. */
  lemma {:induction false} NoLostWakeup(resume: Signal, r: seq<Core>, ss: seq<Step>, k: nat)
    requires IsHsm(resume) && Run(r, ss) && r[0] == Fresh(resume) && k <= |ss|
    ensures r[k].thread.Parked? && !r[k].thread.notified ==>
              r[k].signal == r[k].thread.on && r[k].state == Target(r[k].thread.on)
  {
    InvInit(resume);
    RunInv(r, ss, k);
  }

  /** A step that a signaller's call really performs, as opposed to one it ignores or buffers. */
  predicate Performed(c: Core, s: Step) {
    match s
    case Hsm(r) => Takes(c.state, r)
    case Halt => c.state != Halted && c.state != HaltPending
    case Continue => c.state == Halted || c.state == HaltPending
    case StepBegin => true
    case _ => false
  }

  lemma FlagStep(c: Core, s: Step)
    requires Inv(c) && Legal(c, s) && (FlagAgrees(c) || Performed(c, s))
    ensures FlagAgrees(Apply(c, s))
  {}

  /** From the first performed signal on, the exit flag is clear exactly when the signal is START. */
  lemma {:induction false} RunFlag(resume: Signal, r: seq<Core>, ss: seq<Step>, first: nat, k: nat)
    requires IsHsm(resume) && Run(r, ss) && r[0] == Fresh(resume)
    requires first < k <= |ss| && Performed(r[first], ss[first])
    ensures FlagAgrees(r[k])
  {
    InvInit(resume);
    RunInv(r, ss, k - 1);
    if first < k - 1 {
      RunFlag(resume, r, ss, first, k - 1);
    }
    FlagStep(r[k - 1], ss[k - 1]);
  }

  /** Before it, the flag is still clear although the signal is HALT. */
  lemma {:induction false} RunFlagBefore(resume: Signal, r: seq<Core>, ss: seq<Step>, k: nat)
    requires IsHsm(resume) && Run(r, ss) && r[0] == Fresh(resume) && k <= |ss|
    requires forall i :: 0 <= i < k ==> !Performed(r[i], ss[i])
    ensures !r[k].exit && Untouched(r[k])
  {
    if k > 0 {
      RunFlagBefore(resume, r, ss, k - 1);
      assert !Performed(r[k - 1], ss[k - 1]);
    }
  }

  /** Without the discipline the hot-loop assertion can fail: a continue accepted while a halt is pending. */
  lemma ContinueWhileHaltPendingBreaksTheRun()
    ensures
      var parked := Apply(Fresh(StartS), Dispatch);
      var woken := Apply(Apply(parked, Continue), Wake);
      var running := Apply(Apply(woken, Dispatch), Execute);
      var halting := Apply(running, Halt);
      var leaving := Apply(halting, ReadFlag);
      var resumed := Apply(leaving, Continue);
      && Legal(Fresh(StartS), Dispatch) && Legal(parked, Continue) && Legal(woken, Dispatch)
      && Legal(running, Halt) && Legal(halting, ReadFlag)
      && Enabled(leaving, Continue) && !Disciplined(leaving, Continue)
      && resumed.thread == Leaving(false) && !resumed.exit
  {}

  /** What the run loop relies on at every point. */
  predicate RunsSafely(c: Core) {
    && (InRun(c.thread) ==> c.state in {Started, StopPending, SuspendPending, HaltPending, Stepping})
    && (c.thread.Leaving? ==> c.exit)
  }

  /** So the state a caller sees decides: a continue is safe in every core of that state unless a halt is pending. */
  lemma ContinueIsSafeExactly(st: State)
    ensures (forall c: Core :: Inv(c) && c.state == st && Enabled(c, Continue) ==> RunsSafely(Apply(c, Continue)))
            <==> st != HaltPending
  {
    if st == HaltPending {
      var leaving := Core(HaltPending, HaltS, StartS, true, Leaving(false), Idle, 1);
      assert Inv(leaving) && Enabled(leaving, Continue) && !RunsSafely(Apply(leaving, Continue));
    } else {
      forall c: Core | Inv(c) && c.state == st && Enabled(c, Continue)
        ensures RunsSafely(Apply(c, Continue))
      {
        InvStep(c, Continue);
      }
    }
  }
}
