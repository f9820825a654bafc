/**
  The debugger's way from a halted machine back to a running one: a step over of some cores, one after the
  other, checks in between, and then a continue of one core or of all. No check of the manager fails on it.
*/
module ContinueAll {
  import opened Partial
  import opened Traces
  import opened CoreMachine
  import opened Manager
  import opened Projection
  import opened StepHandshake
  import opened SystemRuns

  /** An event up to the point where the debugger lets go: a single continue, or the end of a continue-all. */
  predicate HeldMoves(s: System, e: Event, s': System) { Moves(s, e, s') && e != ContinueGo && e != AllUnlock }

  /** All cores are halted, but for the one being stepped or those a continue-all has already passed. */
  predicate Held(s: System) {
    && SystemInv(s)
    && match s.debugger
       case Crashed => false
       case InStep(c) => Alone(s, c) && InHandshake(s.cores[c])
       case ContinueAll(_) => true
       case _ => AllHalted(s, 0, |s.cores|)
  }

  /** While all cores are halted nobody but the debugger can be inside the manager mutex. */
  lemma MutexIsFree(s: System)
    requires Still(s) && DebuggerRuns(s) && s.debugger.Quiet?
    ensures s.mutex.Free?
  {
    forall t | 0 <= t < |s.halting|
      ensures !InsideMutex(s, t)
    {
      if t < |s.cores| { HaltedDoesNotHalt(s, t); }
    }
  }

  /** A continue-all issued then begins: the try-lock does not find the mutex busy. */
  lemma ContinueAllBegins(s: System)
    requires Still(s) && Possible(s, AllTryLock)
    ensures Next(s, AllTryLock).debugger == CheckAll(0)
  {
    MutexIsFree(s);
  }

  /** Over halted cores no event of anybody makes the manager crash. */
  lemma StillNeverCrashes(s: System, e: Event)
    requires Still(s) && Possible(s, e)
    ensures !Next(s, e).debugger.Crashed?
  {}

  lemma NoCrashElsewhere(s: System, e: Event)
    requires SystemInv(s) && Possible(s, e) && (s.debugger.InStep? || s.debugger.ContinueAll?)
    ensures !Next(s, e).debugger.Crashed?
  {}

  /** During a step call: the call goes on or has returned, and then all cores are halted again. */
  lemma HeldInStep(s: System, e: Event, c: nat)
    requires Alone(s, c) && InHandshake(s.cores[c]) && s.debugger == InStep(c) && Possible(s, e)
    ensures Held(Next(s, e))
  {
    var d := Next(s, e);
    AloneStep(s, e, d, c);
    EventProjects(s, e, c);
    NoCrashElsewhere(s, e);
    if Touch(s, e, c).Some? {
      NoHaltInTheWindow(s, e, d, c);
      HandshakeStep(s.cores[c], Touch(s, e, c).value);
    }
    StepCallEnds(s, e, c);
  }

  /** The debugger leaves the step call exactly when the core's side of it is over. */
  lemma StepCallEnds(s: System, e: Event, c: nat)
    requires Sound(s, c) && s.debugger == InStep(c) && Possible(s, e)
    ensures Next(s, e).debugger == if CoreAt(Next(s, e), c).stepper.Idle? then Quiet else InStep(c)
  {
    CoresInvStep(s, e);
    SameCores(s, e);
  }

  /** From halted cores: the debugger's next event, of a check, a step or a continue-all, keeps the machine held. */
  lemma HeldFromStill(s: System, e: Event)
    requires Still(s) && !s.debugger.Crashed? && Possible(s, e) && e != ContinueGo && e != AllUnlock
    requires !s.debugger.InStep? && !s.debugger.ContinueAll?
    ensures Held(Next(s, e))
  {
    SystemInvStep(s, e);
    StillNeverCrashes(s, e);
    if e == StepGo {
      StepGoPosts(s);
    } else {
      StillUnlessReleased(s, e);
    }
  }

  lemma StillUnlessReleased(s: System, e: Event)
    requires Still(s) && Possible(s, e) && e != ContinueGo && e != StepGo && e != AllContinue && e != StepResume
    requires !s.debugger.InStep?
    ensures AllHalted(Next(s, e), 0, |Next(s, e).cores|)
  {
    SameCores(s, e);
    forall j: nat | j < |s.cores|
      ensures Next(s, e).cores[j].state == Halted
    {
      HaltedIsStable(s, e, j);
    }
  }

  lemma HeldInContinueAll(s: System, e: Event)
    requires SystemInv(s) && s.debugger.ContinueAll? && Possible(s, e) && e != AllUnlock
    ensures Held(Next(s, e))
  {
    SystemInvStep(s, e);
    NoCrashElsewhere(s, e);
    StaysInContinueAll(s, e);
  }

  lemma StaysInContinueAll(s: System, e: Event)
    requires SystemInv(s) && s.debugger.ContinueAll? && Possible(s, e) && e != AllUnlock
    ensures Next(s, e).debugger.ContinueAll?
  {}

  lemma HeldStep(s: System, e: Event, s': System)
    requires Held(s) && HeldMoves(s, e, s')
    ensures Held(s')
  {
    match s.debugger
    case InStep(c) => HeldInStep(s, e, c);
    case ContinueAll(_) => HeldInContinueAll(s, e);
    case _ => HeldFromStill(s, e);
  }

  /**
    From a halted machine, whatever checks, steps and step-overs the debugger makes and whatever the other
    threads do: up to the end of the continue that follows no check of the manager fails.
  */
  lemma HeldMachineNeverCrashes(r: seq<System>, es: seq<Event>, k: nat)
    requires IsPath(HeldMoves, r, es) && Held(r[0]) && k <= |es|
    ensures Held(r[k]) && !r[k].debugger.Crashed?
  {
    forall s, e, s' | Held(s) && HeldMoves(s, e, s')
      ensures Held(s')
    {
      HeldStep(s, e, s');
    }
    PathKeeps(HeldMoves, Held, r, es, k);
  }

  /** The machine is held when it is initialised, and after every check that answers yes. */
  lemma HeldAtFirst(s: System)
    requires Initial(s)
    ensures Held(s)
  {
    SystemInvInit(s);
  }

  lemma HeldAfterYes(r: seq<System>, es: seq<Event>, k: nat)
    requires Manager.Run(r, es) && k <= |es| && r[k].debugger == Answered(true)
    ensures Held(r[k])
  {
    RunSystemInv(r, es, k);
    AnswerIsASnapshot(r, es, k);
  }

  // ----- outside a held machine

  /** The core whose HALTED state the event checks before it goes on. */
  function Tests(s: System, e: Event): Option<nat> {
    match e
    case StepCall(i) => Some(i)
    case ContinueCall(i) => Some(i)
    case AllCheck =>
      if s.debugger.CheckAll? && s.debugger.next < |s.cores| then Some(s.debugger.next) else None
    case _ => None
  }

  /** A test fails: the core it looks at is not HALTED. */
  predicate TestFails(s: System, e: Event) {
    Tests(s, e).Some? && CoreAt(s, Tests(s, e).value).state != Halted
  }

  /** An event makes the manager crash exactly if it is a test of a core that is not HALTED. */
  lemma CrashExactly(s: System, e: Event)
    requires Possible(s, e)
    ensures Next(s, e).debugger.Crashed? <==> TestFails(s, e)
  {}

  /** Whatever commands are given: no crash if and only if every core is HALTED by the time it is tested. */
  lemma {:induction false} SafeIffTestedHalted(r: seq<System>, es: seq<Event>, k: nat)
    requires Path(r, es) && !r[0].debugger.Crashed? && k <= |es|
    ensures !r[k].debugger.Crashed? <==> forall j :: 0 <= j < k ==> !TestFails(r[j], es[j])
  {
    if k > 0 {
      SafeIffTestedHalted(r, es, k - 1);
      assert Moves(r[k - 1], es[k - 1], r[k - 1 + 1]);
      CrashExactly(r[k - 1], es[k - 1]);
    }
  }

  /**
    The case a caller can see: after a check that answered yes, no command crashes up to the end of the continue
    that lets the machine go.
  */
  lemma SafeAfterYes(r: seq<System>, es: seq<Event>, k: nat, held: seq<System>, commands: seq<Event>)
    requires Manager.Run(r, es) && k <= |es| && r[k].debugger == Answered(true)
    requires IsPath(HeldMoves, held, commands) && held[0] == r[k]
    ensures !held[|commands|].debugger.Crashed?
  {
    HeldAfterYes(r, es, k);
    HeldMachineNeverCrashes(held, commands, |commands|);
  }

  /** A machine of one core, with the debugger's own halt-all at `h`. */
  function OneCore(c: Core, h: HaltLoc, d: Debugger, mutex: Owner): System { System([c], [NotHalting, h], d, mutex) }

  const Started0: Core := CoreMachine.Fresh(StartS)

  /** Continued, and told to halt again before its thread has moved. */
  const Hasty: System := OneCore(ApplyHalt(ApplyContinue(Started0)), NotHalting, Quiet, Owner.Free)

  /** The run: the debugger continues the core and halts all cores, without waiting for the acknowledgement. */
  lemma HasteIsReached() returns (r: seq<System>, es: seq<Event>)
    ensures Manager.Run(r, es) && r[|es|] == Hasty
  {
    r, es := ContinueIsReached();
    var c := ApplyContinue(Started0);
    r, es := Then(r, es, HaltCall(1), OneCore(c, WantsLock, Quiet, Owner.Free));
    r, es := Then(r, es, HaltLock(1), OneCore(c, Signalling(0), Quiet, Owner.Held(1)));
    r, es := Then(r, es, HaltNext(1), OneCore(ApplyHalt(c), Signalling(1), Quiet, Owner.Held(1)));
    r, es := Then(r, es, HaltUnlock(1), Hasty);
  }

  lemma ContinueIsReached() returns (r: seq<System>, es: seq<Event>)
    ensures Manager.Run(r, es) && r[|es|] == OneCore(ApplyContinue(Started0), NotHalting, Quiet, Owner.Free)
  {
    r, es := [OneCore(Started0, NotHalting, Quiet, Owner.Free)], [];
    r, es := Then(r, es, ContinueCall(0), OneCore(Started0, NotHalting, ContinueOne(0), Owner.Free));
    r, es := Then(r, es, ContinueGo, OneCore(ApplyContinue(Started0), NotHalting, Quiet, Owner.Free));
  }

  lemma Then(r: seq<System>, es: seq<Event>, e: Event, s: System) returns (r': seq<System>, es': seq<Event>)
    requires Manager.Run(r, es) && Possible(r[|es|], e) && s == Next(r[|es|], e)
    ensures Manager.Run(r', es') && r'[|es'|] == s
  {
    r', es' := r + [s], es + [e];
    forall i | 0 <= i < |es'|
      ensures Possible(r'[i], es'[i]) && r'[i + 1] == Next(r'[i], es'[i])
    {
      if i < |es| { assert Possible(r[i], es[i]) && r[i + 1] == Next(r[i], es[i]); }
    }
  }

  /** A step, a continue or a continue-all that follows at once finds the core in HALT_PENDING and crashes. */
  lemma CommandsInHasteCrash()
    ensures Possible(Hasty, StepCall(0)) && Next(Hasty, StepCall(0)).debugger.Crashed?
    ensures Possible(Hasty, ContinueCall(0)) && Next(Hasty, ContinueCall(0)).debugger.Crashed?
    ensures Possible(Hasty, AllTryLock) && Possible(Next(Hasty, AllTryLock), AllCheck)
    ensures Next(Next(Hasty, AllTryLock), AllCheck).debugger.Crashed?
  {}
}
