/**
  The core record and the threads manager as the program writes them: methods that update the fields
  of one core inside its mutex, one method per critical section, and loops over all cores. Each is
  proved to perform the transition of CoreMachine that the interleaving proofs are about.
*/
module Cthread {
  import opened CoreMachine
  import HsmRefinement

  class CoreThread {
    var state: State
    var signal: Signal
    var oldSignal: Signal
    var exitLoop: bool
    var thread: ThreadLoc
    var stepper: StepperLoc
    ghost var executed: nat

    ghost function View(): Core
      reads this
    {
      Core(state, signal, oldSignal, exitLoop, thread, stepper, executed)
    }

    constructor (initial: Signal)
      requires IsHsm(initial)
      ensures View() == Fresh(initial) && Inv(View())
    {
      oldSignal := initial;
      signal := HaltS;
      state := Halted;
      exitLoop := false;
      thread := Ready;
      stepper := Idle;
      executed := 0;
    }

    /** pthread_cond_signal(cond_signal) */
    method SignalThread()
      modifies this`thread
      ensures View() == NotifyThread(old(View()))
    {
      if thread.Parked? { thread := thread.(notified := true); }
    }

    /** pthread_cond_signal(cond_state) */
    method SignalStepper()
      modifies this`stepper
      ensures View() == NotifyStepper(old(View()))
    {
      if !stepper.Idle? { stepper := stepper.(notified := true); }
    }

    method SignalHsm(request: Signal)
      requires IsHsm(request)
      modifies this
      ensures View() == ApplyHsm(old(View()), request)
    {
      var current := state;
      var next := current;
      var leave, save := false, false;
      match request {
        case StartS =>
          if oldSignal == StopS || oldSignal == SuspendS { save := true; }
          if current != Stopped && current != Suspended {
            leave := true;
          } else {
            next := if state == Stopped then StartPending else ResumePending;
          }
        case _ =>
          if oldSignal == StartS { save := true; }
          if current != Started { leave := true; }
          if request == StopS { next := StopPending; }
          if request == SuspendS { next := SuspendPending; }
      }
      if current == Halted || current == HaltPending || current == ContinuePending || current == Stepping {
        if save { oldSignal := request; }
      }
      if leave { return; }
      signal := request;
      oldSignal := request;
      state := next;
      exitLoop := request != StartS;
      SignalThread();
    }

    /** `ok` is false when the assertion about the buffered signal fires. */
    method SignalContinue() returns (ok: bool)
      modifies this
      ensures ok ==> View() == ApplyContinue(old(View()))
      ensures !ok ==> View() == old(View())
      ensures IsHsm(old(oldSignal)) ==> ok
    {
      if state != Halted && state != HaltPending { return true; }
      if oldSignal == HaltS || oldSignal == StepS { return false; }
      signal := oldSignal;
      if signal == StartS { exitLoop := false; } else { exitLoop := true; }
      state := ContinuePending;
      SignalThread();
      return true;
    }

    method SignalHalt()
      modifies this
      ensures View() == ApplyHalt(old(View()))
    {
      if state == Halted || state == HaltPending { return; }
      signal := HaltS;
      state := HaltPending;
      exitLoop := true;
      SignalThread();
    }

    /** The step call up to its first wait; `ok` is false when the core is not halted and the call asserts. */
    method StepEnter() returns (ok: bool)
      requires stepper.Idle?
      modifies this
      ensures ok <==> old(state) == Halted
      ensures View() == if ok then ApplyStepBegin(old(View())) else old(View())
    {
      if state != Halted { return false; }
      signal := StepS;
      SignalThread();
      exitLoop := true;
      stepper := AwaitStepping(false);
      return true;
    }

    /** The step call from a wake-up to its next wait or its return. */
    method StepWakeUp() returns (done: bool)
      requires !stepper.Idle?
      modifies this
      ensures View() == ApplyStepWake(old(View())) && done == stepper.Idle?
    {
      if stepper.AwaitStepping? {
        if state != Stepping {
          stepper := AwaitStepping(false);
          return false;
        }
        signal := HaltS;
        SignalThread();
        stepper := AwaitHalted(false);
      } else {
        stepper := AwaitHalted(false);
      }
      if state != Halted { return false; }
      stepper := Idle;
      return true;
    }

    /** One round of the wait loop of the core thread. */
    method WaitOnSign(on: Signal)
      requires signal == on
      modifies this
      ensures View() == WaitOn(old(View()), on)
    {
      if state != Target(on) {
        state := Target(on);
        SignalStepper();
      }
      thread := Parked(on, false);
    }

    /** The core thread from the top of cthread_fsm to its first wait or into the run loop. */
    method FsmEnter()
      requires thread.Ready?
      modifies this
      ensures View() == ApplyDispatch(old(View()))
    {
      match signal {
        case StartS =>
          exitLoop := false;
          state := Started;
          SignalStepper();
          thread := Exec(false);
        case StepS =>
          exitLoop := true;
          WaitOnSign(StepS);
        case other =>
          WaitOnSign(other);
      }
    }

    /** The core thread from a wake-up to its next wait, into the run loop or back to the top. */
    method FsmWakeUp()
      requires thread.Parked?
      modifies this
      ensures View() == ApplyWake(old(View()))
    {
      var on := thread.on;
      if signal == on {
        WaitOnSign(on);
      } else if on == StepS && oldSignal == StartS {
        thread := Exec(true);
      } else {
        thread := Ready;
      }
    }

    method GetHsmState() returns (s: State)
      ensures s == HsmRefinement.HsmState(View())
    {
      s := state;
      if s == Halted || s == Stepping || s == HaltPending { s := Target(oldSignal); }
    }
  }

  datatype ContinueResult = Busy | BrokenInvariant | Continued

  /** The manager's loops, run without interference; Manager has them interleaved with everything else. */
  class ThreadsMgr {
    const cthreads: seq<CoreThread>

    ghost predicate Valid() {
      forall i, j :: 0 <= i < j < |cthreads| ==> cthreads[i] != cthreads[j]
    }

    constructor (cores: seq<CoreThread>)
      requires forall i, j :: 0 <= i < j < |cores| ==> cores[i] != cores[j]
      ensures Valid() && cthreads == cores
    {
      cthreads := cores;
    }

    method AreHalted() returns (all: bool)
      ensures all <==> forall i :: 0 <= i < |cthreads| ==> cthreads[i].state == Halted
    {
      for i := 0 to |cthreads|
        invariant forall j :: 0 <= j < i ==> cthreads[j].state == Halted
      {
        if cthreads[i].state != Halted { return false; }
      }
      return true;
    }

    method HaltCores()
      requires Valid()
      modifies cthreads
      ensures forall i :: 0 <= i < |cthreads| ==> cthreads[i].View() == ApplyHalt(old(cthreads[i].View()))
    {
      for i := 0 to |cthreads|
        invariant forall j :: 0 <= j < i ==> cthreads[j].View() == ApplyHalt(old(cthreads[j].View()))
        invariant forall j :: i <= j < |cthreads| ==> cthreads[j].View() == old(cthreads[j].View())
      {
        cthreads[i].SignalHalt();
      }
    }

    /** `lockBusy` is the outcome of the try-lock on the manager mutex. */
    method ContinueCores(lockBusy: bool) returns (r: ContinueResult)
      requires Valid()
      requires forall i :: 0 <= i < |cthreads| ==> IsHsm(cthreads[i].oldSignal)
      modifies cthreads
      ensures r == Busy <==> lockBusy
      ensures r == Continued <==> !lockBusy && forall i :: 0 <= i < |cthreads| ==> old(cthreads[i].state) == Halted
      ensures forall i :: 0 <= i < |cthreads| ==>
                cthreads[i].View() == if r == Continued then ApplyContinue(old(cthreads[i].View()))
                                      else old(cthreads[i].View())
    {
      if lockBusy { return Busy; }
      for i := 0 to |cthreads|
        invariant forall j :: 0 <= j < i ==> cthreads[j].state == Halted
      {
        if cthreads[i].state != Halted { return BrokenInvariant; }
      }
      for i := 0 to |cthreads|
        invariant forall j :: 0 <= j < i ==> cthreads[j].View() == ApplyContinue(old(cthreads[j].View()))
        invariant forall j :: i <= j < |cthreads| ==> cthreads[j].View() == old(cthreads[j].View())
      {
        var ok := cthreads[i].SignalContinue();
        assert ok;
      }
      return Continued;
    }
  }
}
