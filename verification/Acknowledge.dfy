/**
  Requests of the hart state management and continues are acknowledged after a bounded number of steps of the
  core thread, unless a halt overtakes them.
*/
module Acknowledge {
  import opened Partial
  import opened Traces
  import opened CoreMachine
  import opened Manager
  import opened Projection
  import opened HaltAck
  import opened SystemRuns

  /** A request or a continue was taken and is not acknowledged yet. */
  predicate Pending(c: Core) { c.state in {StartPending, ResumePending, StopPending, SuspendPending, ContinuePending} }

  /** How many steps the thread is away from acknowledging the signal. */
  function Remaining(c: Core): nat {
    match c.thread
    case Ready => 1
    case Parked(_, _) => 2
    case Exec(_) => 4
    case Check(_) => 3
    case Leaving(_) => 2
  }

  /** The thread does what the signal says: it runs, or it waits for the next signal. */
  predicate Obeys(c: Core, signal: Signal) {
    && c.signal == signal && c.state == Target(signal)
    && c.thread == if signal == StartS then Exec(false) else Parked(signal, false)
  }

  /** A request that is taken gives its signal to the thread, and what it waits for is the request's own state. */
  lemma RequestEntersPending(c: Core, request: Signal)
    requires Inv(c) && IsHsm(request) && Takes(c.state, request)
    ensures var d := Apply(c, Hsm(request)); Pending(d) && d.signal == request && Target(d.signal) != c.state
  {}

  /** So does a continue of a halted core, with the signal that was buffered. */
  lemma ContinueEntersPending(c: Core)
    requires Inv(c) && c.state == Halted && c.stepper.Idle?
    ensures var d := Apply(c, Continue); d.state == ContinuePending && d.signal == c.buffered
  {}

  /** Whatever the signal is, dispatching on it acknowledges it. */
  lemma DispatchObeys(c: Core)
    requires Inv(c) && c.thread.Ready?
    ensures Obeys(Apply(c, Dispatch), c.signal)
  {}

  /** The thread is not asleep for good, and each of its steps takes one off; the last one acknowledges. */
  lemma RemainingIsExact(c: Core)
    requires Inv(c) && Pending(c)
    ensures Legal(c, NextThreadStep(c.thread)) && (c.thread.Parked? ==> c.thread.notified)
    ensures
      var d := Apply(c, NextThreadStep(c.thread));
      if Remaining(c) == 1 then Obeys(d, c.signal)
      else Pending(d) && d.signal == c.signal && Remaining(d) == Remaining(c) - 1
  {}

  /** A step of anybody else leaves the request pending, unless it is a halt. */
  lemma OthersKeepPending(c: Core, s: Step)
    requires Inv(c) && Pending(c) && Legal(c, s) && !IsThreadStep(s) && s != Halt
    ensures var d := Apply(c, s); Pending(d) && d.signal == c.signal && Remaining(d) == Remaining(c)
  {}

  lemma OneThreadStep(c: Core, s: Step)
    requires Inv(c) && Legal(c, s) && IsThreadStep(s)
    ensures s == NextThreadStep(c.thread)
  {}

  /** One step, of anybody: acknowledged, overtaken, or accounted for. */
  lemma PendingStep(c: Core, s: Step)
    requires Inv(c) && Pending(c) && Legal(c, s) && s != Halt
    ensures
      var d := Apply(c, s);
      || Obeys(d, c.signal)
      || (Pending(d) && d.signal == c.signal && (if IsThreadStep(s) then 1 else 0) + Remaining(d) == Remaining(c))
  {
    if IsThreadStep(s) {
      OneThreadStep(c, s);
      RemainingIsExact(c);
    } else {
      OthersKeepPending(c, s);
    }
  }

  /** The run first leaves the pending state at index `k`, for the state its signal asked for. */
  ghost predicate ObeyedAt(r: seq<Core>, k: nat, signal: Signal) {
    && k < |r| && Obeys(r[k], signal)
    && forall i :: 0 <= i < k ==> Pending(r[i]) && r[i].signal == signal
  }

  /** All along it was pending, and the steps the thread took are what the distance has lost. */
  ghost predicate StillPending(r: seq<Core>, ss: seq<Step>, signal: Signal)
    requires |r| == |ss| + 1
  {
    && (forall i :: 0 <= i < |r| ==> Pending(r[i]) && r[i].signal == signal)
    && ThreadSteps(ss) + Remaining(r[|ss|]) == Remaining(r[0])
  }

  /** Every run without a halt has come to the state asked for, or every step its thread took brought it closer. */
  lemma {:induction false} RequestAccounted(r: seq<Core>, ss: seq<Step>)
    requires CoreMachine.Run(r, ss) && Inv(r[0]) && Pending(r[0]) && Halt !in ss
    ensures (exists k :: ObeyedAt(r, k, r[0].signal)) || StillPending(r, ss, r[0].signal)
    decreases |ss|
  {
    var signal := r[0].signal;
    if ss != [] {
      PendingStep(r[0], ss[0]);
      InvStep(r[0], ss[0]);
      if Pending(r[1]) {
        assert !Obeys(r[1], signal);
        RequestAccounted(r[1..], ss[1..]);
        if k: nat :| ObeyedAt(r[1..], k, signal) {
          ObeyedLater(r, k, signal);
        }
      } else {
        assert ObeyedAt(r, 1, signal);
      }
    }
  }

  lemma ObeyedLater(r: seq<Core>, k: nat, signal: Signal)
    requires |r| > 1 && Pending(r[0]) && r[0].signal == signal && ObeyedAt(r[1..], k, signal)
    ensures ObeyedAt(r, k + 1, signal)
  {
    assert r[1..][k] == r[k + 1];
    forall i | 0 <= i < k + 1
      ensures Pending(r[i]) && r[i].signal == signal
    {
      if i > 0 { assert r[i] == r[1..][i - 1]; }
    }
  }

  /** For every interleaving without a halt: it is acknowledged within as many steps of the thread, at most four. */
  lemma RequestAcknowledged(r: seq<Core>, ss: seq<Step>)
    requires CoreMachine.Run(r, ss) && Inv(r[0]) && Pending(r[0]) && Halt !in ss
    ensures Remaining(r[0]) <= 4
    ensures ThreadSteps(ss) >= Remaining(r[0]) ==> exists k :: ObeyedAt(r, k, r[0].signal)
  {
    RequestAccounted(r, ss);
  }

  // ----- in the machine

  lemma {:induction false} StatesAreVisited(r: seq<System>, es: seq<Event>, i: nat, k: nat, m: nat)
    requires k <= |es| < |r| && m < |States(r, es, i, k)|
    ensures exists j: nat :: j <= k && CoreAt(r[j], i) == States(r, es, i, k)[m]
  {
    if k > 0 {
      if m < |States(r, es, i, k - 1)| {
        StatesAreVisited(r, es, i, k - 1, m);
      } else {
        assert CoreAt(r[k], i) == States(r, es, i, k)[m];
      }
    } else {
      assert CoreAt(r[0], i) == States(r, es, i, 0)[m];
    }
  }

  predicate NoHalt(c: Core, s: Step) { s != Halt }

  /**
    In the machine: a core that was requested or continued, and that nobody halts, comes to the state its
    signal asks for once its thread has taken at most four steps, whatever all others do.
  */
  lemma RequestServed(r: seq<System>, es: seq<Event>, i: nat)
    requires Path(r, es) && Sound(r[0], i) && !r[0].debugger.Crashed? && Pending(r[0].cores[i])
    requires forall j :: 0 <= j < |es| ==> Touch(r[j], es[j], i) != Some(Halt)
    requires ThreadStepsOf(r, es, i) >= Remaining(r[0].cores[i])
    ensures Remaining(r[0].cores[i]) <= 4
    ensures exists j: nat :: j <= |es| && Obeys(CoreAt(r[j], i), r[0].cores[i].signal)
  {
    CoreRuns(r, es, i, |es|);
    CoreRunsAll(r, es, i, |es|, NoHalt);
    var cs, ss := States(r, es, i, |es|), Steps(r, es, i, |es|);
    assert forall m :: 0 <= m < |ss| ==> NoHalt(cs[m], ss[m]);
    RequestAcknowledged(cs, ss);
    var k: nat :| ObeyedAt(cs, k, cs[0].signal);
    StatesAreVisited(r, es, i, |es|, k);
  }
}
