/**
  The synchronous step call: the debugger posts STEP, waits for STEPPING, posts HALT and waits for
  HALTED. The call is analysed against every interleaving of HSM requests, halts and spurious wake-ups.
*/
module StepHandshake {
  import opened CoreMachine

  /** STEP is posted, the core thread has not seen it. */
  predicate Posted(c: Core) {
    && c.stepper == AwaitStepping(false) && c.state == Halted && c.signal == StepS
    && (c.thread.Ready? || c.thread == Parked(HaltS, true))
  }

  /** The core thread has acknowledged STEP, the debugger has not seen it. */
  predicate Acked(c: Core) {
    && c.stepper == AwaitStepping(true) && c.state == Stepping && c.signal == StepS
    && c.thread == Parked(StepS, false)
  }

  /** HALT is posted, the core thread is on its way through the instruction. */
  predicate Released(c: Core) {
    && c.stepper == AwaitHalted(false) && c.state in {Stepping, HaltPending} && c.signal == HaltS
    && (c.thread.Ready? || c.thread == Parked(StepS, true) || (InRun(c.thread) && c.thread.stepping))
  }

  /** The core thread has acknowledged HALT, the debugger has not seen it. */
  predicate Done(c: Core) {
    && c.stepper == AwaitHalted(true) && c.state == Halted && c.signal == HaltS
    && c.thread == Parked(HaltS, false)
  }

  predicate InHandshake(c: Core) {
    c.exit && (Posted(c) || Acked(c) || Released(c) || Done(c))
  }

  predicate Returned(c: Core) { c.stepper.Idle? && c.state == Halted }

  /** A halt that reaches the core between its acknowledgement of STEP and the debugger's wake-up. */
  predicate WindowHalt(c: Core, s: Step) { s == Halt && Acked(c) }

  /** A step somebody is due to take: not a signaller's, and not a spurious wake-up. */
  predicate Prompted(c: Core, s: Step) {
    match s
    case StepWake => !c.stepper.Idle? && c.stepper.notified
    case Wake => c.thread.Parked? && c.thread.notified
    case Dispatch | Execute | ReadFlag | Leave => true
    case _ => false
  }

  /** How far both parties are from the return of the call. */
  function Remaining(c: Core): nat {
    if c.stepper.Idle? then 0
    else if Posted(c) then (if c.thread.Ready? then 8 else 9)
    else if Acked(c) then 7
    else if Done(c) then 1
    else match c.thread
      case Parked(_, _) => 6
      case Exec(_) => 5
      case Check(_) => 4
      case Leaving(_) => 3
      case Ready => 2
  }

  /** A step call on a halted core starts the handshake. */
  lemma StepCallStarts(c: Core)
    requires Inv(c) && c.state == Halted && c.stepper.Idle?
    ensures Legal(c, StepBegin) && InHandshake(Apply(c, StepBegin))
    ensures Posted(Apply(c, StepBegin)) && Remaining(Apply(c, StepBegin)) <= 9
  {}

  /** Somebody always has a step to take until the call returns. */
  lemma HandshakeIsLive(c: Core) returns (s: Step)
    requires InHandshake(c)
    ensures Legal(c, s) && Prompted(c, s)
  {
    if Acked(c) || Done(c) {
      s := StepWake;
    } else {
      s := match c.thread
        case Ready => Dispatch
        case Parked(_, _) => Wake
        case Exec(_) => Execute
        case Check(_) => ReadFlag
        case Leaving(_) => Leave;
    }
  }

  /** Outside the window, every due step comes closer to the return and no step moves away from it. */
  lemma HandshakeStep(c: Core, s: Step)
    requires InHandshake(c) && Legal(c, s) && !WindowHalt(c, s)
    ensures
      var d := Apply(c, s);
      && (InHandshake(d) || Returned(d))
      && Remaining(d) <= Remaining(c)
      && (Prompted(c, s) ==> Remaining(d) < Remaining(c))
  {}

  /** The measure is exact for a core that executes its instruction: each due step takes one off. */
  lemma RemainingIsExact(c: Core, s: Step)
    requires InHandshake(c) && Legal(c, s) && Prompted(c, s) && c.buffered == StartS
    ensures Remaining(Apply(c, s)) == Remaining(c) - 1
  {}

  function DueSteps(r: seq<Core>, ss: seq<Step>): nat
    requires |r| == |ss| + 1
  {
    if ss == [] then 0 else (if Prompted(r[0], ss[0]) then 1 else 0) + DueSteps(r[1..], ss[1..])
  }

  ghost predicate NoWindowHalt(r: seq<Core>, ss: seq<Step>)
    requires |r| == |ss| + 1
  {
    forall i :: 0 <= i < |ss| ==> !WindowHalt(r[i], ss[i])
  }

  /** The call returns first at index `k`, and until then the core stays in the handshake. */
  ghost predicate ReturnsAt(r: seq<Core>, k: nat) {
    && k < |r| && Returned(r[k])
    && forall i :: 0 <= i < k ==> InHandshake(r[i])
  }

  /** The call is still going on; the due steps taken are made up for by what remains. */
  ghost predicate StillInCall(r: seq<Core>, ss: seq<Step>)
    requires |r| == |ss| + 1
  {
    && (forall i :: 0 <= i < |r| ==> InHandshake(r[i]))
    && DueSteps(r, ss) + Remaining(r[|ss|]) <= Remaining(r[0]) && Remaining(r[|ss|]) > 0
  }

  lemma InCallHasMore(c: Core)
    requires InHandshake(c)
    ensures 0 < Remaining(c) <= 9
  {}

  /** Without a halt in the window the call has returned, HALTED, or every due step brought it closer to that. */
  lemma {:induction false} StepCallAccounted(r: seq<Core>, ss: seq<Step>)
    requires Run(r, ss) && InHandshake(r[0]) && NoWindowHalt(r, ss)
    ensures (exists k :: ReturnsAt(r, k)) || StillInCall(r, ss)
  {
    InCallHasMore(r[0]);
    if ss != [] {
      HandshakeStep(r[0], ss[0]);
      if Returned(r[1]) {
        assert ReturnsAt(r, 1);
      } else {
        assert NoWindowHalt(r[1..], ss[1..]);
        StepCallAccounted(r[1..], ss[1..]);
        if k: nat :| ReturnsAt(r[1..], k) {
          ReturnsLater(r, k);
        }
      }
    }
  }

  lemma ReturnsLater(r: seq<Core>, k: nat)
    requires |r| > 1 && InHandshake(r[0]) && ReturnsAt(r[1..], k)
    ensures ReturnsAt(r, k + 1)
  {
    assert r[1..][k] == r[k + 1];
    forall i | 0 <= i < k + 1
      ensures InHandshake(r[i])
    {
      if i > 0 { assert r[i] == r[1..][i - 1]; }
    }
  }

  /** So it returns after as many due steps of both parties as remain at its start, at most nine. */
  lemma StepCallReturns(r: seq<Core>, ss: seq<Step>)
    requires Run(r, ss) && InHandshake(r[0]) && NoWindowHalt(r, ss)
    ensures Remaining(r[0]) <= 9 && (DueSteps(r, ss) >= Remaining(r[0]) ==> exists k :: ReturnsAt(r, k))
  {
    InCallHasMore(r[0]);
    StepCallAccounted(r, ss);
  }

  lemma StuckStep(c: Core, s: Step)
    requires Inv(c) && Stuck(c) && Legal(c, s)
    ensures Stuck(Apply(c, s))
  {}

  /** With a halt in the window it never does: the debugger waits for a STEPPING nobody will enter. */
  lemma {:induction false} StepCallHangs(r: seq<Core>, ss: seq<Step>, w: nat, k: nat)
    requires Run(r, ss) && Inv(r[0]) && w < k <= |ss| && WindowHalt(r[w], ss[w])
    ensures Stuck(r[k]) && !r[k].stepper.Idle?
  {
    RunInv(r, ss, k - 1);
    if w < k - 1 {
      StepCallHangs(r, ss, w, k - 1);
      StuckStep(r[k - 1], ss[k - 1]);
    }
  }

  /** Such a halt can happen: the core has acknowledged STEP and the debugger has not woken up. */
  lemma WindowHaltHappens()
    ensures
      var parked := Apply(Fresh(StartS), Dispatch);
      var posted := Apply(parked, StepBegin);
      var ready := Apply(posted, Wake);
      var acked := Apply(ready, Dispatch);
      && Legal(Fresh(StartS), Dispatch) && Legal(parked, StepBegin) && Legal(posted, Wake) && Legal(ready, Dispatch)
      && Legal(acked, Halt) && WindowHalt(acked, Halt) && Stuck(Apply(acked, Halt))
  {}

  /** The instruction count at every point of the handshake, for an unchanged buffered signal. */
  predicate Counted(c: Core, base: nat, b: Signal) {
    && c.buffered == b
    && (InRun(c.thread) ==> b == StartS)
    && c.executed ==
         if Released(c) && (c.thread.Check? || c.thread.Leaving?) then base + 1
         else if (Released(c) && c.thread.Ready?) || Done(c) || Returned(c) then
           base + (if b == StartS then 1 else 0)
         else base
  }

  lemma CountedStep(c: Core, s: Step, base: nat, b: Signal)
    requires InHandshake(c) && Legal(c, s) && !WindowHalt(c, s)
    requires Counted(c, base, b) && Apply(c, s).buffered == b
    ensures Counted(Apply(c, s), base, b)
  {}

  /**
    When the call returns, the core has executed exactly one instruction if its HSM signal was START
    and none otherwise, provided no HSM request changed that signal during the call.
  */
  lemma {:induction false} StepExecutesOne(r: seq<Core>, ss: seq<Step>, k: nat, j: nat)
    requires Run(r, ss) && Posted(r[0]) && InHandshake(r[0]) && ReturnsAt(r, k)
    requires forall i :: 0 <= i <= k ==> r[i].buffered == r[0].buffered
    requires j <= k
    ensures Counted(r[j], r[0].executed, r[0].buffered)
    ensures j == k ==>
              r[k].executed == r[0].executed + (if r[0].buffered == StartS then 1 else 0)
  {
    if j > 0 {
      StepExecutesOne(r, ss, k, j - 1);
      assert r[j] == Apply(r[j - 1], ss[j - 1]);
      CountedStep(r[j - 1], ss[j - 1], r[0].executed, r[0].buffered);
    }
  }
}
