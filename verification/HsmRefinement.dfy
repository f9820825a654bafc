/**
  Debugging is invisible to hart state management: the buffered signal of a core replays the HSM
  requests it accepted on a machine that has never heard of halting, stepping or continuing.
*/
module HsmRefinement {
  import opened CoreMachine

  predicate Replayable(c: Core) {
    c.state !in {Halted, HaltPending, Stepping} ==> c.signal == c.buffered
  }

  /** An HSM request that is buffered while a continue is still in flight. */
  predicate Overtakes(c: Core, s: Step) {
    s.Hsm? && c.state == ContinuePending && Buffers(c.buffered, s.request)
  }

  /** Signal and buffered signal stay in agreement exactly as long as no request overtakes a continue. */
  lemma AgreementStep(c: Core, s: Step)
    requires Inv(c) && Replayable(c) && Legal(c, s)
    ensures Replayable(Apply(c, s)) <==> !Overtakes(c, s)
  {}

  ghost predicate NoOvertaking(r: seq<Core>, ss: seq<Step>)
    requires |r| == |ss| + 1
  {
    forall i :: 0 <= i < |ss| ==> !Overtakes(r[i], ss[i])
  }

  lemma {:induction false} AgreementUpTo(r: seq<Core>, ss: seq<Step>, k: nat)
    requires Run(r, ss) && Inv(r[0]) && Replayable(r[0]) && k <= |ss|
    requires forall i :: 0 <= i < k ==> !Overtakes(r[i], ss[i])
    ensures Inv(r[k]) && Replayable(r[k])
  {
    if k > 0 {
      AgreementUpTo(r, ss, k - 1);
      InvStep(r[k - 1], ss[k - 1]);
      AgreementStep(r[k - 1], ss[k - 1]);
    }
  }

  /** Over whole runs: all states agree if and only if no request overtook a continue. */
  lemma {:induction false} AgreementIffNoOvertaking(resume: Signal, r: seq<Core>, ss: seq<Step>)
    requires IsHsm(resume) && Run(r, ss) && r[0] == Fresh(resume)
    ensures (forall k :: 0 <= k < |r| ==> Replayable(r[k])) <==> NoOvertaking(r, ss)
  {
    InvInit(resume);
    if NoOvertaking(r, ss) {
      forall k | 0 <= k < |r| ensures Replayable(r[k]) { AgreementUpTo(r, ss, k); }
    } else {
      var i :| 0 <= i < |ss| && Overtakes(r[i], ss[i]);
      RunInv(r, ss, i);
      if Replayable(r[i]) {
        AgreementStep(r[i], ss[i]);
        assert !Replayable(r[i + 1]);
      }
    }
  }

  // ----- the debug-free HSM

  /** The machine a hart would be without a debugger: started, stopped or suspended. */
  function HsmNext(h: Signal, request: Signal): Signal {
    if request == StartS then (if h == StopS || h == SuspendS then StartS else h)
    else if h == StartS then request
    else h
  }

  function Replay(h: Signal, requests: seq<Signal>): Signal {
    if requests == [] then h
    else HsmNext(Replay(h, requests[..|requests| - 1]), requests[|requests| - 1])
  }

  /** A request the core accepts, at once or into the buffer. */
  predicate Accepts(c: Core, s: Step) {
    s.Hsm? && (Takes(c.state, s.request) || (Debugging(c.state) && Buffers(c.buffered, s.request)))
  }

  /** The requests accepted during the first `k` steps of a run, in order. */
  function Accepted(r: seq<Core>, ss: seq<Step>, k: nat): seq<Signal>
    requires k <= |ss| < |r|
  {
    if k == 0 then []
    else Accepted(r, ss, k - 1) + if Accepts(r[k - 1], ss[k - 1]) then [ss[k - 1].request] else []
  }

  /** An accepted request is one the debug-free machine obeys, and the only way the buffer changes. */
  lemma BufferFollowsHsm(c: Core, s: Step)
    requires Inv(c) && Replayable(c) && Legal(c, s)
    ensures Apply(c, s).buffered == if Accepts(c, s) then HsmNext(c.buffered, s.request) else c.buffered
    ensures Accepts(c, s) ==> HsmNext(c.buffered, s.request) == s.request != c.buffered
  {}

  /**
    Along every run in which no request overtakes a continue, whatever nesting of halts, steps and
    continues it contains: the buffered signal is the state of the debug-free HSM after the same
    accepted requests, and a core at rest outside the debugger rests in exactly that state.
  */
  lemma {:induction false} DebugRefinesHsm(resume: Signal, r: seq<Core>, ss: seq<Step>, k: nat)
    requires IsHsm(resume) && Run(r, ss) && r[0] == Fresh(resume) && NoOvertaking(r, ss) && k <= |ss|
    ensures r[k].buffered == Replay(resume, Accepted(r, ss, k))
    ensures r[k].state in {Started, Stopped, Suspended} ==>
              r[k].state == Target(Replay(resume, Accepted(r, ss, k)))
  {
    InvInit(resume);
    AgreementUpTo(r, ss, k);
    if k > 0 {
      DebugRefinesHsm(resume, r, ss, k - 1);
      AgreementUpTo(r, ss, k - 1);
      BufferFollowsHsm(r[k - 1], ss[k - 1]);
      ReplayAccepted(r, ss, k, resume);
    }
  }

  /** Once a request overtakes a continue, the core can come to rest in a state the HSM has left. */
  lemma OvertakenCoreRestsInTheWrongState()
    ensures
      var continued := Apply(Apply(Fresh(StopS), Dispatch), Continue);
      var overtaken := Apply(continued, Hsm(StartS));
      var resting := Apply(Apply(overtaken, Wake), Dispatch);
      && Overtakes(continued, Hsm(StartS)) && Accepts(continued, Hsm(StartS))
      && resting.state == Stopped && Replay(StopS, [StartS]) == StartS
  {
    assert [StartS][..0] == [];
  }

  /** A core at rest takes a start if it is not started and anything else if it is, into the pending state between. */
  lemma RestingAccepts(c: Core, h: Signal, request: Signal)
    requires Inv(c) && IsHsm(h) && c.state == Target(h) && IsHsm(request)
    ensures
      var d := Apply(c, Hsm(request));
      if (h == StartS) == (request == StartS) then d == c && HsmNext(h, request) == h
      else
        && d.signal == d.buffered == HsmNext(h, request) == request
        && d.state == match (h, request)
                      case (StopS, _) => StartPending
                      case (SuspendS, _) => ResumePending
                      case (_, StopS) => StopPending
                      case _ => SuspendPending
  {}

  /** While a request is pending, or none can be taken, it is refused and nothing changes. */
  lemma PendingRefuses(c: Core, request: Signal)
    requires Inv(c) && IsHsm(request) && c.state in {StartPending, ResumePending, StopPending, SuspendPending}
    ensures Apply(c, Hsm(request)) == c
  {}

  // ----- what the guest is told

  /** cthread_get_hsm_state: debug states are hidden behind the buffered signal. */
  function HsmState(c: Core): State {
    if c.state in {Halted, Stepping, HaltPending} then Target(c.buffered) else c.state
  }

  /** The guest is told an HSM state unless it asks while a continue is in flight. */
  lemma HsmStateIsAnHsmState(c: Core)
    requires Inv(c)
    ensures !Debugging(HsmState(c)) <==> c.state != ContinuePending
  {}

  /** It is told the state as it is while no debugger is involved, and the buffered one otherwise. */
  lemma HsmStateTold(c: Core)
    requires Inv(c)
    ensures Debugging(c.state) && c.state != ContinuePending ==> HsmState(c) in {Started, Stopped, Suspended}
    ensures !Debugging(c.state) ==> HsmState(c) == c.state
  {}

  /** A halt of a resting core does not change the answer. */
  lemma HsmStateHiddenByHalt(c: Core)
    requires Inv(c) && Replayable(c)
    requires c.state in {Started, Stopped, Suspended}
    ensures HsmState(Apply(c, Halt)) == HsmState(c)
  {}

  predicate Hidden(s: State) { s in {HaltPending, Halted, Stepping} }

  lemma HiddenStep(c: Core, s: Step)
    requires Inv(c) && Hidden(c.state) && Legal(c, s) && s != Continue
    ensures Hidden(Apply(c, s).state)
  {}

  /**
    From a halt on and short of a continue, through any further halts, steps and requests, the guest is told
    the state of the debug-free HSM after the requests accepted meanwhile.
  */
  lemma {:induction false} DebugIsHidden(r: seq<Core>, ss: seq<Step>, k: nat)
    requires Run(r, ss) && Inv(r[0]) && Hidden(r[0].state) && k <= |ss|
    requires forall i :: 0 <= i < k ==> ss[i] != Continue
    ensures Hidden(r[k].state) && r[k].buffered == Replay(r[0].buffered, Accepted(r, ss, k))
    ensures HsmState(r[k]) == Target(Replay(r[0].buffered, Accepted(r, ss, k)))
  {
    RunInv(r, ss, k);
    if k > 0 {
      DebugIsHidden(r, ss, k - 1);
      RunInv(r, ss, k - 1);
      HiddenStep(r[k - 1], ss[k - 1]);
      BufferFollowsHsm(r[k - 1], ss[k - 1]);
      ReplayAccepted(r, ss, k, r[0].buffered);
    }
  }

  /** One more step replayed. */
  lemma ReplayAccepted(r: seq<Core>, ss: seq<Step>, k: nat, h: Signal)
    requires 0 < k <= |ss| < |r|
    ensures
      var before := Replay(h, Accepted(r, ss, k - 1));
      Replay(h, Accepted(r, ss, k)) ==
      if Accepts(r[k - 1], ss[k - 1]) then HsmNext(before, ss[k - 1].request) else before
  {
    var before, after := Accepted(r, ss, k - 1), Accepted(r, ss, k);
    if Accepts(r[k - 1], ss[k - 1]) {
      assert after[..|after| - 1] == before;
    } else {
      assert after == before;
    }
  }
}
