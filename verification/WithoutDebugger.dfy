/**
  The machine without a debugger: core 0 is continued once and for all. The other cores were initialised
  HALTED and nothing ever continues them, so a hart start reaches their buffered signal and no more.
*/
module WithoutDebugger {
  import opened Traces
  import opened CoreMachine
  import opened Manager
  import opened Projection
  import HsmRefinement

  /** No event of a debugger but the one continue of core 0. */
  predicate PlainMoves(s: System, e: Event, s': System) { Moves(s, e, s') && (IsDebuggerEvent(e) ==> e == ContinueGo) }

  ghost predicate PlainRun(r: seq<System>, es: seq<Event>) {
    IsPath(PlainMoves, r, es) && Initial(r[0]) && r[0].debugger == ContinueOne(0)
  }

  /** A core that has never left HALTED. */
  predicate Dormant(c: Core) { c.state == Halted && c.stepper.Idle? && c.executed == 0 }

  predicate OthersDormant(s: System) {
    && SystemInv(s) && (s.debugger == ContinueOne(0) || s.debugger == Quiet)
    && forall j :: 0 < j < |s.cores| ==> Dormant(s.cores[j])
  }

  lemma DormantStep(c: Core, t: Step)
    requires Inv(c) && Dormant(c) && Legal(c, t) && t !in {Continue, StepBegin}
    ensures Dormant(Apply(c, t))
  {
    CoreStepFacts(c, t);
  }

  lemma PlainStep(s: System, e: Event, s': System)
    requires OthersDormant(s) && PlainMoves(s, e, s')
    ensures OthersDormant(s')
  {
    SystemInvStep(s, e);
    SameCores(s, e);
    forall j: nat | 0 < j < |s.cores|
      ensures Dormant(s'.cores[j])
    {
      if Acts(s, e).0 == j {
        ManagerIsDisciplined(s, e);
        DormantStep(s.cores[j], Acts(s, e).1);
      } else {
        PassedBy(s, e, j);
      }
    }
  }

  /** In every run without a debugger, no core but the first ever leaves HALTED or executes an instruction. */
  lemma OtherCoresNeverRun(r: seq<System>, es: seq<Event>, k: nat, j: nat)
    requires PlainRun(r, es) && k <= |es| && 0 < j < |r[k].cores|
    ensures r[k].cores[j].state == Halted && !InRun(r[k].cores[j].thread) && r[k].cores[j].executed == 0
    ensures HsmRefinement.HsmState(r[k].cores[j]) == Target(r[k].cores[j].buffered)
  {
    SystemInvInit(r[0]);
    forall s, e, s' | OthersDormant(s) && PlainMoves(s, e, s')
      ensures OthersDormant(s')
    {
      PlainStep(s, e, s');
    }
    PathKeeps(PlainMoves, OthersDormant, r, es, k);
    assert Dormant(r[k].cores[j]) && Inv(r[k].cores[j]);
  }

  /** A hart start of such a core is accepted: from then on the guest is told STARTED, but the core stays HALTED. */
  lemma HartStartOnlyLooksStarted(r: seq<System>, es: seq<Event>, k: nat, j: nat)
    requires PlainRun(r, es) && k < |es| && 0 < j < |r[k].cores| && es[k] == Request(j, StartS)
    ensures j < |r[k + 1].cores| && r[k + 1].cores[j].state == Halted
    ensures HsmRefinement.HsmState(r[k + 1].cores[j]) == Started
  {
    OtherCoresNeverRun(r, es, k, j);
    assert PlainMoves(r[k], es[k], r[k + 1]);
    SameCores(r[k], es[k]);
    OtherCoresNeverRun(r, es, k + 1, j);
    BufferedIsHsm(r, es, k, j);
  }

  lemma BufferedIsHsm(r: seq<System>, es: seq<Event>, k: nat, j: nat)
    requires PlainRun(r, es) && k <= |es| && j < |r[k].cores|
    ensures IsHsm(r[k].cores[j].buffered)
  {
    SystemInvInit(r[0]);
    forall s, e, s' | OthersDormant(s) && PlainMoves(s, e, s')
      ensures OthersDormant(s')
    {
      PlainStep(s, e, s');
    }
    PathKeeps(PlainMoves, OthersDormant, r, es, k);
    assert Inv(r[k].cores[j]);
  }
}
