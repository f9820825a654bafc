/**
  The theorems about single cores, for cores inside the whole machine, and what follows for the calls of
  the manager: a halt-all brings every core to HALTED and the check then answers yes; a step issued while
  all cores are halted returns.
*/
module SystemRuns {
  import opened Partial
  import opened Traces
  import opened CoreMachine
  import opened Manager
  import opened Projection
  import HaltAck
  import opened StepHandshake
  import HsmRefinement

  /** The HSM signal core `i` resumes with. */
  function Resume(i: nat): Signal { if i == 0 then StartS else StopS }

  lemma RunIsPath(r: seq<System>, es: seq<Event>, i: nat)
    requires Manager.Run(r, es) && i < |r[0].cores|
    ensures Path(r, es) && Sound(r[0], i) && r[0].cores[i] == CoreMachine.Fresh(Resume(i))
  {
    SystemInvInit(r[0]);
    forall k | 0 <= k < |es|
      ensures Moves(r[k], es[k], r[k + 1])
    {
      assert Possible(r[k], es[k]) && r[k + 1] == Next(r[k], es[k]);
    }
  }

  /** In every run of the machine, a core's flag agrees with its signal from its first performed signal on. */
  lemma SystemFlag(r: seq<System>, es: seq<Event>, i: nat, k: nat, first: nat)
    requires Manager.Run(r, es) && k <= |es| && i < |r[0].cores|
    requires first < |Steps(r, es, i, k)| && Performed(States(r, es, i, k)[first], Steps(r, es, i, k)[first])
    ensures i < |r[k].cores| && FlagAgrees(r[k].cores[i])
  {
    RunIsPath(r, es, i);
    CoreRuns(r, es, i, k);
    RunFlag(Resume(i), States(r, es, i, k), Steps(r, es, i, k), first, |Steps(r, es, i, k)|);
  }

  /** In every run of the machine, debugging is invisible to the hart state management of every core. */
  lemma SystemRefinesHsm(r: seq<System>, es: seq<Event>, i: nat, k: nat)
    requires Manager.Run(r, es) && k <= |es| && i < |r[0].cores|
    requires HsmRefinement.NoOvertaking(States(r, es, i, k), Steps(r, es, i, k))
    ensures
      var ss := Steps(r, es, i, k);
      var h := HsmRefinement.Replay(Resume(i), HsmRefinement.Accepted(States(r, es, i, k), ss, |ss|));
      && i < |r[k].cores| && r[k].cores[i].buffered == h
      && (r[k].cores[i].state in {Started, Stopped, Suspended} ==> r[k].cores[i].state == Target(h))
  {
    RunIsPath(r, es, i);
    CoreRuns(r, es, i, k);
    var cs, ss := States(r, es, i, k), Steps(r, es, i, k);
    HsmRefinement.DebugRefinesHsm(Resume(i), cs, ss, |ss|);
  }

  // ----- halting all cores

  /** Neither the debugger's continue nor a part of its step call. */
  predicate Leaves(c: Core, s: Step) { s !in {Continue, StepBegin, StepWake} }

  lemma IdleStep(c: Core, t: Step)
    requires Inv(c) && c.stepper.Idle? && Legal(c, t) && Leaves(c, t)
    ensures Inv(Apply(c, t)) && Apply(c, t).stepper.Idle? && (c.state == Halted ==> Apply(c, t).state == Halted)
  {
    CoreStepFacts(c, t);
  }

  predicate LeavingMove(c: Core, t: Step, d: Core) { CoreMoves(c, t, d) && Leaves(c, t) }

  predicate Resting(c: Core) { Inv(c) && c.stepper.Idle? }

  predicate RestingHalted(c: Core) { Resting(c) && c.state == Halted }

  lemma StaysIdle(cs: seq<Core>, ss: seq<Step>, k: nat, j: nat)
    requires CoreMachine.Run(cs, ss) && k <= j <= |ss| && Resting(cs[k])
    requires forall m :: 0 <= m < |ss| ==> Leaves(cs[m], ss[m])
    ensures Resting(cs[j]) && (cs[k].state == Halted ==> cs[j].state == Halted)
  {
    forall i | k <= i < j
      ensures LeavingMove(cs[i], ss[i], cs[i + 1])
    {
      assert Legal(cs[i], ss[i]) && cs[i + 1] == Apply(cs[i], ss[i]) && Leaves(cs[i], ss[i]);
    }
    SubPath(LeavingMove, cs, ss, k, j);
    PathStaysIdle(cs[k..j + 1], ss[k..j]);
  }

  lemma PathStaysIdle(cs: seq<Core>, ss: seq<Step>)
    requires IsPath(LeavingMove, cs, ss) && Resting(cs[0])
    ensures Resting(cs[|ss|]) && (cs[0].state == Halted ==> cs[|ss|].state == Halted)
  {
    forall c, t, d | Resting(c) && LeavingMove(c, t, d)
      ensures Resting(d)
      ensures c.state == Halted ==> d.state == Halted
    {
      IdleStep(c, t);
    }
    PathKeeps(LeavingMove, Resting, cs, ss, |ss|);
    if cs[0].state == Halted { PathKeeps(LeavingMove, RestingHalted, cs, ss, |ss|); }
  }

  /** Halted, or on the way there with every step of the thread having brought the core closer. */
  predicate Settled(before: Core, steps: nat, after: Core) {
    || after.state == Halted
    || (before.state == HaltPending == after.state && steps + HaltAck.Distance(after) <= HaltAck.Distance(before))
  }

  /** A core that is stopping comes to HALTED with as many steps of its thread as it is away, and then stays there. */
  lemma CoreSettles(cs: seq<Core>, ss: seq<Step>)
    requires CoreMachine.Run(cs, ss) && Inv(cs[0]) && Stopping(cs[0]) && cs[0].stepper.Idle?
    requires forall m :: 0 <= m < |ss| ==> Leaves(cs[m], ss[m])
    ensures Settled(cs[0], HaltAck.ThreadSteps(ss), cs[|ss|])
  {
    if cs[0].state == Halted {
      StaysIdle(cs, ss, 0, |ss|);
    } else {
      HaltAck.HaltAccounted(cs, ss);
      if k: nat :| HaltAck.HaltedAt(cs, k, HaltAck.Budget(cs[0])) {
        StaysIdle(cs, ss, 0, k);
        StaysIdle(cs, ss, k, |ss|);
      }
    }
  }

  /** An event with which the debugger neither continues nor steps a core. */
  predicate QuietMoves(s: System, e: Event, s': System) { Moves(s, e, s') && HandsOff(s, e) }

  ghost predicate QuietPath(r: seq<System>, es: seq<Event>) { IsPath(QuietMoves, r, es) }

  lemma QuietIsPath(r: seq<System>, es: seq<Event>)
    requires QuietPath(r, es)
    ensures Path(r, es)
  {
    forall i | 0 <= i < |es|
      ensures Moves(r[i], es[i], r[i + 1])
    {
      assert QuietMoves(r[i], es[i], r[i + 1]);
    }
  }

  lemma QuietLeaves(s: System, e: Event, s': System, i: nat)
    requires QuietMoves(s, e, s')
    ensures Touch(s, e, i).Some? ==> Leaves(CoreAt(s, i), Touch(s, e, i).value)
  {}

  lemma IdleUnlessStepped(s: System, i: nat)
    requires Sound(s, i) && !s.debugger.Crashed? && !s.debugger.InStep?
    ensures Inv(s.cores[i]) && s.cores[i].stepper.Idle?
  {}

  /** How many steps the thread of core `i` takes along the path. */
  function ThreadStepsOf(r: seq<System>, es: seq<Event>, i: nat): nat
    requires |r| == |es| + 1
  {
    HaltAck.ThreadSteps(Steps(r, es, i, |es|))
  }

  /** In the machine: with the debugger's hands off, a stopping core settles. */
  lemma Settles(r: seq<System>, es: seq<Event>, i: nat)
    requires QuietPath(r, es) && Sound(r[0], i) && Stopping(r[0].cores[i]) && !r[0].debugger.InStep?
    requires !r[0].debugger.Crashed?
    ensures Sound(r[|es|], i) && Settled(r[0].cores[i], ThreadStepsOf(r, es, i), r[|es|].cores[i])
    ensures r[0].cores[i].state == HaltPending ==> 1 <= HaltAck.Distance(r[0].cores[i]) <= 4
  {
    var n := |es|;
    QuietIsPath(r, es);
    CoreRuns(r, es, i, n);
    forall j | 0 <= j < n && Touch(r[j], es[j], i).Some?
      ensures Leaves(CoreAt(r[j], i), Touch(r[j], es[j], i).value)
    {
      assert QuietMoves(r[j], es[j], r[j + 1]);
      QuietLeaves(r[j], es[j], r[j + 1], i);
    }
    CoreRunsAll(r, es, i, n, Leaves);
    IdleUnlessStepped(r[0], i);
    CoreSettles(States(r, es, i, n), Steps(r, es, i, n));
    if r[0].cores[i].state == HaltPending { HaltAck.DistanceOutsideSteps(r[0].cores[i]); }
  }

  /**
    The core is halted to begin with, or its thread takes the steps, at most four, that bring it there. A thread
    that has nothing to acknowledge is not asked to do anything.
  */
  predicate Arrives(r: seq<System>, es: seq<Event>, i: nat)
    requires |r| == |es| + 1
  {
    i < |r[0].cores| ==>
      || r[0].cores[i].state == Halted
      || ThreadStepsOf(r, es, i) >= HaltAck.Distance(r[0].cores[i])
  }

  ghost predicate AllArrive(r: seq<System>, es: seq<Event>)
    requires |r| == |es| + 1
  {
    forall i: nat :: i < |r[0].cores| ==> Arrives(r, es, i)
  }

  /** All cores are halted. */
  predicate Still(s: System) { SystemInv(s) && AllHalted(s, 0, |s.cores|) }

  function CoresAre(n: nat): System -> bool { (s: System) => |s.cores| == n }

  lemma SameCoresAlong(r: seq<System>, es: seq<Event>, n: nat, k: nat)
    requires Path(r, es) && |r[0].cores| == n && k <= |es|
    ensures |r[k].cores| == n
  {
    forall s: System, e, s': System | CoresAre(n)(s) && Moves(s, e, s')
      ensures CoresAre(n)(s')
    {
      SameCores(s, e);
    }
    PathKeeps(Moves, CoresAre(n), r, es, k);
  }

  lemma InvAlong(r: seq<System>, es: seq<Event>, k: nat)
    requires Path(r, es) && SystemInv(r[0]) && k <= |es|
    ensures SystemInv(r[k])
  {
    forall s, e, s' | SystemInv(s) && Moves(s, e, s')
      ensures SystemInv(s')
    {
      SystemInvStep(s, e);
    }
    PathKeeps(Moves, SystemInv, r, es, k);
  }

  /**
    Once every core is halted or about to halt and every thread that has a halt to acknowledge takes the steps
    for it, all cores are HALTED at the end, as long as the debugger neither continues nor steps a core.
  */
  lemma AllSettle(r: seq<System>, es: seq<Event>)
    requires QuietPath(r, es) && SystemInv(r[0]) && !r[0].debugger.InStep? && !r[0].debugger.Crashed?
    requires AllArrive(r, es) && forall i :: 0 <= i < |r[0].cores| ==> Stopping(r[0].cores[i])
    ensures Still(r[|es|])
  {
    QuietIsPath(r, es);
    SameCoresAlong(r, es, |r[0].cores|, |es|);
    InvAlong(r, es, |es|);
    forall i: nat | i < |r[0].cores|
      ensures i < |r[|es|].cores| && r[|es|].cores[i].state == Halted
    {
      assert Arrives(r, es, i);
      Settles(r, es, i);
      if r[|es|].cores[i].state == HaltPending { PositiveDistance(r[|es|], i); }
    }
  }

  lemma PositiveDistance(s: System, i: nat)
    requires Sound(s, i) && s.cores[i].state == HaltPending
    ensures HaltAck.Distance(s.cores[i]) >= 1
  {}

  lemma StillStep(s: System, e: Event, s': System)
    requires Still(s) && QuietMoves(s, e, s')
    ensures Still(s')
  {
    SameCores(s, e);
    SystemInvStep(s, e);
    forall j: nat | j < |s.cores|
      ensures Next(s, e).cores[j].state == Halted
    {
      HaltedIsStable(s, e, j);
    }
  }

  /** A check begun meanwhile has not answered no. */
  predicate StillYes(s: System) { Still(s) && s.debugger != Answered(false) }

  lemma YesStep(s: System, e: Event)
    requires AllHalted(s, 0, |s.cores|) && s.debugger != Answered(false) && Possible(s, e)
    ensures Next(s, e).debugger != Answered(false)
  {}

  /** All cores stay halted for as long as the debugger keeps its hands off, and a check can only answer yes. */
  lemma KeptHalted(r: seq<System>, es: seq<Event>)
    requires QuietPath(r, es) && Still(r[0])
    ensures Still(r[|es|]) && (r[0].debugger != Answered(false) ==> r[|es|].debugger != Answered(false))
  {
    forall s, e, s' | Still(s) && QuietMoves(s, e, s')
      ensures Still(s')
    {
      StillStep(s, e, s');
    }
    PathKeeps(QuietMoves, Still, r, es, |es|);
    if r[0].debugger != Answered(false) {
      forall s, e, s' | StillYes(s) && QuietMoves(s, e, s')
        ensures StillYes(s')
      {
        StillStep(s, e, s');
        YesStep(s, e);
      }
      PathKeeps(QuietMoves, StillYes, r, es, |es|);
    }
  }

  // ----- the check of all cores

  predicate IsCheck(e: Event) { e == AskNext || e == AskDone }

  /** How often the check goes on between two points. */
  function Checks(es: seq<Event>, b: nat, k: nat): nat
    requires k <= |es|
  {
    Traces.Counted(IsCheck, es, b, k)
  }

  /**
    Where a check of `n` halted cores is after it went on `m` times: one look at each, and then the answer.
  */
  predicate Checked(s: System, n: nat, m: nat) {
    Still(s) && |s.cores| == n && s.debugger == if m <= n then Asking(m) else Answered(true)
  }

  function CheckedOf(n: nat): (System, nat) -> bool { (s: System, m: nat) => Checked(s, n, m) }

  lemma CheckStep(s: System, e: Event, s': System, n: nat, m: nat)
    requires Checked(s, n, m) && QuietMoves(s, e, s') && (IsCheck(e) ==> m < n + 1)
    ensures Checked(s', n, if IsCheck(e) then m + 1 else m)
  {
    StillStep(s, e, s');
    SameCores(s, e);
    CheckMoves(s, e, n, m);
  }

  lemma CheckMoves(s: System, e: Event, n: nat, m: nat)
    requires AllHalted(s, 0, |s.cores|) && |s.cores| == n && Possible(s, e) && (IsCheck(e) ==> m < n + 1)
    requires s.debugger == if m <= n then Asking(m) else Answered(true)
    ensures
      var m' := if IsCheck(e) then m + 1 else m;
      Next(s, e).debugger == if m' <= n then Asking(m') else Answered(true)
  {}

  /** A check that has begun can always go on, whatever the other threads do. */
  lemma CheckIsLive(s: System)
    requires s.debugger.Asking? && |s.halting| == |s.cores| + 1
    ensures Possible(s, if s.debugger.next < |s.cores| then AskNext else AskDone)
  {}

  /** A check begun over halted cores has looked at as many of them as it went on, and answers yes in the end. */
  lemma CheckCounts(r: seq<System>, es: seq<Event>, b: nat, k: nat, n: nat)
    requires |r| == |es| + 1 && b <= k <= |es| && QuietBetween(r, es, b, k)
    requires Checked(r[b], n, 0) && Checks(es, b, k) <= n + 1
    ensures Checked(r[k], n, Checks(es, b, k))
  {
    forall s: System, e: Event, s': System, m: nat |
      CheckedOf(n)(s, m) && QuietMoves(s, e, s') && (IsCheck(e) ==> m < n + 1)
      ensures CheckedOf(n)(s', if IsCheck(e) then m + 1 else m)
    {
      CheckStep(s, e, s', n, m);
    }
    PathCounts(QuietMoves, IsCheck, CheckedOf(n), n + 1, r, es, b, k);
  }

  lemma AskBegins(s: System, s': System)
    requires Still(s) && QuietMoves(s, Ask, s')
    ensures Checked(s', |s.cores|, 0)
  {
    StillStep(s, Ask, s');
    SameCores(s, Ask);
  }

  /** All events between two points keep the debugger's hands off. */
  ghost predicate QuietBetween(r: seq<System>, es: seq<Event>, b: nat, c: nat)
    requires |r| == |es| + 1 && c <= |es|
  {
    forall i :: b <= i < c ==> QuietMoves(r[i], es[i], r[i + 1])
  }

  /**
    Halt-all works. After a halt-all has told every core (at `b`) and every thread with a halt to acknowledge has
    taken the steps for it, at most four (by `c`), all cores are HALTED, and at any later point `d` they still
    are, as long as the debugger neither continues nor steps a core. A check begun before has not answered no
    since, and a check begun since then has, when it has come to its end, answered yes.
  */
  lemma HaltAllHalts(r: seq<System>, es: seq<Event>, t: nat, a: nat, b: nat, c: nat, d: nat)
    requires Manager.Run(r, es) && a < b <= c <= d <= |es| && es[a] == HaltLock(t) && QuietBetween(r, es, a + 1, d)
    requires forall i :: a < i < b ==> es[i] != HaltUnlock(t)
    requires t < |r[b].halting| && r[b].halting[t] == Signalling(|r[b].cores|)
    requires !r[b].debugger.InStep? && !r[b].debugger.Crashed?
    requires AllArrive(r[b..c + 1], es[b..c])
    ensures Still(r[c]) && Still(r[d])
    ensures r[c].debugger != Answered(false) ==> r[d].debugger != Answered(false)
    ensures forall k :: c <= k < d && es[k] == Ask && Checks(es, k + 1, d) == |r[c].cores| + 1 ==>
              r[d].debugger == Answered(true)
  {
    Told(r, es, t, a, b, d);
    SettledBy(r, es, a + 1, b, c, d);
    StillFrom(r, es, a + 1, c, d);
    forall k | c <= k < d && es[k] == Ask && Checks(es, k + 1, d) == |r[c].cores| + 1
      ensures r[d].debugger == Answered(true)
    {
      AskedSince(r, es, a + 1, c, k, d);
    }
  }

  lemma AskedSince(r: seq<System>, es: seq<Event>, a: nat, c: nat, k: nat, d: nat)
    requires |r| == |es| + 1 && a <= c <= k < d <= |es| && QuietBetween(r, es, a, d) && Still(r[c])
    requires es[k] == Ask && Checks(es, k + 1, d) == |r[c].cores| + 1
    ensures r[d].debugger == Answered(true)
  {
    StillAt(r, es, a, c, k, d);
    assert QuietMoves(r[k], es[k], r[k + 1]);
    AskBegins(r[k], r[k + 1]);
    CheckCounts(r, es, k + 1, d, |r[c].cores|);
  }

  lemma StillAt(r: seq<System>, es: seq<Event>, a: nat, c: nat, k: nat, d: nat)
    requires |r| == |es| + 1 && a <= c <= k <= d <= |es| && QuietBetween(r, es, a, d) && Still(r[c])
    ensures Still(r[k]) && |r[k].cores| == |r[c].cores|
  {
    QuietSegment(r, es, a, c, k, d);
    KeptHalted(r[c..k + 1], es[c..k]);
    QuietIsPath(r[c..k + 1], es[c..k]);
    SameCoresAlong(r[c..k + 1], es[c..k], |r[c].cores|, k - c);
  }

  lemma SettledBy(r: seq<System>, es: seq<Event>, a: nat, b: nat, c: nat, d: nat)
    requires |r| == |es| + 1 && a <= b <= c <= d <= |es| && QuietBetween(r, es, a, d)
    requires SystemInv(r[b]) && !r[b].debugger.InStep? && !r[b].debugger.Crashed?
    requires forall i :: 0 <= i < |r[b].cores| ==> Stopping(r[b].cores[i])
    requires AllArrive(r[b..c + 1], es[b..c])
    ensures Still(r[c])
  {
    QuietSegment(r, es, a, b, c, d);
    AllSettle(r[b..c + 1], es[b..c]);
  }

  lemma StillFrom(r: seq<System>, es: seq<Event>, a: nat, c: nat, d: nat)
    requires |r| == |es| + 1 && a <= c <= d <= |es| && QuietBetween(r, es, a, d) && Still(r[c])
    ensures Still(r[d]) && (r[c].debugger != Answered(false) ==> r[d].debugger != Answered(false))
  {
    QuietSegment(r, es, a, c, d, d);
    KeptHalted(r[c..d + 1], es[c..d]);
  }

  lemma QuietSegment(r: seq<System>, es: seq<Event>, a: nat, b: nat, c: nat, d: nat)
    requires |r| == |es| + 1 && a <= b <= c <= d <= |es| && QuietBetween(r, es, a, d)
    ensures QuietPath(r[b..c + 1], es[b..c])
  {
    SubPath(QuietMoves, r, es, b, c);
  }

  lemma Told(r: seq<System>, es: seq<Event>, t: nat, a: nat, b: nat, d: nat)
    requires Manager.Run(r, es) && a < b <= d <= |es| && es[a] == HaltLock(t) && QuietBetween(r, es, a + 1, d)
    requires forall i :: a < i < b ==> es[i] != HaltUnlock(t)
    requires t < |r[b].halting| && r[b].halting[t] == Signalling(|r[b].cores|)
    ensures SystemInv(r[b]) && forall i :: 0 <= i < |r[b].cores| ==> Stopping(r[b].cores[i])
  {
    forall i | a < i < b
      ensures HandsOff(r[i], es[i])
    {
      assert QuietMoves(r[i], es[i], r[i + 1]);
    }
    HaltAllReaches(r, es, t, a, b);
    RunSystemInv(r, es, b);
  }

  // ----- stepping one core while the others are halted

  predicate OthersHalted(s: System, c: nat) {
    forall j :: 0 <= j < |s.cores| && j != c ==> s.cores[j].state == Halted
  }

  /** An event during the step call on core `c`. */
  predicate MovesInStep(s: System, e: Event, s': System, c: nat) { Moves(s, e, s') && s.debugger == InStep(c) }

  predicate Alone(s: System, c: nat) { Sound(s, c) && OthersHalted(s, c) }

  function InStepOf(c: nat): (System, Event, System) -> bool { (s, e, s') => MovesInStep(s, e, s', c) }
  function AloneOf(c: nat): System -> bool { s => Alone(s, c) }

  /** Nobody halts the stepped core in the window: the other cores are not running, its own thread is parked. */
  lemma NoHaltInTheWindow(s: System, e: Event, s': System, c: nat)
    requires Alone(s, c) && MovesInStep(s, e, s', c)
    ensures Touch(s, e, c).Some? ==> !WindowHalt(CoreAt(s, c), Touch(s, e, c).value)
  {
    if e.HaltNext? && e.thread < |s.cores| {
      assert s.cores[e.thread].thread.Exec?;
      assert Inv(s.cores[e.thread]);
    }
  }

  lemma AloneStep(s: System, e: Event, s': System, c: nat)
    requires Alone(s, c) && MovesInStep(s, e, s', c)
    ensures Alone(s', c)
  {
    SameCores(s, e);
    SystemInvStep(s, e);
    forall j: nat | j < |s.cores| && j != c
      ensures Next(s, e).cores[j].state == Halted
    {
      HaltedIsStable(s, e, j);
    }
  }

  predicate OutsideTheWindow(c: Core, s: Step) { !WindowHalt(c, s) }

  /** At every point of the call the others are halted, so no event on the core is a halt in the window. */
  lemma WindowStaysClosed(r: seq<System>, es: seq<Event>, c: nat, j: nat)
    requires IsPath(InStepOf(c), r, es) && Alone(r[0], c) && j < |es|
    ensures Touch(r[j], es[j], c).Some? ==> OutsideTheWindow(CoreAt(r[j], c), Touch(r[j], es[j], c).value)
  {
    forall s, e, s' | AloneOf(c)(s) && InStepOf(c)(s, e, s')
      ensures AloneOf(c)(s')
    {
      AloneStep(s, e, s', c);
    }
    PathKeeps(InStepOf(c), AloneOf(c), r, es, j);
    assert InStepOf(c)(r[j], es[j], r[j + 1]);
    NoHaltInTheWindow(r[j], es[j], r[j + 1], c);
  }

  lemma InStepIsPath(r: seq<System>, es: seq<Event>, c: nat)
    requires IsPath(InStepOf(c), r, es)
    ensures Path(r, es)
  {
    forall i | 0 <= i < |es|
      ensures Moves(r[i], es[i], r[i + 1])
    {
      assert InStepOf(c)(r[i], es[i], r[i + 1]);
    }
  }

  /**
    A step call issued while all other cores are halted, as after every positive answer of the check, meets
    no halt in its window, whatever the machine does meanwhile; so it has returned, or every due step of it, at
    most nine in all, has brought it closer to that.
  */
  lemma StepUnderSnapshotReturns(r: seq<System>, es: seq<Event>, c: nat)
    requires IsPath(InStepOf(c), r, es) && Alone(r[0], c)
    requires Posted(r[0].cores[c]) && InHandshake(r[0].cores[c])
    ensures
      var cs, ss := States(r, es, c, |es|), Steps(r, es, c, |es|);
      && NoWindowHalt(cs, ss)
      && ((exists k :: ReturnsAt(cs, k)) || StillInCall(cs, ss))
      && (DueSteps(cs, ss) >= Remaining(r[0].cores[c]) ==> exists k :: ReturnsAt(cs, k))
  {
    var n := |es|;
    InStepIsPath(r, es, c);
    CoreRuns(r, es, c, n);
    forall j | 0 <= j < n && Touch(r[j], es[j], c).Some?
      ensures OutsideTheWindow(CoreAt(r[j], c), Touch(r[j], es[j], c).value)
    {
      WindowStaysClosed(r, es, c, j);
    }
    CoreRunsAll(r, es, c, n, OutsideTheWindow);
    var cs, ss := States(r, es, c, n), Steps(r, es, c, n);
    assert forall m :: 0 <= m < |ss| ==> OutsideTheWindow(cs[m], ss[m]);
    StepCallAccounted(cs, ss);
  }

  /** Such a call: the debugger found the core halted and enters the step. */
  lemma StepGoPosts(s: System)
    requires SystemInv(s) && Possible(s, StepGo) && OthersHalted(s, s.debugger.core)
    ensures
      var d, c := Next(s, StepGo), s.debugger.core;
      d.debugger == InStep(c) && Alone(d, c) && Posted(d.cores[c]) && InHandshake(d.cores[c])
  {
    SystemInvStep(s, StepGo);
    StepCallStarts(s.cores[s.debugger.core]);
  }

  /**
    Until such a call returns the machine can always go on with it: with a due step of the debugger or of the
    core's thread, or, while that thread is inside a halt-all, with the next event of the halt-all.
  */
  lemma StepIsLive(s: System, c: nat) returns (e: Event)
    requires Alone(s, c) && s.debugger == InStep(c) && InHandshake(s.cores[c])
    ensures Possible(s, e)
    ensures (Touch(s, e, c).Some? && Prompted(s.cores[c], Touch(s, e, c).value))
            || e in {HaltLock(c), HaltNext(c), HaltUnlock(c)}
  {
    var t := HandshakeIsLive(s.cores[c]);
    if t == StepWake {
      e := StepResume;
    } else if s.halting[c].NotHalting? {
      e := ThreadStep(c, t);
    } else if s.halting[c].WantsLock? {
      NobodyElseInside(s, c);
      e := HaltLock(c);
    } else {
      e := if s.halting[c].next < |s.cores| then HaltNext(c) else HaltUnlock(c);
    }
  }

  /** The manager mutex is free for it: no other core runs, and the debugger is in the step call. */
  lemma NobodyElseInside(s: System, c: nat)
    requires Alone(s, c) && s.debugger == InStep(c) && s.halting[c].WantsLock?
    ensures s.mutex.Free?
  {
    forall t | 0 <= t < |s.halting|
      ensures !InsideMutex(s, t)
    {
      if t < |s.cores| && t != c { HaltedDoesNotHalt(s, t); }
    }
  }

  /** A halted core's thread is not inside a halt-all: it would have to be running. */
  lemma HaltedDoesNotHalt(s: System, t: nat)
    requires SystemInv(s) && !s.debugger.Crashed? && t < |s.cores| && s.cores[t].state == Halted
    ensures t < |s.halting| && s.halting[t].NotHalting?
  {
    assert Inv(s.cores[t]);
  }

  // ----- what can always happen next

  /**
    Until a stopping core is HALTED the machine can go on with it: with the next step of its thread, with the
    halt-all that thread is inside, or with the holder of the manager mutex that the halt-all waits for.
  */
  lemma HaltIsLive(s: System, i: nat) returns (e: Event)
    requires Sound(s, i) && !s.debugger.Crashed? && s.cores[i].state == HaltPending
    ensures Possible(s, e)
    ensures
      || e == ThreadStep(i, HaltAck.NextThreadStep(s.cores[i].thread))
      || e in {HaltLock(i), HaltNext(i), HaltUnlock(i)}
      || (s.halting[i].WantsLock? && exists u :: s.mutex == Held(u) && InsideMutex(s, u) && e == HolderEvent(s, u))
  {
    HaltAck.HaltPendingIsLive(s.cores[i]);
    if s.halting[i].NotHalting? {
      e := ThreadStep(i, HaltAck.NextThreadStep(s.cores[i].thread));
    } else if s.halting[i].Signalling? {
      e := if s.halting[i].next < |s.cores| then HaltNext(i) else HaltUnlock(i);
    } else if s.mutex.Free? {
      e := HaltLock(i);
    } else {
      HolderProgress(s, s.mutex.thread);
      e := HolderEvent(s, s.mutex.thread);
    }
  }
}
