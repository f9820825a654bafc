/**
  What the calls of the threads manager do to the cores, whatever is interleaved with them: a continue-all
  continues every core once, a continue or a step reaches the core it names and no other.
*/
module ManagerCalls {
  import opened Partial
  import opened Traces
  import opened CoreMachine
  import opened Manager
  import opened Projection
  import opened SystemRuns
  import Acknowledge
  import HaltAck

  /** The event continues core `i`. */
  predicate ContinuesCore(s: System, e: Event, i: nat) { Touch(s, e, i) == Some(Continue) }

  function Continuing(i: nat): (System, Event) -> bool { (s, e) => ContinuesCore(s, e, i) }

  /** How many continues core `i` takes along the path. */
  function Continues(r: seq<System>, es: seq<Event>, i: nat): nat
    requires |r| == |es| + 1
  {
    Hits(Continuing(i), r, es, 0, |es|)
  }

  /** The first loop only looks; the second one has continued the cores it has passed, each once. */
  predicate Passed(s: System, i: nat, continues: nat) {
    match s.debugger
    case CheckAll(_) => continues == 0
    case Crashed => continues == 0
    case ContinueAll(next) => continues == if i < next then 1 else 0
    case _ => false
  }

  function PassedAt(i: nat): (System, nat) -> bool { (s: System, m: nat) => Sound(s, i) && Passed(s, i, m) }

  predicate LockedMoves(s: System, e: Event, s': System) { Moves(s, e, s') && e != AllUnlock }

  predicate Acquires(s: System, e: Event) { Possible(s, e) && e == AllTryLock && s.mutex.Free? }

  lemma PassedStep(s: System, e: Event, i: nat, n: nat)
    requires Sound(s, i) && Possible(s, e) && e != AllUnlock && Passed(s, i, n)
    ensures Passed(Next(s, e), i, if ContinuesCore(s, e, i) then n + 1 else n)
  {}

  lemma PassedStarts(s: System, e: Event, i: nat)
    requires Acquires(s, e) && i < |s.cores|
    ensures Touch(s, e, i).None? && Passed(Next(s, e), i, 0)
  {}

  /** So it is at every point of a continue-all, whatever the other threads do in between. */
  lemma ContinueAllPasses(r: seq<System>, es: seq<Event>, i: nat, a: nat, k: nat)
    requires Path(r, es) && Sound(r[0], i) && a < k <= |es| && Acquires(r[a], es[a])
    requires forall j :: a < j < k ==> es[j] != AllUnlock
    ensures Passed(r[k], i, Continues(r[a + 1..k + 1], es[a + 1..k], i))
  {
    CoreRuns(r, es, i, a + 1);
    PassedAfterLock(r, es, i, a);
    StaysLocked(r, es, a + 1, k);
    PassedCounts(r[a + 1..k + 1], es[a + 1..k], i);
  }

  lemma StaysLocked(r: seq<System>, es: seq<Event>, b: nat, k: nat)
    requires Path(r, es) && b <= k <= |es| && forall j :: b <= j < k ==> es[j] != AllUnlock
    ensures IsPath(LockedMoves, r[b..k + 1], es[b..k])
  {
    forall j | b <= j < k
      ensures LockedMoves(r[j], es[j], r[j + 1])
    {
      assert Moves(r[j], es[j], r[j + 1]);
    }
    SubPath(LockedMoves, r, es, b, k);
  }

  lemma PassedAfterLock(r: seq<System>, es: seq<Event>, i: nat, a: nat)
    requires Path(r, es) && a < |es| && Acquires(r[a], es[a]) && Sound(r[a + 1], i)
    ensures Passed(r[a + 1], i, 0)
  {
    assert Moves(r[a], es[a], r[a + 1]);
    SameCores(r[a], es[a]);
    PassedStarts(r[a], es[a], i);
  }

  lemma PassedMoves(s: System, e: Event, s': System, i: nat, m: nat)
    requires Sound(s, i) && Passed(s, i, m) && LockedMoves(s, e, s')
    ensures Sound(s', i) && Passed(s', i, if ContinuesCore(s, e, i) then m + 1 else m)
  {
    PassedStep(s, e, i, m);
    EventProjects(s, e, i);
  }

  lemma PassedCounts(r: seq<System>, es: seq<Event>, i: nat)
    requires IsPath(LockedMoves, r, es) && Sound(r[0], i) && Passed(r[0], i, 0)
    ensures Passed(r[|es|], i, Continues(r, es, i))
  {
    forall s, e, s', m: nat | PassedAt(i)(s, m) && LockedMoves(s, e, s')
      ensures PassedAt(i)(s', if Continuing(i)(s, e) then m + 1 else m)
    {
      PassedMoves(s, e, s', i, m);
    }
    PathHits(LockedMoves, Continuing(i), PassedAt(i), r, es, 0, |es|);
    assert PassedAt(i)(r[|es|], Continues(r, es, i));
  }

  /** A continue-all that got the mutex and gave it back has continued every core exactly once. */
  lemma ContinueAllContinuesAll(r: seq<System>, es: seq<Event>, i: nat, a: nat, b: nat)
    requires Path(r, es) && Sound(r[0], i) && a < b < |es| && Acquires(r[a], es[a]) && es[b] == AllUnlock
    requires forall j :: a < j < b ==> es[j] != AllUnlock
    ensures Continues(r[a + 1..b + 1], es[a + 1..b], i) == 1
  {
    ContinueAllPasses(r, es, i, a, b);
    CoreRuns(r, es, i, b);
    assert Moves(r[b], es[b], r[b + 1]);
    PassedAllAtUnlock(r[b], i, Continues(r[a + 1..b + 1], es[a + 1..b], i));
  }

  lemma PassedAllAtUnlock(s: System, i: nat, n: nat)
    requires Possible(s, AllUnlock) && i < |s.cores| && Passed(s, i, n)
    ensures n == 1
  {}

  // ----- one core

  /** The debugger has looked at core `i` and is about to continue it. */
  lemma {:induction false} ContinueOneWaits(r: seq<System>, es: seq<Event>, i: nat, a: nat, k: nat)
    requires Path(r, es) && a < k <= |es| && es[a] == ContinueCall(i) && !TestsBadly(r[a], i)
    requires forall j :: a < j < k ==> es[j] != ContinueGo
    ensures r[k].debugger == ContinueOne(i)
  {
    assert Moves(r[k - 1], es[k - 1], r[k - 1 + 1]);
    if k > a + 1 { ContinueOneWaits(r, es, i, a, k - 1); }
  }

  predicate TestsBadly(s: System, i: nat) { i < |s.cores| && s.cores[i].state != Halted }

  lemma {:induction false} StepOneWaits(r: seq<System>, es: seq<Event>, i: nat, a: nat, k: nat)
    requires Path(r, es) && a < k <= |es| && es[a] == StepCall(i) && !TestsBadly(r[a], i)
    requires forall j :: a < j < k ==> es[j] != StepGo
    ensures r[k].debugger == StepOne(i)
  {
    assert Moves(r[k - 1], es[k - 1], r[k - 1 + 1]);
    if k > a + 1 { StepOneWaits(r, es, i, a, k - 1); }
  }

  /** A continue acts on the core it was asked for, which is still HALTED, and on no other. */
  lemma ContinueReachesItsCore(r: seq<System>, es: seq<Event>, i: nat, a: nat, b: nat)
    requires Path(r, es) && Sound(r[0], i) && a < b < |es|
    requires es[a] == ContinueCall(i) && CoreAt(r[a], i).state == Halted && es[b] == ContinueGo
    requires forall j :: a < j < b ==> es[j] != ContinueGo
    ensures i < |r[b].cores| && r[b].cores[i].state == Halted
    ensures r[b + 1].cores == r[b].cores[i := ApplyContinue(r[b].cores[i])]
  {
    ContinueOneWaits(r, es, i, a, b);
    CoreRuns(r, es, i, b);
    assert Moves(r[b], es[b], r[b + 1]);
  }

  /** So does a step: it posts the STEP signal there. */
  lemma StepReachesItsCore(r: seq<System>, es: seq<Event>, i: nat, a: nat, b: nat)
    requires Path(r, es) && Sound(r[0], i) && a < b < |es|
    requires es[a] == StepCall(i) && CoreAt(r[a], i).state == Halted && es[b] == StepGo
    requires forall j :: a < j < b ==> es[j] != StepGo
    ensures i < |r[b].cores| && r[b].cores[i].state == Halted
    ensures r[b + 1].cores == r[b].cores[i := ApplyStepBegin(r[b].cores[i])] && r[b + 1].debugger == InStep(i)
  {
    StepOneWaits(r, es, i, a, b);
    CoreRuns(r, es, i, b);
    assert Moves(r[b], es[b], r[b + 1]);
  }

  // ----- to the end

  /**
    A core that is continued, by itself or with all others, and that nobody halts, does what its buffered
    signal says once its thread has taken at most four steps.
  */
  lemma ContinueIsServed(r: seq<System>, es: seq<Event>, i: nat, a: nat)
    requires Path(r, es) && Sound(r[0], i) && a < |es| && Touch(r[a], es[a], i) == Some(Continue)
    requires forall j :: a < j < |es| ==> Touch(r[j], es[j], i) != Some(Halt)
    requires ThreadStepsOf(r[a + 1..], es[a + 1..], i) >= 4
    ensures exists j: nat :: a < j <= |es| && Acknowledge.Obeys(CoreAt(r[j], i), CoreAt(r[a], i).buffered)
  {
    ContinuedAt(r, es, i, a);
    var r', es' := r[a + 1..], es[a + 1..];
    Later(r, es, a + 1);
    forall j | 0 <= j < |es'|
      ensures Touch(r'[j], es'[j], i) != Some(Halt)
    {
      assert r'[j] == r[a + 1 + j] && es'[j] == es[a + 1 + j];
    }
    Acknowledge.RequestServed(r', es', i);
    var j: nat :| j <= |es'| && Acknowledge.Obeys(CoreAt(r'[j], i), r'[0].cores[i].signal);
    assert r'[j] == r[a + 1 + j];
  }

  lemma ContinuedAt(r: seq<System>, es: seq<Event>, i: nat, a: nat)
    requires Path(r, es) && Sound(r[0], i) && a < |es| && Touch(r[a], es[a], i) == Some(Continue)
    ensures Sound(r[a + 1], i) && !r[a + 1].debugger.Crashed?
    ensures r[a + 1].cores[i].state == ContinuePending && r[a + 1].cores[i].signal == CoreAt(r[a], i).buffered
  {
    CoreRuns(r, es, i, a);
    CoreRuns(r, es, i, a + 1);
    assert Moves(r[a], es[a], r[a + 1]);
    ContinuedCore(r[a], es[a], i);
  }

  lemma ContinuedCore(s: System, e: Event, i: nat)
    requires Sound(s, i) && Touch(s, e, i) == Some(Continue)
    ensures
      var d := Next(s, e);
      && !d.debugger.Crashed? && i < |d.cores|
      && d.cores[i].state == ContinuePending && d.cores[i].signal == CoreAt(s, i).buffered
  {
    SameCores(s, e);
    ManagerIsDisciplined(s, e);
    Acknowledge.ContinueEntersPending(s.cores[i]);
  }

  lemma Later(r: seq<System>, es: seq<Event>, a: nat)
    requires Path(r, es) && a <= |es|
    ensures Path(r[a..], es[a..])
  {
    SubPath(Moves, r, es, a, |es|);
    assert r[a..|es| + 1] == r[a..] && es[a..|es|] == es[a..];
  }

  // ----- without interference

  /** The calls as one thread runs them: a path of that thread's own events. */
  ghost predicate ByItself(r: seq<System>, es: seq<Event>, s: System, own: set<Event>) {
    Path(r, es) && r[0] == s && forall k :: 0 <= k < |es| ==> es[k] in own
  }

  lemma Goes(r: seq<System>, es: seq<Event>, s: System, own: set<Event>, e: Event)
    returns (r': seq<System>, es': seq<Event>)
    requires ByItself(r, es, s, own) && e in own && Possible(r[|es|], e)
    ensures ByItself(r', es', s, own) && r'[|es'|] == Next(r[|es|], e)
  {
    r', es' := r + [Next(r[|es|], e)], es + [e];
    assert Moves(r[|es|], e, Next(r[|es|], e));
    PathGrows(Moves, r, es, e, Next(r[|es|], e));
  }

  /** Every core as the step leaves it, up to `k`. */
  function Mapped(f: Core -> Core, cores: seq<Core>, k: nat): (d: seq<Core>)
    requires k <= |cores|
  {
    seq(|cores|, i requires 0 <= i < |cores| => if i < k then f(cores[i]) else cores[i])
  }

  lemma MappedNext(f: Core -> Core, cores: seq<Core>, k: nat)
    requires k < |cores|
    ensures Mapped(f, cores, k)[k] == cores[k]
    ensures Mapped(f, cores, k)[k := f(cores[k])] == Mapped(f, cores, k + 1)
  {}

  /** Nobody in the way: a halt-all, as the loop without interference does it, leaves every core as a halt does. */
  lemma HaltAllAlone(s: System, t: nat) returns (r: seq<System>, es: seq<Event>)
    requires Possible(s, HaltCall(t)) && s.mutex.Free?
    ensures
      var own := {HaltCall(t), HaltLock(t), HaltNext(t), HaltUnlock(t)};
      ByItself(r, es, s, own) && r[|es|] == s.(cores := Mapped(ApplyHalt, s.cores, |s.cores|))
  {
    var own := {HaltCall(t), HaltLock(t), HaltNext(t), HaltUnlock(t)};
    r, es := Goes([s], [], s, own, HaltCall(t));
    r, es := Goes(r, es, s, own, HaltLock(t));
    assert Mapped(ApplyHalt, s.cores, 0) == s.cores;
    for k := 0 to |s.cores|
      invariant ByItself(r, es, s, own)
      invariant r[|es|] == s.(cores := Mapped(ApplyHalt, s.cores, k), mutex := Owner.Held(t),
                              halting := s.halting[t := Signalling(k)])
    {
      MappedNext(ApplyHalt, s.cores, k);
      r, es := Goes(r, es, s, own, HaltNext(t));
    }
    r, es := Goes(r, es, s, own, HaltUnlock(t));
    assert s.halting[t := Signalling(|s.cores|)][t := NotHalting] == s.halting;
  }

  /** A check answers whether all cores are halted. */
  lemma CheckAlone(s: System) returns (r: seq<System>, es: seq<Event>)
    requires Possible(s, Ask)
    ensures ByItself(r, es, s, {Ask, AskNext, AskDone})
    ensures r[|es|] == s.(debugger := Answered(AllHalted(s, 0, |s.cores|)))
  {
    var own := {Ask, AskNext, AskDone};
    r, es := Goes([s], [], s, own, Ask);
    for k := 0 to |s.cores|
      invariant ByItself(r, es, s, own) && r[|es|] == s.(debugger := Asking(k)) && AllHalted(s, 0, k)
    {
      r, es := Goes(r, es, s, own, AskNext);
      if s.cores[k].state != Halted { return; }
    }
    r, es := Goes(r, es, s, own, AskDone);
  }

  const CONTINUING: set<Event> := {AllTryLock, AllCheck, AllContinue, AllUnlock}

  /** The first loop, over halted cores. */
  lemma ChecksAlone(s: System) returns (r: seq<System>, es: seq<Event>)
    requires Possible(s, AllTryLock) && s.mutex.Free?
    requires forall i :: 0 <= i < |s.cores| ==> s.cores[i].state == Halted
    ensures ByItself(r, es, s, CONTINUING)
    ensures r[|es|] == s.(mutex := Owner.Held(|s.cores|), debugger := ContinueAll(0))
  {
    r, es := Goes([s], [], s, CONTINUING, AllTryLock);
    for k := 0 to |s.cores|
      invariant ByItself(r, es, s, CONTINUING)
      invariant r[|es|] == s.(mutex := Owner.Held(|s.cores|), debugger := CheckAll(k))
    {
      r, es := Goes(r, es, s, CONTINUING, AllCheck);
    }
    r, es := Goes(r, es, s, CONTINUING, AllCheck);
  }

  /** And a continue-all leaves every core as a continue does. */
  lemma ContinueAllAlone(s: System) returns (r: seq<System>, es: seq<Event>)
    requires Possible(s, AllTryLock) && s.mutex.Free?
    requires forall i :: 0 <= i < |s.cores| ==> s.cores[i].state == Halted && s.cores[i].stepper.Idle?
    ensures ByItself(r, es, s, CONTINUING) && r[|es|] == s.(cores := Mapped(ApplyContinue, s.cores, |s.cores|))
  {
    r, es := ChecksAlone(s);
    assert Mapped(ApplyContinue, s.cores, 0) == s.cores;
    for k := 0 to |s.cores|
      invariant ByItself(r, es, s, CONTINUING)
      invariant r[|es|] == ContinuedUpTo(s, k)
    {
      MappedNext(ApplyContinue, s.cores, k);
      r, es := Goes(r, es, s, CONTINUING, AllContinue);
    }
    r, es := Goes(r, es, s, CONTINUING, AllUnlock);
  }

  function ContinuedUpTo(s: System, k: nat): System
    requires k <= |s.cores|
  {
    s.(cores := Mapped(ApplyContinue, s.cores, k), mutex := Owner.Held(|s.cores|), debugger := ContinueAll(k))
  }
}
