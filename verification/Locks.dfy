/**
  The mutexes of the machine. `Manager` takes a critical section of a core as one event; here it is split
  into locking the core's mutex and the section itself, which gives the mutex back at its end, at each wait
  and before the run loop. The manager mutex is the one of `Manager`. Threads 0 to n - 1 are the core
  threads, thread n is the debugger.
*/
module Locks {
  import opened Partial
  import opened CoreMachine
  import opened Manager
  import opened Projection

  /** A critical section on a core that a thread has locked and not yet performed. */
  datatype Section = Section(core: nat, event: Event)

  datatype Machine = Machine(sys: System, owner: seq<Owner>, inside: seq<Option<Section>>)

  datatype Action =
    | Acquire(thread: nat, event: Event)   // lock the core mutex in front of a section
    | Perform(thread: nat)                 // the section and the unlock
    | LockFree(thread: nat, event: Event)  // an event outside all core mutexes

  /** The thread that does the event; HSM requests come out of an instruction of any core. */
  predicate Does(s: System, t: nat, e: Event)
    requires |s.halting| == |s.cores| + 1
  {
    match e
    case ThreadStep(i, _) => t == i
    case Request(_, _) => t < |s.cores| && s.cores[t].thread.Exec? && s.halting[t].NotHalting?
    case HaltCall(u) => t == u
    case HaltLock(u) => t == u
    case HaltNext(u) => t == u
    case HaltUnlock(u) => t == u
    case _ => t == |s.cores|
  }

  /** The core whose mutex the event's section is under. */
  function Guard(s: System, e: Event): Option<nat>
    requires Possible(s, e)
  {
    match e
    case ThreadStep(i, t) => if t == Execute || t == ReadFlag then None else Some(i)
    case Request(i, _) => Some(i)
    case HaltNext(t) => Some(s.halting[t].next)
    case AskNext => Some(s.debugger.next)
    case ContinueCall(i) => Some(i)
    case ContinueGo => Some(s.debugger.core)
    case StepCall(i) => Some(i)
    case StepGo => Some(s.debugger.core)
    case StepResume => Some(s.debugger.core)
    case AllCheck => if s.debugger.next < |s.cores| then Some(s.debugger.next) else None
    case AllContinue => Some(s.debugger.next)
    case _ => None
  }

  /** Every step on a core other than executing an instruction and reading the exit flag is under its mutex. */
  lemma SectionsAreGuarded(s: System, e: Event)
    requires Possible(s, e) && Acts(s, e).0 < |s.cores| && Acts(s, e).1 !in {Execute, ReadFlag}
    ensures Guard(s, e) == Some(Acts(s, e).0)
  {}

  /** And so is every look at one: without a mutex, what the cores are like makes no difference to the calls. */
  lemma UnguardedLooksAtNoCore(s: System, e: Event, cores: seq<Core>)
    requires |cores| == |s.cores| && Possible(s, e) && Guard(s, e).None?
    requires Possible(s.(cores := cores), e) && Guard(s.(cores := cores), e).None?
    ensures
      var a, b := Next(s, e), Next(s.(cores := cores), e);
      a.debugger == b.debugger && a.halting == b.halting && a.mutex == b.mutex
  {}

  predicate Shaped(m: Machine) {
    |m.sys.halting| == |m.sys.cores| + 1 && |m.owner| == |m.sys.cores| && |m.inside| == |m.sys.halting|
  }

  /** Thread `t`, outside all core mutexes, is about to do `e`. */
  predicate About(m: Machine, t: nat, e: Event)
    requires Shaped(m)
  {
    t < |m.inside| && m.inside[t].None? && Possible(m.sys, e) && Does(m.sys, t, e)
  }

  predicate Can(m: Machine, a: Action) {
    && Shaped(m)
    && match a
       case Acquire(t, e) =>
         && About(m, t, e) && Guard(m.sys, e).Some? && Guard(m.sys, e).value < |m.owner|
         && m.owner[Guard(m.sys, e).value].Free?
       case Perform(t) =>
         && t < |m.inside| && m.inside[t].Some? && m.inside[t].value.core < |m.owner|
         && Possible(m.sys, m.inside[t].value.event)
       case LockFree(t, e) => About(m, t, e) && Guard(m.sys, e).None?
  }

  function After(m: Machine, a: Action): Machine
    requires Can(m, a)
  {
    match a
    case Acquire(t, e) =>
      var i := Guard(m.sys, e).value;
      m.(owner := m.owner[i := Held(t)], inside := m.inside[t := Some(Section(i, e))])
    case Perform(t) =>
      var s := m.inside[t].value;
      Machine(Next(m.sys, s.event), m.owner[s.core := Free], m.inside[t := None])
    case LockFree(_, e) => m.(sys := Next(m.sys, e))
  }

  predicate Fresh(m: Machine) {
    && Initial(m.sys) && Shaped(m)
    && (forall i :: 0 <= i < |m.owner| ==> m.owner[i].Free?)
    && (forall t :: 0 <= t < |m.inside| ==> m.inside[t].None?)
  }

  // ----- what other threads leave alone

  lemma SignalsKeepTheLocation(c: Core, t: Step)
    requires Enabled(c, t) && t !in {Dispatch, Wake, Execute, ReadFlag, Leave}
    ensures Apply(c, t).thread == c.thread || (Apply(c, t).thread.Parked? && c.thread.Parked?)
  {}

  /** The kind of location of a core thread. */
  predicate SameKind(a: ThreadLoc, b: ThreadLoc) {
    && (a.Ready? <==> b.Ready?) && (a.Parked? <==> b.Parked?) && (a.Exec? <==> b.Exec?)
    && (a.Check? <==> b.Check?) && (a.Leaving? <==> b.Leaving?)
  }

  /** An event moves the location of no thread but its own. */
  lemma OthersKeepTheirPlace(s: System, u: nat, e: Event, v: nat)
    requires SystemInv(s) && Possible(s, e) && Does(s, u, e) && v < |s.cores| && v != u
    ensures |Next(s, e).cores| == |s.cores| && SameKind(Next(s, e).cores[v].thread, s.cores[v].thread)
  {
    SameCores(s, e);
    var (i, t) := Acts(s, e);
    if i == v {
      ManagerIsDisciplined(s, e);
      SignalsKeepTheLocation(s.cores[v], t);
    } else {
      PassedBy(s, e, v);
    }
  }

  lemma OthersKeepHalting(s: System, u: nat, e: Event, v: nat)
    requires Possible(s, e) && Does(s, u, e) && v < |s.halting| && v != u
    ensures |Next(s, e).halting| == |s.halting| && Next(s, e).halting[v] == s.halting[v]
  {}

  lemma OthersKeepTheDebugger(s: System, u: nat, e: Event)
    requires Possible(s, e) && Does(s, u, e) && u != |s.cores|
    ensures Next(s, e).debugger == s.debugger
  {}

  /** Nor do they start or end a step call, or take a core out of HALTED. */
  lemma OthersKeepTheStepper(s: System, u: nat, e: Event, v: nat)
    requires SystemInv(s) && Possible(s, e) && Does(s, u, e) && u != |s.cores| && v < |s.cores|
    ensures |Next(s, e).cores| == |s.cores| && (Next(s, e).cores[v].stepper.Idle? <==> s.cores[v].stepper.Idle?)
    ensures s.cores[v].state == Halted && s.cores[v].stepper.Idle? ==> Next(s, e).cores[v].state == Halted
  {
    SameCores(s, e);
    var (i, t) := Acts(s, e);
    if i == v {
      ManagerIsDisciplined(s, e);
      CoreStepFacts(s.cores[v], t);
    } else {
      PassedBy(s, e, v);
    }
  }

  /** So what a thread is about to do it can still do after any event of another thread. */
  lemma StillPossible(s: System, u: nat, e': Event, t: nat, e: Event)
    requires SystemInv(s) && Possible(s, e') && Does(s, u, e') && Possible(s, e) && Does(s, t, e) && t != u
    requires Guard(s, e).Some? && !Next(s, e').debugger.Crashed?
    ensures Possible(Next(s, e'), e) && Does(Next(s, e'), t, e) && Guard(Next(s, e'), e) == Guard(s, e)
  {
    var d := Next(s, e');
    SameCores(s, e');
    OthersKeepHalting(s, u, e', t);
    if t < |s.cores| {
      OthersKeepTheirPlace(s, u, e', t);
    } else {
      OthersKeepTheDebugger(s, u, e');
      OthersKeepHalting(s, u, e', |s.cores|);
      DebuggerStillPossible(s, u, e', e);
    }
  }

  lemma DebuggerStillPossible(s: System, u: nat, e': Event, e: Event)
    requires SystemInv(s) && Possible(s, e') && Does(s, u, e') && Possible(s, e) && Does(s, |s.cores|, e)
    requires u != |s.cores| && Guard(s, e).Some? && |Next(s, e').cores| == |s.cores|
    requires Next(s, e').debugger == s.debugger && |Next(s, e').halting| == |s.halting|
    requires Next(s, e').halting[|s.cores|] == s.halting[|s.cores|]
    ensures Possible(Next(s, e'), e) && Guard(Next(s, e'), e) == Guard(s, e)
  {
    if e.ContinueGo? || e.StepGo? || e.StepResume? {
      OthersKeepTheStepper(s, u, e', s.debugger.core);
    } else if e.AllContinue? {
      OthersKeepTheStepper(s, u, e', s.debugger.next);
    }
  }

  // ----- the invariant of the mutexes

  /** Thread `t` is in front of the section it has locked, and can perform it. */
  predicate Holds(m: Machine, t: nat)
    requires Shaped(m) && t < |m.inside|
  {
    m.inside[t].Some? ==>
      var s := m.inside[t].value;
      && s.core < |m.owner| && m.owner[s.core] == Held(t)
      && Possible(m.sys, s.event) && Does(m.sys, t, s.event) && Guard(m.sys, s.event) == Some(s.core)
  }

  /** The owner of a core mutex is in front of a section on that core. */
  predicate Owned(m: Machine, i: nat)
    requires Shaped(m) && i < |m.owner|
  {
    m.owner[i].Held? ==>
      var t := m.owner[i].thread;
      t < |m.inside| && m.inside[t].Some? && m.inside[t].value.core == i
  }

  predicate LocksInv(m: Machine) {
    m.sys.debugger.Crashed? ||
    (&& Shaped(m) && SystemInv(m.sys)
     && (forall t :: 0 <= t < |m.inside| ==> Holds(m, t))
     && (forall i :: 0 <= i < |m.owner| ==> Owned(m, i)))
  }

  lemma LocksInvInit(m: Machine)
    requires Fresh(m)
    ensures LocksInv(m)
  {
    SystemInvInit(m.sys);
  }

  lemma AcquireKeeps(m: Machine, t: nat, e: Event)
    requires LocksInv(m) && !m.sys.debugger.Crashed? && Can(m, Acquire(t, e))
    ensures LocksInv(After(m, Acquire(t, e)))
  {
    var d := After(m, Acquire(t, e));
    forall v | 0 <= v < |d.inside|
      ensures Holds(d, v)
    {
      assert Holds(m, v);
    }
    forall i | 0 <= i < |d.owner|
      ensures Owned(d, i)
    {
      assert Owned(m, i);
    }
  }

  lemma NextShape(s: System, e: Event)
    requires Possible(s, e)
    ensures |Next(s, e).cores| == |s.cores| && |Next(s, e).halting| == |s.halting|
  {}

  /** An event of thread `u` leaves every other thread in front of its section. */
  lemma OthersHold(m: Machine, u: nat, e: Event, t: nat)
    requires LocksInv(m) && !m.sys.debugger.Crashed? && Possible(m.sys, e) && Does(m.sys, u, e)
    requires !Next(m.sys, e).debugger.Crashed? && t < |m.inside| && t != u && m.inside[t].Some?
    ensures
      var s, d := m.inside[t].value, Next(m.sys, e);
      Possible(d, s.event) && Does(d, t, s.event) && Guard(d, s.event) == Some(s.core)
  {
    assert Holds(m, t);
    StillPossible(m.sys, u, e, t, m.inside[t].value.event);
  }

  lemma LockFreeKeeps(m: Machine, u: nat, e: Event)
    requires LocksInv(m) && !m.sys.debugger.Crashed? && Can(m, LockFree(u, e))
    ensures LocksInv(After(m, LockFree(u, e)))
  {
    var d := After(m, LockFree(u, e));
    SystemInvStep(m.sys, e);
    NextShape(m.sys, e);
    if !d.sys.debugger.Crashed? {
      forall t: nat | t < |d.inside|
        ensures Holds(d, t)
      {
        assert Holds(m, t);
        if m.inside[t].Some? { OthersHold(m, u, e, t); }
      }
      forall i | 0 <= i < |d.owner|
        ensures Owned(d, i)
      {
        assert Owned(m, i);
      }
    }
  }

  lemma PerformKeeps(m: Machine, u: nat)
    requires LocksInv(m) && !m.sys.debugger.Crashed? && Can(m, Perform(u))
    ensures LocksInv(After(m, Perform(u)))
  {
    var d, s := After(m, Perform(u)), m.inside[u].value;
    assert Holds(m, u);
    SystemInvStep(m.sys, s.event);
    NextShape(m.sys, s.event);
    if !d.sys.debugger.Crashed? {
      forall t: nat | t < |d.inside|
        ensures Holds(d, t)
      {
        assert Holds(m, t);
        if t != u && m.inside[t].Some? { OthersHold(m, u, s.event, t); }
      }
      forall i | 0 <= i < |d.owner|
        ensures Owned(d, i)
      {
        assert Owned(m, i);
      }
    }
  }

  /** Every locking, section and lock-free event keeps the invariant. */
  lemma LocksInvStep(m: Machine, a: Action)
    requires LocksInv(m) && !m.sys.debugger.Crashed? && Can(m, a)
    ensures LocksInv(After(m, a))
  {
    match a
    case Acquire(t, e) => AcquireKeeps(m, t, e);
    case Perform(t) => PerformKeeps(m, t);
    case LockFree(t, e) => LockFreeKeeps(m, t, e);
  }

  // ----- the order of the locks

  predicate WantsManager(m: Machine, t: nat)
    requires Shaped(m) && t < |m.inside|
  {
    m.sys.halting[t].WantsLock?
  }

  /** Thread `t` is in front of a section of core `i` whose mutex it has not locked. */
  ghost predicate WantsCore(m: Machine, t: nat, i: nat)
    requires Shaped(m)
  {
    exists e :: About(m, t, e) && Guard(m.sys, e) == Some(i)
  }

  /** Thread `t` wants a mutex that thread `u` holds. */
  ghost predicate WaitsFor(m: Machine, t: nat, u: nat)
    requires Shaped(m) && t < |m.inside|
  {
    || (WantsManager(m, t) && m.sys.mutex == Held(u))
    || (exists i :: 0 <= i < |m.owner| && WantsCore(m, t, i) && m.owner[i] == Held(u))
  }

  /** Holders of a core mutex come last, the holder of the manager mutex before them, everybody else first. */
  function Rank(m: Machine, t: nat): nat
    requires Shaped(m) && t < |m.inside|
  {
    if m.inside[t].Some? then 0 else if m.sys.mutex == Held(t) then 1 else 2
  }

  /** A thread that holds a core mutex holds no other, does not want the manager mutex, and can perform its section. */
  lemma CoreHolderRuns(m: Machine, i: nat, t: nat)
    requires LocksInv(m) && !m.sys.debugger.Crashed? && i < |m.owner| && m.owner[i] == Held(t)
    ensures t < |m.inside| && m.inside[t].Some? && Can(m, Perform(t)) && !WantsManager(m, t)
    ensures forall j :: 0 <= j < |m.owner| && m.owner[j] == Held(t) ==> j == i
  {
    assert Owned(m, i);
    assert Holds(m, t);
    forall j | 0 <= j < |m.owner| && m.owner[j] == Held(t)
      ensures j == i
    {
      assert Owned(m, j);
    }
    SectionsDoNotHalt(m.sys, t, m.inside[t].value.event);
  }

  /** No section of a core is entered on the way to the manager mutex. */
  lemma SectionsDoNotHalt(s: System, t: nat, e: Event)
    requires SystemInv(s) && Possible(s, e) && Does(s, t, e) && Guard(s, e).Some? && t < |s.halting|
    ensures !s.halting[t].WantsLock?
  {}

  lemma ManagerHolder(m: Machine, u: nat)
    requires LocksInv(m) && !m.sys.debugger.Crashed? && m.sys.mutex == Held(u)
    ensures u < |m.inside| && InsideMutex(m.sys, u) && !WantsManager(m, u)
  {
    HolderProgress(m.sys, u);
  }

  /** Lock order: whoever is waited for has a lower rank, so threads never wait in a circle. */
  lemma WaitsDescend(m: Machine, t: nat, u: nat)
    requires LocksInv(m) && !m.sys.debugger.Crashed? && t < |m.inside| && WaitsFor(m, t, u)
    ensures u < |m.inside| && Rank(m, u) < Rank(m, t)
  {
    if WantsManager(m, t) && m.sys.mutex == Held(u) {
      ManagerHolder(m, u);
      assert Holds(m, t);
      if m.inside[t].Some? { CoreHolderRuns(m, m.inside[t].value.core, t); }
    } else {
      var i :| 0 <= i < |m.owner| && WantsCore(m, t, i) && m.owner[i] == Held(u);
      CoreHolderRuns(m, i, u);
    }
  }

  /** Each thread of the row waits for the next. */
  ghost predicate WaitChain(m: Machine, ts: seq<nat>)
    requires Shaped(m)
  {
    forall k :: 0 <= k < |ts| - 1 ==> ts[k] < |m.inside| && WaitsFor(m, ts[k], ts[k + 1])
  }

  /** A row of waiting threads has at most two links and never comes back to a thread in it. */
  lemma {:induction false} WaitChainsAreShort(m: Machine, ts: seq<nat>)
    requires LocksInv(m) && !m.sys.debugger.Crashed? && |ts| > 1 && WaitChain(m, ts)
    ensures ts[|ts| - 1] < |m.inside| && ts[0] < |m.inside|
    ensures Rank(m, ts[0]) >= Rank(m, ts[|ts| - 1]) + |ts| - 1
    ensures |ts| <= 3 && ts[0] != ts[|ts| - 1]
    decreases |ts|
  {
    var init := ts[..|ts| - 1];
    assert WaitsFor(m, ts[|ts| - 2], ts[|ts| - 2 + 1]);
    WaitsDescend(m, ts[|ts| - 2], ts[|ts| - 1]);
    if |init| > 1 {
      forall k | 0 <= k < |init| - 1
        ensures init[k] < |m.inside| && WaitsFor(m, init[k], init[k + 1])
      {
        assert init[k] == ts[k] && init[k + 1] == ts[k + 1] && WaitsFor(m, ts[k], ts[k + 1]);
      }
      WaitChainsAreShort(m, init);
    }
  }

  // ----- somebody can always move

  /** The thread at the end of the wait can move at once: it performs its section or goes on towards the unlock. */
  lemma HolderOfManagerMoves(m: Machine, u: nat) returns (a: Action)
    requires LocksInv(m) && !m.sys.debugger.Crashed? && m.sys.mutex == Held(u)
    ensures Can(m, a)
    ensures a.thread == u || exists i :: 0 <= i < |m.owner| && WantsCore(m, u, i) && m.owner[i] == Held(a.thread)
  {
    ManagerHolder(m, u);
    HolderProgress(m.sys, u);
    var e := HolderEvent(m.sys, u);
    if m.inside[u].Some? {
      assert Holds(m, u);
      a := Perform(u);
    } else if Guard(m.sys, e).None? {
      a := LockFree(u, e);
    } else {
      var i := Guard(m.sys, e).value;
      GuardInRange(m.sys, e);
      if m.owner[i].Free? {
        a := Acquire(u, e);
      } else {
        CoreHolderRuns(m, i, m.owner[i].thread);
        a := Perform(m.owner[i].thread);
        assert About(m, u, e) && WantsCore(m, u, i);
      }
    }
  }

  lemma GuardInRange(s: System, e: Event)
    requires SystemInv(s) && Possible(s, e) && Guard(s, e).Some?
    ensures Guard(s, e).value < |s.cores|
  {}

  /** Whoever waits, a thread at most two links down the row can move at once: there is no deadlock. */
  lemma NoDeadlock(m: Machine, t: nat, u: nat) returns (a: Action)
    requires LocksInv(m) && !m.sys.debugger.Crashed? && t < |m.inside| && WaitsFor(m, t, u)
    ensures Can(m, a) && u < |m.inside| && (a.thread == u || WaitsFor(m, u, a.thread))
  {
    if WantsManager(m, t) && m.sys.mutex == Held(u) {
      ManagerHolder(m, u);
      a := HolderOfManagerMoves(m, u);
    } else {
      var i :| 0 <= i < |m.owner| && WantsCore(m, t, i) && m.owner[i] == Held(u);
      CoreHolderRuns(m, i, u);
      a := Perform(u);
    }
  }

  // ----- whole runs

  ghost predicate Run(ms: seq<Machine>, acts: seq<Action>) {
    && |ms| == |acts| + 1 && Fresh(ms[0])
    && forall i :: 0 <= i < |acts| ==>
         !ms[i].sys.debugger.Crashed? && Can(ms[i], acts[i]) && ms[i + 1] == After(ms[i], acts[i])
  }

  lemma {:induction false} RunLocksInv(ms: seq<Machine>, acts: seq<Action>, k: nat)
    requires Run(ms, acts) && k <= |acts|
    ensures LocksInv(ms[k])
  {
    if k == 0 {
      LocksInvInit(ms[0]);
    } else {
      RunLocksInv(ms, acts, k - 1);
      LocksInvStep(ms[k - 1], acts[k - 1]);
    }
  }

  /** Spelling out the mutexes changes nothing else: every state reached so is reached by a run of `Manager`. */
  lemma {:induction false} LockingIsInvisible(ms: seq<Machine>, acts: seq<Action>, k: nat)
    returns (r: seq<System>, es: seq<Event>)
    requires Run(ms, acts) && k <= |acts|
    ensures Manager.Run(r, es) && r[|es|] == ms[k].sys
    decreases k
  {
    if k == 0 {
      r, es := [ms[0].sys], [];
    } else {
      r, es := LockingIsInvisible(ms, acts, k - 1);
      var m, a := ms[k - 1], acts[k - 1];
      if !a.Acquire? {
        var e := if a.Perform? then m.inside[a.thread].value.event else a.event;
        ManagerRunGrows(r, es, e);
        r, es := r + [Next(m.sys, e)], es + [e];
      }
    }
  }

  lemma ManagerRunGrows(r: seq<System>, es: seq<Event>, e: Event)
    requires Manager.Run(r, es) && Possible(r[|es|], e)
    ensures Manager.Run(r + [Next(r[|es|], e)], es + [e])
  {
    var r', es' := r + [Next(r[|es|], e)], es + [e];
    forall i | 0 <= i < |es'|
      ensures Possible(r'[i], es'[i]) && r'[i + 1] == Next(r'[i], es'[i])
    {
      if i < |es| { assert Possible(r[i], es[i]) && r[i + 1] == Next(r[i], es[i]); }
    }
  }

  /** In every run: no circle of waiting threads, and whenever a thread waits some thread can move. */
  lemma RunNeverDeadlocks(ms: seq<Machine>, acts: seq<Action>, k: nat, t: nat, u: nat) returns (a: Action)
    requires Run(ms, acts) && k <= |acts| && !ms[k].sys.debugger.Crashed? && Shaped(ms[k])
    requires t < |ms[k].inside| && WaitsFor(ms[k], t, u)
    ensures u < |ms[k].inside| && Rank(ms[k], u) < Rank(ms[k], t)
    ensures Can(ms[k], a) && (a.thread == u || WaitsFor(ms[k], u, a.thread))
  {
    RunLocksInv(ms, acts, k);
    WaitsDescend(ms[k], t, u);
    a := NoDeadlock(ms[k], t, u);
  }
}
