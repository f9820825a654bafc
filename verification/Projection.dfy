/**
  What the whole machine does, seen from one core: every path of the system is, without the events that
  pass the core by, a run of that core. So the theorems about single cores hold of cores in the machine.
*/
module Projection {
  import opened Partial
  import opened Traces
  import opened CoreMachine
  import opened Manager

  predicate Moves(s: System, e: Event, s': System) { Possible(s, e) && s' == Next(s, e) }

  predicate CoreMoves(c: Core, t: Step, d: Core) { Legal(c, t) && d == Apply(c, t) }

  /** A stretch of a run of the machine, from anywhere. */
  ghost predicate Path(r: seq<System>, es: seq<Event>) { IsPath(Moves, r, es) }

  /** The step an event takes on core `i`, if it acts there. */
  function Touch(s: System, e: Event, i: nat): Option<Step> {
    if Possible(s, e) && Acts(s, e).0 == i then Some(Acts(s, e).1) else None
  }

  function CoreAt(s: System, i: nat): Core { if i < |s.cores| then s.cores[i] else CoreMachine.Fresh(StartS) }

  predicate Sound(s: System, i: nat) { SystemInv(s) && i < |s.cores| }

  function TouchOf(i: nat): (System, Event) -> Option<Step> { (s, e) => Touch(s, e, i) }
  function CoreOf(i: nat): System -> Core { s => CoreAt(s, i) }
  function SoundAt(i: nat): System -> bool { s => Sound(s, i) }

  /** The steps and the states of core `i` along a path. */
  function Steps(r: seq<System>, es: seq<Event>, i: nat, k: nat): seq<Step>
    requires k <= |es| < |r|
  {
    Seen(TouchOf(i), r, es, k)
  }

  function States(r: seq<System>, es: seq<Event>, i: nat, k: nat): (cs: seq<Core>)
    requires k <= |es| < |r|
    ensures |cs| == |Steps(r, es, i, k)| + 1
  {
    Views(TouchOf(i), CoreOf(i), r, es, k)
  }

  lemma SameCores(s: System, e: Event)
    requires Possible(s, e)
    ensures |Next(s, e).cores| == |s.cores|
  {}

  /** An event that does not act on a core leaves it alone. */
  lemma PassedBy(s: System, e: Event, i: nat)
    requires SystemInv(s) && Possible(s, e) && i < |s.cores| && Acts(s, e).0 != i
    ensures i < |Next(s, e).cores| && Next(s, e).cores[i] == s.cores[i]
  {
    if Acts(s, e).0 < |s.cores| { ManagerIsDisciplined(s, e); }
  }

  /** Every event of the machine is a legal step of the core or passes it by. */
  lemma EventProjects(s: System, e: Event, i: nat)
    requires Sound(s, i) && Possible(s, e)
    ensures Sound(Next(s, e), i)
    ensures Touch(s, e, i).None? ==> CoreAt(Next(s, e), i) == CoreAt(s, i)
    ensures Touch(s, e, i).Some? ==> CoreMoves(CoreAt(s, i), Touch(s, e, i).value, CoreAt(Next(s, e), i))
  {
    SystemInvStep(s, e);
    SameCores(s, e);
    if Acts(s, e).0 == i { ManagerIsDisciplined(s, e); } else { PassedBy(s, e, i); }
  }

  lemma CoreFollows(i: nat)
    ensures Traces.Projectable(Moves, SoundAt(i), TouchOf(i), CoreOf(i), CoreMoves)
  {
    forall s, e, s' | SoundAt(i)(s) && Moves(s, e, s')
      ensures SoundAt(i)(s')
      ensures TouchOf(i)(s, e).None? ==> CoreOf(i)(s') == CoreOf(i)(s)
      ensures TouchOf(i)(s, e).Some? ==> CoreMoves(CoreOf(i)(s), TouchOf(i)(s, e).value, CoreOf(i)(s'))
    {
      EventProjects(s, e, i);
    }
  }

  /** The projection: the states and steps of a core along a path are a legal run of that core. */
  lemma CoreRuns(r: seq<System>, es: seq<Event>, i: nat, k: nat)
    requires Path(r, es) && Sound(r[0], i) && k <= |es|
    ensures Sound(r[k], i) && CoreMachine.Run(States(r, es, i, k), Steps(r, es, i, k))
    ensures States(r, es, i, k)[|Steps(r, es, i, k)|] == r[k].cores[i] && States(r, es, i, k)[0] == r[0].cores[i]
  {
    CoreFollows(i);
    Traces.Projects(Moves, SoundAt(i), TouchOf(i), CoreOf(i), CoreMoves, r, es, k);
    PathIsRun(States(r, es, i, k), Steps(r, es, i, k));
  }

  lemma PathIsRun(cs: seq<Core>, ss: seq<Step>)
    requires IsPath(CoreMoves, cs, ss)
    ensures CoreMachine.Run(cs, ss)
  {
    forall i | 0 <= i < |ss|
      ensures Legal(cs[i], ss[i]) && cs[i + 1] == Apply(cs[i], ss[i])
    {
      assert CoreMoves(cs[i], ss[i], cs[i + 1]);
    }
  }

  /** What holds of every event on the core holds of every step of its run. */
  lemma CoreRunsAll(r: seq<System>, es: seq<Event>, i: nat, k: nat, ok: (Core, Step) -> bool)
    requires Path(r, es) && Sound(r[0], i) && k <= |es|
    requires forall j :: 0 <= j < k && Touch(r[j], es[j], i).Some? ==> ok(CoreAt(r[j], i), Touch(r[j], es[j], i).value)
    ensures AllOk(ok, States(r, es, i, k), Steps(r, es, i, k))
  {
    CoreFollows(i);
    forall j | 0 <= j < k && TouchOf(i)(r[j], es[j]).Some?
      ensures ok(CoreOf(i)(r[j]), TouchOf(i)(r[j], es[j]).value)
    {
      assert Touch(r[j], es[j], i).Some?;
    }
    Traces.ProjectsAll(Moves, SoundAt(i), TouchOf(i), CoreOf(i), CoreMoves, r, es, k, ok);
  }
}
