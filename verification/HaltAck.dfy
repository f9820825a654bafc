/** A halt is acknowledged after a bounded number of steps of the core thread, whatever else happens. */
module HaltAck {
  import opened CoreMachine

  predicate IsThreadStep(s: Step) { s in {Dispatch, Wake, Execute, ReadFlag, Leave} }

  /** The step the core thread takes next from where it is. */
  function NextThreadStep(t: ThreadLoc): Step {
    match t
    case Ready => Dispatch
    case Parked(_, _) => Wake
    case Exec(_) => Execute
    case Check(_) => ReadFlag
    case Leaving(_) => Leave
  }

  /** How far the core thread is from acknowledging a pending halt. */
  function Distance(c: Core): nat {
    match c.thread
    case Ready => 1
    case Parked(on, _) => if on == HaltS then 1 else if on == StepS then 5 else 2
    case Exec(_) => 4
    case Check(_) => 3
    case Leaving(_) => 2
  }

  /** Whether the core thread may still start an instruction before it acknowledges the halt. */
  function Budget(c: Core): nat {
    if c.thread.Exec? || (c.thread.Parked? && c.thread.on == StepS) then 1 else 0
  }

  /** While a halt is pending the thread is never asleep for good. */
  lemma HaltPendingIsLive(c: Core)
    requires Inv(c) && c.state == HaltPending
    ensures Legal(c, NextThreadStep(c.thread))
    ensures c.thread.Parked? ==> c.thread.notified
  {}

  /** Each thread step of a pending halt comes closer to it; no other step moves it away or undoes the halt. */
  lemma HaltPendingStep(c: Core, s: Step)
    requires Inv(c) && c.state == HaltPending && Legal(c, s)
    ensures
      var d := Apply(c, s);
      && d.executed + Budget(d) <= c.executed + Budget(c)
      && if IsThreadStep(s) then
           d.state == Halted || (d.state == HaltPending && Distance(d) < Distance(c))
         else
           d.state == HaltPending && Distance(d) == Distance(c)
  {}

  function ThreadSteps(ss: seq<Step>): nat {
    if ss == [] then 0 else (if IsThreadStep(ss[0]) then 1 else 0) + ThreadSteps(ss[1..])
  }

  /** The run first leaves HALT_PENDING at index `k`, for HALTED, having started at most `n` instructions. */
  ghost predicate HaltedAt(r: seq<Core>, k: nat, n: nat)
    requires |r| > 0
  {
    && k < |r| && r[k].state == Halted
    && (forall i :: 0 <= i < k ==> r[i].state == HaltPending)
    && r[k].executed <= r[0].executed + n
  }

  /** Outside a step call the distance is at most four. */
  lemma DistanceOutsideSteps(c: Core)
    requires Inv(c) && c.state == HaltPending
    ensures 1 <= Distance(c) <= 5 && (c.stepper.Idle? ==> Distance(c) <= 4)
  {}

  /** There the distance is exact: each step of the thread takes one off, and the last one acknowledges. */
  lemma DistanceIsExact(c: Core)
    requires Inv(c) && c.state == HaltPending && c.stepper.Idle?
    ensures Legal(c, NextThreadStep(c.thread))
    ensures
      var d := Apply(c, NextThreadStep(c.thread));
      if Distance(c) == 1 then d.state == Halted else d.state == HaltPending && Distance(d) == Distance(c) - 1
  {}

  /** All along the halt was pending; the steps the thread took are made up for by what is left of the distance. */
  ghost predicate StillOnTheWay(r: seq<Core>, ss: seq<Step>)
    requires |r| == |ss| + 1
  {
    && (forall i :: 0 <= i < |r| ==> r[i].state == HaltPending)
    && ThreadSteps(ss) + Distance(r[|ss|]) <= Distance(r[0])
    && r[|ss|].executed + Budget(r[|ss|]) <= r[0].executed + Budget(r[0])
  }

  /** Every run after a halt was accepted has come to HALTED, or every step its thread took brought it closer. */
  lemma {:induction false} HaltAccounted(r: seq<Core>, ss: seq<Step>)
    requires Run(r, ss) && Inv(r[0]) && r[0].state == HaltPending
    ensures (exists k :: HaltedAt(r, k, Budget(r[0]))) || StillOnTheWay(r, ss)
  {
    if ss != [] {
      HaltPendingStep(r[0], ss[0]);
      InvStep(r[0], ss[0]);
      if r[1].state == Halted {
        assert HaltedAt(r, 1, Budget(r[0]));
      } else {
        HaltAccounted(r[1..], ss[1..]);
        if k: nat :| HaltedAt(r[1..], k, Budget(r[1])) {
          HaltedLater(r, k);
        }
      }
    }
  }

  lemma HaltedLater(r: seq<Core>, k: nat)
    requires |r| > 1 && r[0].state == HaltPending && HaltedAt(r[1..], k, Budget(r[1]))
    requires r[1].executed + Budget(r[1]) <= r[0].executed + Budget(r[0])
    ensures HaltedAt(r, k + 1, Budget(r[0]))
  {
    assert r[1..][k] == r[k + 1];
    forall i | 0 <= i < k + 1
      ensures r[i].state == HaltPending
    {
      if i > 0 { assert r[i] == r[1..][i - 1]; }
    }
  }

  /**
    For every interleaving after a halt was accepted: once the core thread has taken as many steps as
    its distance, which is at most five, the core is or has been HALTED, and it started at most one
    further instruction on the way.
  */
  lemma HaltAcknowledged(r: seq<Core>, ss: seq<Step>)
    requires Run(r, ss) && Inv(r[0]) && r[0].state == HaltPending
    ensures Distance(r[0]) <= 5 && Budget(r[0]) <= 1
    ensures ThreadSteps(ss) >= Distance(r[0]) ==> exists k :: HaltedAt(r, k, Budget(r[0]))
  {
    HaltAccounted(r, ss);
    RunInv(r, ss, |ss|);
  }

  /** A halt that is not ignored always enters the pending state, from which the bound above applies. */
  lemma HaltEntersPending(c: Core)
    requires Inv(c)
    ensures Apply(c, Halt).state == (if c.state == Halted then Halted else HaltPending)
    ensures Inv(Apply(c, Halt))
  {
    InvStep(c, Halt);
  }
}
