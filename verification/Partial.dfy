/** Partial results, and runs of partial step functions. */
module Partial {

  datatype Option<+T> = None | Some(value: T)

  /** `n` steps from `s`, if none of them fails. */
  function Iterate<T>(step: T -> Option<T>, s: T, n: nat): Option<T>
    decreases n
  {
    if n == 0 then Some(s)
    else match step(s)
      case None => None
      case Some(t) => Iterate(step, t, n - 1)
  }

  /** A step-by-step simulation is a simulation of whole runs. */
  lemma {:induction false} SimulationLifts<A(!new), B(!new)>(
    f: A -> Option<A>, g: B -> Option<B>, abs: A -> B, a: A, n: nat)
    requires forall x :: g(abs(x)).Some? ==> f(x).Some? && abs(f(x).value) == g(abs(x)).value
    requires Iterate(g, abs(a), n).Some?
    ensures Iterate(f, a, n).Some? && abs(Iterate(f, a, n).value) == Iterate(g, abs(a), n).value
    decreases n
  {
    if n > 0 {
      SimulationLifts(f, g, abs, f(a).value, n - 1);
    }
  }

  /** Actions performed in order, if none of them fails. */
  function Play<S, A>(act: (S, A) -> Option<S>, s: S, script: seq<A>): Option<S>
    decreases |script|
  {
    if script == [] then Some(s)
    else match act(s, script[0])
      case None => None
      case Some(t) => Play(act, t, script[1..])
  }

  /** How many of the actions count, up to and including one that fails. */
  function Count<S, A>(act: (S, A) -> Option<S>, counts: (S, A) -> bool, s: S, script: seq<A>): nat
    decreases |script|
  {
    if script == [] then 0
    else
      var first := if counts(s, script[0]) then 1 else 0;
      match act(s, script[0])
      case None => first
      case Some(t) => first + Count(act, counts, t, script[1..])
  }

  /** The other side of an action: one step if it counts, none if it does not. */
  function Counterpart<B>(step: B -> Option<B>, counts: bool, b: B): Option<B> {
    if counts then step(b) else Some(b)
  }

  /** `proper` holds at every point of the two runs side by side. */
  predicate Throughout<S, A, B>(
    act: (S, A) -> Option<S>, counts: (S, A) -> bool, step: B -> Option<B>, proper: (S, B, A) -> bool,
    s: S, b: B, script: seq<A>)
    decreases |script|
  {
    script == [] ||
    (&& proper(s, b, script[0])
     && var s', b' := act(s, script[0]), Counterpart(step, counts(s, script[0]), b);
        (s'.Some? && b'.Some? ==> Throughout(act, counts, step, proper, s'.value, b'.value, script[1..])))
  }

  /** If every proper action keeps two systems related, whole scripts do. */
  lemma {:induction false} LockstepLifts<S(!new), A(!new), B(!new)>(
    act: (S, A) -> Option<S>, counts: (S, A) -> bool, step: B -> Option<B>,
    proper: (S, B, A) -> bool, related: (S, B) -> bool, s: S, b: B, script: seq<A>)
    requires forall x, y, a :: related(x, y) && proper(x, y, a) ==>
               var x', y' := act(x, a), Counterpart(step, counts(x, a), y);
               (x'.Some? <==> y'.Some?) && (x'.Some? ==> related(x'.value, y'.value))
    requires related(s, b) && Throughout(act, counts, step, proper, s, b, script)
    ensures Play(act, s, script).Some? <==> Iterate(step, b, Count(act, counts, s, script)).Some?
    ensures Play(act, s, script).Some? ==>
              related(Play(act, s, script).value, Iterate(step, b, Count(act, counts, s, script)).value)
    decreases |script|
  {
    if script != [] {
      var a := script[0];
      assert related(s, b) && proper(s, b, a);
      if act(s, a).Some? {
        LockstepLifts(act, counts, step, proper, related, act(s, a).value,
                      Counterpart(step, counts(s, a), b).value, script[1..]);
      }
    }
  }

  // ----- loops that go on until a step says otherwise

  /** `n` turns of a loop, or fewer if a turn ends it. */
  function Loop<T, R>(step: T -> R, again: R -> Option<T>, done: T -> R, s: T, n: nat): R
    decreases n
  {
    if n == 0 then done(s)
    else match again(step(s))
      case None => step(s)
      case Some(t) => Loop(step, again, done, t, n - 1)
  }

  /** States each reached from the one before by a turn that goes on. */
  predicate Trace<T(!new, ==), R>(step: T -> R, again: R -> Option<T>, ss: seq<T>) {
    |ss| > 0 && forall i :: 0 < i < |ss| ==> Follows(step, again, ss, i)
  }

  predicate Follows<T(==), R>(step: T -> R, again: R -> Option<T>, ss: seq<T>, i: nat)
    requires 0 < i < |ss|
  {
    again(step(ss[i - 1])) == Some(ss[i])
  }

  lemma TraceGrows<T(!new), R>(step: T -> R, again: R -> Option<T>, ss: seq<T>, t: T)
    requires Trace(step, again, ss) && again(step(ss[|ss| - 1])) == Some(t)
    ensures Trace(step, again, ss + [t])
  {
    forall i | 0 < i < |ss| + 1
      ensures Follows(step, again, ss + [t], i)
    {
      if i < |ss| { assert Follows(step, again, ss, i); }
    }
  }

  lemma {:induction false} TraceIsLoop<T(!new), R>(
    step: T -> R, again: R -> Option<T>, done: T -> R, ss: seq<T>, k: nat, n: nat)
    requires Trace(step, again, ss) && k < |ss| <= n + 1
    ensures Loop(step, again, done, ss[0], n) == Loop(step, again, done, ss[k], n - k)
  {
    if k > 0 {
      TraceIsLoop(step, again, done, ss, k - 1, n);
      assert Follows(step, again, ss, k);
    }
  }

  /** A loop whose states are known, up to its last turn or up to a turn that ends it. */
  lemma LoopResult<T(!new), R>(step: T -> R, again: R -> Option<T>, done: T -> R, ss: seq<T>, n: nat, r: R)
    requires Trace(step, again, ss)
    requires (|ss| == n + 1 && r == done(ss[n])) || (|ss| <= n && r == step(ss[|ss| - 1]) && again(r).None?)
    ensures Loop(step, again, done, ss[0], n) == r
  {
    TraceIsLoop(step, again, done, ss, |ss| - 1, n);
  }
}
