/** Paths of transition systems, what they keep, and what they look like from one component. */
module Traces {
  import opened Partial

  /** `r` is visited by taking the events `es`. */
  ghost predicate IsPath<S(!new), E(!new)>(step: (S, E, S) -> bool, r: seq<S>, es: seq<E>) {
    |r| == |es| + 1 && forall i :: 0 <= i < |es| ==> step(r[i], es[i], r[i + 1])
  }

  /** What every step keeps holds along the path. */
  lemma {:induction false} PathKeeps<S(!new), E(!new)>(
    step: (S, E, S) -> bool, inv: S -> bool, r: seq<S>, es: seq<E>, k: nat)
    requires forall s, e, s' :: inv(s) && step(s, e, s') ==> inv(s')
    requires IsPath(step, r, es) && inv(r[0]) && k <= |es|
    ensures inv(r[k])
  {
    if k > 0 {
      PathKeeps(step, inv, r, es, k - 1);
      assert step(r[k - 1], es[k - 1], r[k - 1 + 1]);
    }
  }

  lemma SubPath<S(!new), E(!new)>(step: (S, E, S) -> bool, r: seq<S>, es: seq<E>, b: nat, c: nat)
    requires |r| == |es| + 1 && b <= c <= |es|
    requires forall i :: b <= i < c ==> step(r[i], es[i], r[i + 1])
    ensures IsPath(step, r[b..c + 1], es[b..c])
  {
    var r', es' := r[b..c + 1], es[b..c];
    forall j | 0 <= j < |es'|
      ensures step(r'[j], es'[j], r'[j + 1])
    {
      var i := b + j;
      assert step(r[i], es[i], r[i + 1]);
      assert r'[j] == r[i] && es'[j] == es[i] && r'[j + 1] == r[i + 1];
    }
  }

  lemma PathGrows<S(!new), E(!new)>(step: (S, E, S) -> bool, r: seq<S>, es: seq<E>, e: E, s: S)
    requires IsPath(step, r, es) && step(r[|es|], e, s)
    ensures IsPath(step, r + [s], es + [e])
  {
    var r', es' := r + [s], es + [e];
    forall i | 0 <= i < |es'|
      ensures step(r'[i], es'[i], r'[i + 1])
    {
      if i < |es| { assert step(r[i], es[i], r[i + 1]); }
    }
  }

  /** How many of the events between two points count. */
  function Counted<E>(counts: E -> bool, es: seq<E>, b: nat, k: nat): nat
    requires k <= |es|
    decreases k
  {
    if k <= b then 0 else Counted(counts, es, b, k - 1) + if counts(es[k - 1]) then 1 else 0
  }

  /** What holds at a count and moves on with it holds at the count reached. */
  lemma {:induction false} PathCounts<S(!new), E(!new)>(
    step: (S, E, S) -> bool, counts: E -> bool, at: (S, nat) -> bool, last: nat, r: seq<S>, es: seq<E>, b: nat, k: nat)
    requires forall s: S, e: E, s': S, m: nat :: at(s, m) && step(s, e, s') && (counts(e) ==> m < last) ==>
               at(s', if counts(e) then m + 1 else m)
    requires |r| == |es| + 1 && b <= k <= |es| && forall i :: b <= i < k ==> step(r[i], es[i], r[i + 1])
    requires at(r[b], 0) && Counted(counts, es, b, k) <= last
    ensures at(r[k], Counted(counts, es, b, k))
    decreases k
  {
    if b < k {
      PathCounts(step, counts, at, last, r, es, b, k - 1);
      assert step(r[k - 1], es[k - 1], r[k - 1 + 1]);
    }
  }

  /** How often a kind of step is taken between two points. */
  function Hits<S, E>(hit: (S, E) -> bool, r: seq<S>, es: seq<E>, b: nat, k: nat): nat
    requires k <= |es| < |r|
    decreases k
  {
    if k <= b then 0 else Hits(hit, r, es, b, k - 1) + if hit(r[k - 1], es[k - 1]) then 1 else 0
  }

  /** What moves on with that count holds at the count reached. */
  lemma {:induction false} PathHits<S(!new), E(!new)>(
    step: (S, E, S) -> bool, hit: (S, E) -> bool, at: (S, nat) -> bool, r: seq<S>, es: seq<E>, b: nat, k: nat)
    requires forall s: S, e: E, s': S, m: nat :: at(s, m) && step(s, e, s') ==> at(s', if hit(s, e) then m + 1 else m)
    requires |r| == |es| + 1 && b <= k <= |es| && forall i :: b <= i < k ==> step(r[i], es[i], r[i + 1])
    requires at(r[b], 0)
    ensures at(r[k], Hits(hit, r, es, b, k))
    decreases k
  {
    if b < k {
      PathHits(step, hit, at, r, es, b, k - 1);
      assert step(r[k - 1], es[k - 1], r[k - 1 + 1]);
    }
  }

  // ----- projections

  /** The steps of a component among the first `k` events; `touch` tells the step of an event that has one. */
  function Seen<S, E, T>(touch: (S, E) -> Option<T>, r: seq<S>, es: seq<E>, k: nat): (ts: seq<T>)
    requires k <= |es| < |r|
  {
    if k == 0 then []
    else
      var last := touch(r[k - 1], es[k - 1]);
      Seen(touch, r, es, k - 1) + if last.Some? then [last.value] else []
  }

  /** The states of the component, one after each of its steps. */
  function Views<S, E, T, C>(touch: (S, E) -> Option<T>, view: S -> C, r: seq<S>, es: seq<E>, k: nat): (cs: seq<C>)
    requires k <= |es| < |r|
    ensures |cs| == |Seen(touch, r, es, k)| + 1
  {
    if k == 0 then [view(r[0])]
    else Views(touch, view, r, es, k - 1) + if touch(r[k - 1], es[k - 1]).Some? then [view(r[k])] else []
  }

  /** Every event is a step of the component or leaves it alone. */
  ghost predicate Projectable<S(!new), E(!new), T(!new), C(!new)>(
    step: (S, E, S) -> bool, inv: S -> bool, touch: (S, E) -> Option<T>, view: S -> C, comp: (C, T, C) -> bool)
  {
    forall s, e, s' :: inv(s) && step(s, e, s') ==>
      && inv(s')
      && (touch(s, e).None? ==> view(s') == view(s))
      && (touch(s, e).Some? ==> comp(view(s), touch(s, e).value, view(s')))
  }

  /** Then the component goes through a path of its own. */
  lemma {:induction false} Projects<S(!new), E(!new), T(!new), C(!new)>(
    step: (S, E, S) -> bool, inv: S -> bool, touch: (S, E) -> Option<T>, view: S -> C, comp: (C, T, C) -> bool,
    r: seq<S>, es: seq<E>, k: nat)
    requires Projectable(step, inv, touch, view, comp) && IsPath(step, r, es) && inv(r[0]) && k <= |es|
    ensures inv(r[k])
    ensures
      var cs, ts := Views(touch, view, r, es, k), Seen(touch, r, es, k);
      IsPath(comp, cs, ts) && cs[|ts|] == view(r[k]) && cs[0] == view(r[0])
  {
    if k > 0 {
      Projects(step, inv, touch, view, comp, r, es, k - 1);
      assert step(r[k - 1], es[k - 1], r[k - 1 + 1]);
      var t := touch(r[k - 1], es[k - 1]);
      if t.Some? {
        PathGrows(comp, Views(touch, view, r, es, k - 1), Seen(touch, r, es, k - 1), t.value, view(r[k]));
      }
    }
  }

  /** Every step, with the state it is taken in, is as `ok` says. */
  predicate AllOk<C, T>(ok: (C, T) -> bool, cs: seq<C>, ts: seq<T>) {
    |cs| == |ts| + 1 && forall m :: 0 <= m < |ts| ==> ok(cs[m], ts[m])
  }

  /** What holds of every event on the component holds of every step it takes. */
  lemma {:induction false} ProjectsAll<S(!new), E(!new), T(!new), C(!new)>(
    step: (S, E, S) -> bool, inv: S -> bool, touch: (S, E) -> Option<T>, view: S -> C, comp: (C, T, C) -> bool,
    r: seq<S>, es: seq<E>, k: nat, ok: (C, T) -> bool)
    requires Projectable(step, inv, touch, view, comp) && IsPath(step, r, es) && inv(r[0]) && k <= |es|
    requires forall j :: 0 <= j < k && touch(r[j], es[j]).Some? ==> ok(view(r[j]), touch(r[j], es[j]).value)
    ensures AllOk(ok, Views(touch, view, r, es, k), Seen(touch, r, es, k))
  {
    if k > 0 {
      ProjectsAll(step, inv, touch, view, comp, r, es, k - 1, ok);
      Projects(step, inv, touch, view, comp, r, es, k - 1);
    }
  }
}
