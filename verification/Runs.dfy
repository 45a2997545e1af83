/** Runs of a step system: finite sequences of states in which each follows from the one before. */
module Runs {

  ghost predicate IsRun<S>(next: (S, S) -> bool, r: seq<S>) {
    r != [] && forall i: nat :: i < |r| - 1 ==> StepAt(next, r, i)
  }

  ghost predicate StepAt<S>(next: (S, S) -> bool, r: seq<S>, i: nat)
    requires i < |r| - 1
  {
    next(r[i], r[i + 1])
  }

  function Last<S>(r: seq<S>): S
    requires r != []
  {
    r[|r| - 1]
  }

  lemma Append<S>(next: (S, S) -> bool, r: seq<S>, t: S)
    requires IsRun(next, r) && next(Last(r), t)
    ensures IsRun(next, r + [t])
  {
    var q := r + [t];
    forall i: nat | i < |q| - 1 ensures StepAt(next, q, i) {
      if i < |r| - 1 {
        assert StepAt(next, r, i);
      }
    }
  }

  lemma Extend<S>(next: (S, S) -> bool, r: seq<S>, t: S) returns (q: seq<S>)
    requires IsRun(next, r) && next(Last(r), t)
    ensures IsRun(next, q) && q[0] == r[0] && Last(q) == t
  {
    Append(next, r, t);
    q := r + [t];
  }

  lemma Prepend<S>(next: (S, S) -> bool, s: S, r: seq<S>)
    requires IsRun(next, r) && next(s, r[0])
    ensures IsRun(next, [s] + r)
  {
    var q := [s] + r;
    forall i: nat | i < |q| - 1 ensures StepAt(next, q, i) {
      if i > 0 {
        assert StepAt(next, r, i - 1);
      }
    }
  }

  /** What every step keeps holds all along a run. */
  lemma {:induction false} Invariance<S(!new)>(next: (S, S) -> bool, inv: S -> bool, r: seq<S>, i: nat)
    requires IsRun(next, r) && inv(r[0]) && i < |r|
    requires forall s, t :: inv(s) && next(s, t) ==> inv(t)
    ensures inv(r[i])
  {
    if i > 0 {
      Invariance(next, inv, r, i - 1);
      assert StepAt(next, r, i - 1);
    }
  }

  /** A run along which every step, up to the state looked at, lowers a measure is no longer than it. */
  lemma {:induction false} Bounded<S(!new)>(next: (S, S) -> bool, moving: S -> bool, work: S -> nat, r: seq<S>, i: nat)
    requires IsRun(next, r) && i < |r|
    requires forall j :: 0 <= j < i ==> moving(r[j])
    requires forall s, t :: moving(s) && next(s, t) ==> work(t) < work(s)
    ensures i + work(r[i]) <= work(r[0])
  {
    if i > 0 {
      Bounded(next, moving, work, r, i - 1);
      assert StepAt(next, r, i - 1) && moving(r[i - 1]);
    }
  }

  // ---- Runs with the actions taken ----

  ghost predicate IsTrace<S, A>(step: (S, A, S) -> bool, r: seq<S>, acts: seq<A>) {
    |r| == |acts| + 1 && forall i: nat :: i < |acts| ==> TakenAt(step, r, acts, i)
  }

  ghost predicate TakenAt<S, A>(step: (S, A, S) -> bool, r: seq<S>, acts: seq<A>, i: nat)
    requires |r| == |acts| + 1 && i < |acts|
  {
    step(r[i], acts[i], r[i + 1])
  }

  /** What every step by an allowed action keeps holds from one state on, as long as only such are taken. */
  lemma {:induction false} TraceInvariance<S(!new), A(!new)>(step: (S, A, S) -> bool, inv: S -> bool, allowed: A -> bool,
                                                             r: seq<S>, acts: seq<A>, from: nat, i: nat)
    requires IsTrace(step, r, acts) && from <= i <= |acts| && inv(r[from])
    requires forall k :: from <= k < i ==> allowed(acts[k])
    requires forall s, a, t :: inv(s) && allowed(a) && step(s, a, t) ==> inv(t)
    ensures inv(r[i])
  {
    if i > from {
      TraceInvariance(step, inv, allowed, r, acts, from, i - 1);
      assert TakenAt(step, r, acts, i - 1) && allowed(acts[i - 1]);
    }
  }

  /** What comes to hold does so at some step. */
  lemma {:induction false} Onset<S>(r: seq<S>, p: S -> bool, i: nat) returns (j: nat)
    requires i < |r| && !p(r[0]) && p(r[i])
    ensures j < i && !p(r[j]) && p(r[j + 1])
  {
    j := i - 1;
    if p(r[i - 1]) {
      j := Onset(r, p, i - 1);
    }
  }
}
