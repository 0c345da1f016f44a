/** Runs of a state machine given by its initial states and its steps. */
module Runs {

  ghost predicate IsRun<S(!new)>(init: S -> bool, next: (S, S) -> bool, run: seq<S>) {
    && run != []
    && init(run[0])
    && forall i :: 0 <= i < |run| - 1 ==> next(run[i], run[i + 1])
  }

  ghost predicate IsInvariant<S(!new)>(init: S -> bool, next: (S, S) -> bool, inv: S -> bool) {
    && (forall s :: init(s) ==> inv(s))
    && (forall s, t :: inv(s) && next(s, t) ==> inv(t))
  }

  /** What holds initially and is kept by every step holds all along a run. */
  lemma {:induction false} Always<S(!new)>(init: S -> bool, next: (S, S) -> bool, inv: S -> bool, run: seq<S>, i: nat)
    requires IsRun(init, next, run) && IsInvariant(init, next, inv) && i < |run|
    ensures inv(run[i])
    decreases i
  {
    if i > 0 {
      Always(init, next, inv, run, i - 1);
      assert next(run[i - 1], run[i]);
    }
  }

  ghost predicate IsKept<S(!new)>(next: (S, S) -> bool, inv: S -> bool, rel: (S, S) -> bool) {
    && (forall s :: inv(s) ==> rel(s, s))
    && (forall s, t, u :: rel(s, t) && inv(t) && next(t, u) ==> rel(s, u))
  }

  /** A relation that every step extends holds between any two moments of a run. */
  lemma {:induction false} Ever<S(!new)>(init: S -> bool, next: (S, S) -> bool, inv: S -> bool, rel: (S, S) -> bool,
                                         run: seq<S>, i: nat, j: nat)
    requires IsRun(init, next, run) && IsInvariant(init, next, inv) && IsKept(next, inv, rel) && i <= j < |run|
    ensures rel(run[i], run[j])
    decreases j
  {
    Always(init, next, inv, run, i);
    if i < j {
      Ever(init, next, inv, rel, run, i, j - 1);
      Always(init, next, inv, run, j - 1);
      assert next(run[j - 1], run[j]);
    }
  }
}
