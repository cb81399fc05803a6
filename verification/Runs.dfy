/** Runs of a transition relation. */
module Runs {

  type Relation<!S> = (S, S) -> bool

  ghost predicate Linked<S>(run: seq<S>, i: nat, next: Relation<S>)
    requires i + 1 < |run|
  {
    next(run[i], run[i + 1])
  }

  ghost predicate Chain<S>(run: seq<S>, next: Relation<S>) {
    |run| > 0 && forall i | 0 <= i < |run| - 1 :: Linked(run, i, next)
  }

  function Last<S>(run: seq<S>): S
    requires |run| > 0
  {
    run[|run| - 1]
  }

  lemma Single<S>(s: S, next: Relation<S>)
    ensures Chain([s], next)
  {
  }

  lemma Extend<S>(run: seq<S>, t: S, next: Relation<S>)
    requires Chain(run, next) && next(Last(run), t)
    ensures Chain(run + [t], next) && Last(run + [t]) == t && (run + [t])[0] == run[0]
  {
    var longer := run + [t];
    forall i | 0 <= i < |longer| - 1 ensures Linked(longer, i, next) {
      if i < |run| - 1 { assert Linked(run, i, next); }
    }
  }

  /** What holds at one state and is kept by every step holds from there on. */
  lemma {:induction false} Throughout<S(!new)>(run: seq<S>, next: Relation<S>, inv: S -> bool, from: nat, i: nat)
    requires Chain(run, next) && from <= i < |run| && inv(run[from])
    requires forall s, t | inv(s) && next(s, t) :: inv(t)
    ensures inv(run[i])
  {
    if from < i {
      Throughout(run, next, inv, from, i - 1);
      assert Linked(run, i - 1, next);
    }
  }
}
