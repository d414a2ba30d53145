/** Reaching a goal in every execution of a transition relation. */
module Progress {

  /** However `next` is resolved, a goal state comes within `n` steps. */
  ghost predicate Inevitable<S(!new)>(next: (S, S) -> bool, goal: S -> bool, s: S, n: nat)
    decreases n
  {
    || goal(s)
    || (n > 0 && (exists s' :: next(s, s')) && forall s' :: next(s, s') ==> Inevitable(next, goal, s', n - 1))
  }

  /** A measure that every step decreases, on states that can always step, bounds the way to the goal. */
  lemma {:induction false} MeasureMakesInevitable<S(!new)>(
    next: (S, S) -> bool, goal: S -> bool, fit: S -> bool, measure: S -> nat, s: S, n: nat)
    requires forall x :: fit(x) && !goal(x) ==> exists y :: next(x, y)
    requires forall x, y :: fit(x) && next(x, y) ==> fit(y) && measure(y) < measure(x)
    requires fit(s) && measure(s) <= n
    ensures Inevitable(next, goal, s, n)
    decreases n
  {
    if !goal(s) {
      var t :| next(s, t);
      forall y | next(s, y)
        ensures Inevitable(next, goal, y, n - 1)
      {
        MeasureMakesInevitable(next, goal, fit, measure, y, n - 1);
      }
    }
  }
}
