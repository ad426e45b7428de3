/** Repeating a step: a fixed number of times, or until nothing changes. */
module Iteration {
  import opened Wrappers

  function Iterate<T>(step: T -> T, x: T, k: nat): T
    decreases k
  {
    if k == 0 then x else Iterate(step, step(x), k - 1)
  }

  method IterateLoop<T>(step: T -> T, x: T, k: nat) returns (r: T)
    ensures r == Iterate(step, x, k)
  {
    r := x;
    for i := 0 to k
      invariant Iterate(step, r, k - i) == Iterate(step, x, k)
    {
      r := step(r);
    }
  }

  /** Some number of steps leads from x to r, and one more leaves r unchanged. */
  ghost predicate ReachesFixpoint<T>(step: T -> T, x: T, r: T) {
    step(r) == r && exists n: nat :: Iterate(step, x, n) == r
  }

  /** The step after the first k changes something. */
  ghost predicate StillMoves<T>(step: T -> T, x: T, k: nat) {
    step(Iterate(step, x, k)) != Iterate(step, x, k)
  }

  lemma {:induction false} OneMoreStep<T>(step: T -> T, x: T, k: nat)
    ensures Iterate(step, x, k + 1) == step(Iterate(step, x, k))
    decreases k
  {
    if k > 0 { OneMoreStep(step, step(x), k - 1); }
  }

  lemma {:induction false} StepsContinue<T>(step: T -> T, x: T, j: nat, k: nat)
    ensures Iterate(step, x, j + k) == Iterate(step, Iterate(step, x, j), k)
    decreases j
  {
    if j > 0 { StepsContinue(step, step(x), j - 1, k); }
  }

  lemma {:induction false} FixpointStays<T>(step: T -> T, r: T, k: nat)
    requires step(r) == r
    ensures Iterate(step, r, k) == r
    decreases k
  {
    if k > 0 { FixpointStays(step, r, k - 1); }
  }

  /** There is at most one fixpoint to reach. */
  lemma FixpointUnique<T>(step: T -> T, x: T, r: T, s: T)
    requires ReachesFixpoint(step, x, r) && ReachesFixpoint(step, x, s)
    ensures r == s
  {
    var j: nat :| Iterate(step, x, j) == r;
    var k: nat :| Iterate(step, x, k) == s;
    if j <= k {
      StepsContinue(step, x, j, k - j);
      FixpointStays(step, r, k - j);
    } else {
      StepsContinue(step, x, k, j - k);
      FixpointStays(step, s, j - k);
    }
  }

  /** Steps until one changes nothing, but at most `limit` of them. */
  method IterateToFixpoint<T(==)>(step: T -> T, x: T, limit: nat) returns (r: Option<T>)
    ensures r.Some? ==> ReachesFixpoint(step, x, r.value)
    ensures r.None? ==> forall k: nat | k < limit :: StillMoves(step, x, k)
  {
    var current := x;
    for i := 0 to limit
      invariant Iterate(step, x, i) == current
      invariant forall k: nat | k < i :: StillMoves(step, x, k)
    {
      var previous := current;
      current := step(previous);
      if current == previous {
        return Some(current);
      }
      assert StillMoves(step, x, i);
      OneMoreStep(step, x, i);
    }
    return None;
  }
}
