/** The escape-time loop `ComplexPlane::countIterations`.

    The floating-point orbit `z := z * z + c` and its test `abs(z) > 2.0` are not modelled;
    `escapes(c, i)` stands for "the test succeeds at loop step `i` for the point `c`",
    that is, after the orbit of `c` has been advanced `i + 1` times. */
module Escape {
  import opened Limits

  /** The first step in `i..maxIter` at which the orbit of `c` escapes, or `maxIter + 1`
      if it escapes at none of them. */
  function EscapeFrom<P>(escapes: (P, nat) -> bool, c: P, i: nat, maxIter: nat): (n: nat)
    requires i <= maxIter + 1
    ensures i <= n <= maxIter + 1
    ensures forall k :: i <= k < n ==> !escapes(c, k)
    ensures n <= maxIter ==> escapes(c, n)
    decreases maxIter + 1 - i
  {
    if i > maxIter then maxIter + 1
    else if escapes(c, i) then i
    else EscapeFrom(escapes, c, i + 1, maxIter)
  }

  /** The escape time of `c` over the steps `0..maxIter`. */
  function EscapeTime<P>(escapes: (P, nat) -> bool, c: P, maxIter: nat): (n: nat)
    ensures n <= maxIter + 1
  {
    EscapeFrom(escapes, c, 0, maxIter)
  }

  /** The escape time is the only count that is preceded by no escape and that, unless it
      is `maxIter + 1`, is itself an escaping step. */
  lemma EscapeTimeUnique<P>(escapes: (P, nat) -> bool, c: P, maxIter: nat, n: nat)
    requires n <= maxIter + 1
    requires forall k :: 0 <= k < n ==> !escapes(c, k)
    requires n <= maxIter ==> escapes(c, n)
    ensures n == EscapeTime(escapes, c, maxIter)
  {
  }

  /** Counts the steps taken before the orbit of `c` escapes: the loop runs its counter
      `i` over `0..maxIter` inclusive, returns the number of completed steps at the first
      escape, and returns `maxIter + 1` (not `maxIter`) when no step escapes. */
  method CountIterations<P>(escapes: (P, nat) -> bool, c: P, maxIter: nat) returns (iterations: nat)
    // with MAX_ITER == INT_MAX the loop's `int` counter would overflow at `i <= MAX_ITER`
    requires maxIter < INT_MAX
    ensures iterations <= maxIter + 1
    ensures forall k :: 0 <= k < iterations ==> !escapes(c, k)
    ensures iterations <= maxIter ==> escapes(c, iterations)
    ensures iterations == EscapeTime(escapes, c, maxIter)
  {
    iterations := 0;
    var i := 0;
    while i <= maxIter
      invariant 0 <= i <= maxIter + 1
      invariant iterations == i
      invariant forall k :: 0 <= k < i ==> !escapes(c, k)
    {
      if escapes(c, i) {
        EscapeTimeUnique(escapes, c, maxIter, iterations);
        return iterations;
      } else {
        iterations := iterations + 1;
      }
      i := i + 1;
    }
    EscapeTimeUnique(escapes, c, maxIter, iterations);
  }
}
