/** Tolerance-based comparison of tableau entries (the solver's `is_equal`). */
module Tolerance {

  /** The fixed absolute tolerance, 1e-6. */
  const Diff: real := 0.000001

  function Abs(x: real): (r: real)
    ensures r >= 0.0
    ensures r == x || r == -x
  {
    if x < 0.0 then -x else x
  }

  /** Two entries are "equal" when they differ by strictly less than Diff. */
  predicate IsEqual(x: real, y: real)
  {
    Abs(x - y) < Diff
  }

  lemma IsEqualMeansClose(x: real, y: real)
    ensures IsEqual(x, y) <==> (-Diff < x - y < Diff)
  {
  }

  lemma IsEqualReflexive(x: real)
    ensures IsEqual(x, x)
  {
  }

  lemma IsEqualSymmetric(x: real, y: real)
    ensures IsEqual(x, y) <==> IsEqual(y, x)
  {
  }

  /** No entry is tolerance-equal to both 0 and 1: the two tests of basis detection exclude each other. */
  lemma ZeroAndOneExclusive(x: real)
    ensures !(IsEqual(x, 0.0) && IsEqual(x, 1.0))
  {
  }
}
