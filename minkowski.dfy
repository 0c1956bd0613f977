/**
 * The Minkowski sum of two sets of non-negative integers. The repository
 * computes it by a floating-point FFT convolution of characteristic vectors;
 * here it is given by its result, {a + b | a in A, b in B}.
 */
module Minkowski {
  import opened SumsSpec

  /**
   * `minkowskiSum(A, B)`. The elements index a characteristic array, so they
   * must be non-negative, and the array length comes from the maximum of
   * A ∪ B, which must therefore be non-empty.
   */
  function MinkowskiSum(A: set<int>, B: set<int>): (C: set<int>)
    requires forall x :: x in A + B ==> x >= 0
    requires A + B != {}
    ensures C == SumSet(A, B)
  {
    set a, b | a in A && b in B :: a + b
  }
}
