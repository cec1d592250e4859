/** `Math.round` and the rounded average used for a parent task's status. */
module Numeric {

  /** `Math.round(x)`: the nearest integer, halves rounded up. */
  function Round(x: real): (r: int)
    ensures r as real - 0.5 <= x < r as real + 0.5
  {
    (x + 0.5).Floor
  }

  function Sum(xs: seq<real>): real
  {
    if |xs| == 0 then 0.0 else Sum(xs[..|xs| - 1]) + xs[|xs| - 1]
  }

  /** `Math.round(sum / n)` for a non-empty list. */
  function RoundedAverage(xs: seq<real>): int
    requires |xs| > 0
  {
    Round(Sum(xs) / |xs| as real)
  }

  /** The sum of values lying in [lo, hi] lies in [n * lo, n * hi]. */
  lemma {:induction false} SumBounds(xs: seq<real>, lo: real, hi: real)
    requires forall i :: 0 <= i < |xs| ==> lo <= xs[i] <= hi
    ensures |xs| as real * lo <= Sum(xs) <= |xs| as real * hi
  {
    if |xs| > 0 {
      SumBounds(xs[..|xs| - 1], lo, hi);
    }
  }

  /** The rounded average of integers in [lo, hi] stays in [lo, hi]: a
      parent's derived status is a valid status. */
  lemma RoundedAverageBounds(xs: seq<real>, lo: int, hi: int)
    requires |xs| > 0
    requires forall i :: 0 <= i < |xs| ==> lo as real <= xs[i] <= hi as real
    ensures lo <= RoundedAverage(xs) <= hi
  {
    var n := |xs| as real;
    SumBounds(xs, lo as real, hi as real);
    var avg := Sum(xs) / n;
    assert lo as real <= avg <= hi as real by {
      assert Sum(xs) == avg * n;
    }
  }
}
