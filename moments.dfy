/**
 * The sum, mean and population variance of a sample, as the statistics engine
 * computes them with left-to-right `reduce` folds over the sample in its
 * original order.
 */
module Moments {

  /** Every element of `s` lies in the closed interval [lo, hi]. */
  predicate Within(s: seq<real>, lo: real, hi: real)
  {
    forall i :: 0 <= i < |s| ==> lo <= s[i] <= hi
  }

  /** All elements of `s` are equal. */
  predicate Constant(s: seq<real>)
  {
    forall i, j :: 0 <= i < |s| && 0 <= j < |s| ==> s[i] == s[j]
  }

  /** The accumulator of `data.reduce((sum, val) => sum + val, 0)` after its first `k` steps. */
  function Total(s: seq<real>, k: nat): real
    requires k <= |s|
  {
    if k == 0 then 0.0 else Total(s, k - 1) + s[k - 1]
  }

  /** `data.reduce((sum, val) => sum + val, 0)`: n values inside [lo, hi] add up to between n * lo and n * hi. */
  function Sum(s: seq<real>): (r: real)
    ensures forall lo, hi :: Within(s, lo, hi) ==> |s| as real * lo <= r <= |s| as real * hi
  {
    assert forall lo, hi :: Within(s, lo, hi) ==> |s| as real * lo <= Total(s, |s|) <= |s| as real * hi by {
      forall lo, hi | Within(s, lo, hi)
        ensures |s| as real * lo <= Total(s, |s|) <= |s| as real * hi
      {
        TotalBounds(s, lo, hi, |s|);
      }
    }
    Total(s, |s|)
  }

  /** `Sum(data) / n`: the mean of a sample inside [lo, hi] lies inside [lo, hi]. */
  function Mean(s: seq<real>): (r: real)
    requires |s| > 0
    ensures forall lo, hi :: Within(s, lo, hi) ==> lo <= r <= hi
  {
    var n := |s| as real;
    assert forall lo, hi :: Within(s, lo, hi) ==> lo <= Sum(s) / n <= hi by {
      forall lo, hi | Within(s, lo, hi)
        ensures lo <= Sum(s) / n <= hi
      {
        QuotientBounds(Sum(s), n, lo, hi);
      }
    }
    Sum(s) / n
  }

  /** `Math.pow(x, 2)`. */
  function Square(x: real): real
  {
    x * x
  }

  /** The accumulator of `data.reduce((sum, val) => sum + Math.pow(val - mean, 2), 0)` after its first `k` steps. */
  function SquaredDeviationsTotal(s: seq<real>, mean: real, k: nat): real
    requires k <= |s|
  {
    if k == 0 then 0.0 else SquaredDeviationsTotal(s, mean, k - 1) + Square(s[k - 1] - mean)
  }

  /** `data.reduce((sum, val) => sum + Math.pow(val - mean, 2), 0)`. */
  function SquaredDeviations(s: seq<real>, mean: real): real
  {
    SquaredDeviationsTotal(s, mean, |s|)
  }

  /** Population variance: the mean squared deviation from the mean (divisor n), never negative. */
  function Variance(s: seq<real>): (r: real)
    requires |s| > 0
    ensures r >= 0.0
  {
    SquaredDeviationsNonNegative(s, Mean(s), |s|);
    SquaredDeviations(s, Mean(s)) / |s| as real
  }

  /** The first `k` values of a sample inside [lo, hi] total between k * lo and k * hi. */
  lemma {:induction false} TotalBounds(s: seq<real>, lo: real, hi: real, k: nat)
    requires k <= |s| && Within(s, lo, hi)
    ensures k as real * lo <= Total(s, k) <= k as real * hi
  {
    if k > 0 {
      TotalBounds(s, lo, hi, k - 1);
    }
  }

  /** The total of n copies of c is n * c. */
  lemma {:induction false} TotalConstant(s: seq<real>, c: real, k: nat)
    requires k <= |s|
    requires forall i :: 0 <= i < |s| ==> s[i] == c
    ensures Total(s, k) == k as real * c
  {
    if k > 0 {
      TotalConstant(s, c, k - 1);
    }
  }

  /** A total between n * lo and n * hi, divided by n > 0, lies between lo and hi. */
  lemma QuotientBounds(t: real, n: real, lo: real, hi: real)
    requires n > 0.0 && n * lo <= t <= n * hi
    ensures lo <= t / n <= hi
  {
    assert (n * lo) / n == lo;
    assert (n * hi) / n == hi;
  }

  /** A sum of squares is never negative. */
  lemma {:induction false} SquaredDeviationsNonNegative(s: seq<real>, mean: real, k: nat)
    requires k <= |s|
    ensures SquaredDeviationsTotal(s, mean, k) >= 0.0
  {
    if k > 0 {
      SquaredDeviationsNonNegative(s, mean, k - 1);
      var d := s[k - 1] - mean;
      if d != 0.0 {
        SquarePositive(d);
      }
    }
  }

  /** The square of a non-zero number is positive. */
  lemma SquarePositive(d: real)
    requires d != 0.0
    ensures Square(d) > 0.0
  {
    calc {
      Square(d);
      d * d;
    > 0.0;
    }
  }

  /** A sum of squared deviations is 0 exactly when every element counted equals the centre. */
  lemma {:induction false} SquaredDeviationsZero(s: seq<real>, mean: real, k: nat)
    requires k <= |s|
    ensures SquaredDeviationsTotal(s, mean, k) == 0.0 <==> forall i :: 0 <= i < k ==> s[i] == mean
  {
    if k > 0 {
      var d := s[k - 1] - mean;
      SquaredDeviationsZero(s, mean, k - 1);
      SquaredDeviationsNonNegative(s, mean, k - 1);
      if d == 0.0 {
        assert Square(d) == 0.0;
      } else {
        SquarePositive(d);
      }
    }
  }

  /** Population variance is 0 exactly when all values of the sample are equal. */
  lemma VarianceZeroIffConstant(s: seq<real>)
    requires |s| > 0
    ensures Variance(s) == 0.0 <==> Constant(s)
  {
    var n := |s| as real;
    var m := Mean(s);
    var sq := SquaredDeviations(s, m);
    SquaredDeviationsZero(s, m, |s|);
    assert Variance(s) == sq / n;
    if Constant(s) {
      TotalConstant(s, s[0], |s|);
      assert m == (n * s[0]) / n == s[0];
      assert sq == 0.0;
    }
    if Variance(s) == 0.0 {
      assert sq == 0.0;
      assert forall i :: 0 <= i < |s| ==> s[i] == m;
    }
  }
}
