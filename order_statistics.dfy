/**
 * Rank-based statistics of the sorted copy: the median (middle element, or
 * the average of the two middle elements) and the linear-interpolation
 * percentile that gives the quartiles.
 */
module OrderStatistics {
  import opened Sorting

  /** `Math.ceil`: the least integer not below `x`. */
  function Ceil(x: real): (c: int)
    ensures x <= c as real < x + 1.0
    ensures c == x.Floor <==> x == x.Floor as real
  {
    -((-x).Floor)
  }

  /** `(percentile / 100) * (data.length - 1)`: the fractional rank of percentile `p` among `n` values. */
  function Rank(n: nat, p: real): (index: real)
    requires n > 0 && 0.0 <= p <= 100.0
    ensures 0.0 <= index <= (n - 1) as real
  {
    var k := (n - 1) as real;
    assert p / 100.0 * k <= k by {
      assert p / 100.0 <= 1.0;
      MulLeftMonotone(p / 100.0, 1.0, k);
    }
    assert 0.0 <= p / 100.0 * k by {
      MulLeftMonotone(0.0, p / 100.0, k);
    }
    p / 100.0 * k
  }

  /** A larger percentile has a rank at least as large. */
  lemma RankMonotone(n: nat, p1: real, p2: real)
    requires n > 0 && 0.0 <= p1 <= p2 <= 100.0
    ensures Rank(n, p1) <= Rank(n, p2)
  {
    var k := (n - 1) as real;
    var a1, a2 := p1 / 100.0, p2 / 100.0;
    assert a1 <= a2;
    MulLeftMonotone(a1, a2, k);
    assert Rank(n, p1) == a1 * k;
    assert Rank(n, p2) == a2 * k;
  }

  /** `a <= b` and `k >= 0` give `a * k <= b * k`. */
  lemma MulLeftMonotone(a: real, b: real, k: real)
    requires a <= b && 0.0 <= k
    ensures a * k <= b * k
  {
    calc {
      b * k - a * k;
      (b - a) * k;
    >= 0.0;
    }
  }

  /** `r` lies between `a` and `b`, in whichever order they come. */
  predicate Between(r: real, a: real, b: real)
  {
    (a <= r <= b) || (b <= r <= a)
  }

  /**
   * `calculatePercentile(data, p)`: with index = Rank(n, p), the element at an
   * integral index, otherwise the elements at floor(index) and ceil(index)
   * mixed with weight index - floor(index) on the upper one.
   */
  function Percentile(data: seq<real>, p: real): (r: real)
    requires |data| > 0 && 0.0 <= p <= 100.0
    ensures var index := Rank(|data|, p);
      && 0 <= index.Floor <= Ceil(index) < |data|
      && (index == index.Floor as real ==> r == data[index.Floor])
      && (index != index.Floor as real ==>
            Ceil(index) == index.Floor + 1 && Between(r, data[index.Floor], data[Ceil(index)]))
  {
    var index := Rank(|data|, p);
    var lowerIndex := index.Floor;
    var upperIndex := Ceil(index);
    if lowerIndex == upperIndex then
      data[lowerIndex]
    else
      var weight := index - lowerIndex as real;
      ConvexBetween(data[lowerIndex], data[upperIndex], weight);
      data[lowerIndex] * (1.0 - weight) + data[upperIndex] * weight
  }

  /** A mix `a * (1 - w) + b * w` with `0 <= w <= 1` is `a + w * (b - a)` and lies between `a` and `b`. */
  lemma ConvexBetween(a: real, b: real, w: real)
    requires 0.0 <= w <= 1.0
    ensures a * (1.0 - w) + b * w == a + w * (b - a)
    ensures Between(a * (1.0 - w) + b * w, a, b)
  {
    var d := b - a;
    var m := w * d;
    assert a * (1.0 - w) + b * w == a + m by {
      assert b * w == a * w + d * w;
    }
    if a <= b {
      MulLeftMonotone(0.0, w, d);
      MulLeftMonotone(w, 1.0, d);
    } else {
      MulLeftMonotone(0.0, w, -d);
      MulLeftMonotone(w, 1.0, -d);
      assert w * -d == -m;
    }
  }

  /** On sorted data a percentile lies between the elements at the floor and the ceiling of its rank. */
  lemma PercentileBracket(s: seq<real>, p: real)
    requires Sorted(s) && |s| > 0 && 0.0 <= p <= 100.0
    ensures var index := Rank(|s|, p);
      s[index.Floor] <= Percentile(s, p) <= s[Ceil(index)]
  {
  }

  /** On sorted data every percentile lies between the smallest and the largest element. */
  lemma PercentileWithinRange(s: seq<real>, p: real)
    requires Sorted(s) && |s| > 0 && 0.0 <= p <= 100.0
    ensures s[0] <= Percentile(s, p) <= s[|s| - 1]
  {
    PercentileBracket(s, p);
  }

  /** Moving the weight towards the larger end of a segment does not decrease the mix. */
  lemma MixMonotone(a: real, b: real, w1: real, w2: real)
    requires a <= b && 0.0 <= w1 <= w2 <= 1.0
    ensures a * (1.0 - w1) + b * w1 <= a * (1.0 - w2) + b * w2
  {
    MulLeftMonotone(w1, w2, b - a);
    calc {
      a * (1.0 - w1) + b * w1;
      a + w1 * (b - a);
    <= a + w2 * (b - a);
      a * (1.0 - w2) + b * w2;
    }
  }

  /** On sorted data the percentile does not decrease as `p` grows. */
  lemma PercentileMonotone(s: seq<real>, p1: real, p2: real)
    requires Sorted(s) && |s| > 0
    requires 0.0 <= p1 <= p2 <= 100.0
    ensures Percentile(s, p1) <= Percentile(s, p2)
  {
    var n := |s|;
    var i1, i2 := Rank(n, p1), Rank(n, p2);
    RankMonotone(n, p1, p2);
    var lo1, lo2 := i1.Floor, i2.Floor;
    PercentileBracket(s, p1);
    PercentileBracket(s, p2);
    if lo1 < lo2 {
      // The ceiling of the first rank is at most the floor of the second.
      assert s[Ceil(i1)] <= s[lo2];
    } else if i1 != lo1 as real {
      // Both ranks fall strictly inside the segment from lo1 to lo1 + 1.
      var lo := lo1;
      assert i2 != lo as real;
      MixMonotone(s[lo], s[lo + 1], i1 - lo as real, i2 - lo as real);
    }
  }

  /**
   * The median of the sorted copy: the middle element for an odd count, the
   * average of the two middle elements for an even count.
   */
  function Median(sorted: seq<real>): (r: real)
    requires |sorted| > 0
    ensures Between(r, sorted[(|sorted| - 1) / 2], sorted[|sorted| / 2])
  {
    var mid := |sorted| / 2;
    if |sorted| % 2 == 0 then (sorted[mid - 1] + sorted[mid]) / 2.0 else sorted[mid]
  }

  /** The median is the 50th percentile of the same interpolation scheme. */
  lemma MedianIsFiftiethPercentile(sorted: seq<real>)
    requires |sorted| > 0
    ensures Median(sorted) == Percentile(sorted, 50.0)
  {
    var n := |sorted|;
    var mid := n / 2;
    var index := Rank(n, 50.0);
    assert index == (n - 1) as real / 2.0;
    if n % 2 == 0 {
      assert index == (mid - 1) as real + 0.5;
      assert index.Floor == mid - 1;
      assert Ceil(index) == mid;
      calc {
        Percentile(sorted, 50.0);
        sorted[mid - 1] * (1.0 - 0.5) + sorted[mid] * 0.5;
        (sorted[mid - 1] + sorted[mid]) / 2.0;
      }
    } else {
      assert index == mid as real;
      assert index.Floor == mid;
    }
  }

  /** On sorted data the median lies between the smallest and the largest element. */
  lemma MedianWithinRange(sorted: seq<real>)
    requires Sorted(sorted) && |sorted| > 0
    ensures sorted[0] <= Median(sorted) <= sorted[|sorted| - 1]
  {
    MedianIsFiftiethPercentile(sorted);
    PercentileWithinRange(sorted, 50.0);
  }
}
