/**
 * `computeStatistics`: the descriptive-statistics report of a non-empty sample.
 *
 * `Statistics` is the report as a function of the sample, with the facts the
 * page relies on stated in its postconditions; `ComputeStatistics` is the
 * routine itself, which sorts a copy of the input array, runs the mode tally
 * loop, and is proved to return exactly `Statistics` of the input.
 */
module StatisticsEngine {
  import opened Sorting
  import opened ModeTally
  import opened Moments
  import opened OrderStatistics

  /** The object literal returned by `computeStatistics`, without `stdDev`. */
  datatype Report = Report(
    count: nat,
    sum: real,
    mean: real,
    median: real,
    mode: Mode,
    variance: real,
    range: real,
    q1: real,
    q3: real,
    iqr: real,
    min: real,
    max: real)

  /** The report of `data`: every field is derived from `data` alone. */
  function Statistics(data: seq<real>): (r: Report)
    requires |data| > 0
    ensures r.count == |data| && r.mean == r.sum / r.count as real
  {
    var sorted := InsertionSort(data);
    var n := |data|;
    var q1, q3 := Percentile(sorted, 25.0), Percentile(sorted, 75.0);
    Report(
      count := n,
      sum := Sum(data),
      mean := Mean(data),
      median := Median(sorted),
      mode := ModeOf(data),
      variance := Variance(data),
      range := sorted[n - 1] - sorted[0],
      q1 := q1,
      q3 := q3,
      iqr := q3 - q1,
      min := sorted[0],
      max := sorted[n - 1])
  }

  /** `min` and `max` are the smallest and largest sample values, so `range` is never negative. */
  lemma ExtremesBoundSample(data: seq<real>)
    requires |data| > 0
    ensures var r := Statistics(data);
      && r.min in data && r.max in data
      && (forall x :: x in data ==> r.min <= x <= r.max)
      && r.range == r.max - r.min >= 0.0
  {
    SortedEnds(InsertionSort(data), data);
  }

  /** The centre statistics lie between the extremes, with the quartiles around the median. */
  lemma CentreWithinExtremes(data: seq<real>)
    requires |data| > 0
    ensures var r := Statistics(data);
      && r.min <= r.mean <= r.max
      && r.min <= r.q1 <= r.median <= r.q3 <= r.max
      && r.iqr == r.q3 - r.q1 >= 0.0
  {
    var sorted := InsertionSort(data);
    var n := |data|;
    SortedEnds(sorted, data);
    assert Within(data, sorted[0], sorted[n - 1]) by {
      assert forall i :: 0 <= i < n ==> data[i] in data;
    }
    MedianIsFiftiethPercentile(sorted);
    PercentileWithinRange(sorted, 25.0);
    PercentileWithinRange(sorted, 75.0);
    PercentileMonotone(sorted, 25.0, 50.0);
    PercentileMonotone(sorted, 50.0, 75.0);
  }

  /** The reported population variance is never negative, and is 0 exactly for a constant sample. */
  lemma ReportedVariance(data: seq<real>)
    requires |data| > 0
    ensures Statistics(data).variance >= 0.0
    ensures Statistics(data).variance == 0.0 <==> Constant(data)
  {
    VarianceZeroIffConstant(data);
  }

  /**
   * The report says "No mode" exactly for a sample without repeated values;
   * otherwise it lists each most frequent value once and nothing else.
   */
  lemma ReportedMode(data: seq<real>)
    requires |data| > 0
    ensures Statistics(data).mode == NoMode <==> Distinct(data)
    ensures Statistics(data).mode.Modes? ==>
      forall v :: (v in Statistics(data).mode.values <==> v in data && Count(data, v) == MaxCount(data))
  {
    NoModeIffDistinct(data);
    if ModeOf(data).Modes? {
      forall v
        ensures v in ModeOf(data).values <==> v in data && Count(data, v) == MaxCount(data)
      {
        ModesAreModal(data, v);
      }
    }
  }

  /**
   * `computeStatistics(data)`. The input array is only read: the sort runs on
   * a fresh copy, and `data` is outside every frame here.
   */
  method ComputeStatistics(data: array<real>) returns (r: Report)
    requires data.Length > 0
    ensures r == Statistics(data[..])
  {
    var sortedData := SortedCopy(data);
    var n := data.Length;
    var sample := data[..];
    var sum := Sum(sample);
    var mean := Mean(sample);
    var median := Median(sortedData[..]);
    var maxFreq, modes := Tally(sample);
    var mode := if |modes| == n then NoMode else Modes(modes);
    var variance := Variance(sample);
    var range := sortedData[n - 1] - sortedData[0];
    var q1 := Percentile(sortedData[..], 25.0);
    var q3 := Percentile(sortedData[..], 75.0);
    var iqr := q3 - q1;
    var min := sortedData[0];
    var max := sortedData[n - 1];
    r := Report(
      count := n,
      sum := sum,
      mean := mean,
      median := median,
      mode := mode,
      variance := variance,
      range := range,
      q1 := q1,
      q3 := q3,
      iqr := iqr,
      min := min,
      max := max);
  }
}
