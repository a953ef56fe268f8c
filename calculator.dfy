/**
 * `calculateStatistics`: the Calculate button's handler. It trims the text of
 * the input box, stops with "Please enter some data!" when nothing is left,
 * parses the text, stops with "No valid numbers found!" when no number came
 * out, and only then runs the statistics engine on the parsed numbers.
 */
module Calculator {
  import opened Sorting
  import opened ModeTally
  import opened Moments
  import opened OrderStatistics
  import opened InputParser
  import opened StatisticsEngine

  /**
   * `String.prototype.trim`: `s` without its leading and trailing whitespace.
   * Nothing is left exactly when `s` is all whitespace.
   */
  function Trim(s: string): (r: string)
    ensures r == [] <==> AllWhitespace(s)
    ensures r != [] ==> !IsWhitespace(r[0]) && !IsWhitespace(r[|r| - 1])
  {
    var front := DropWhitespace(s);
    var r := DropTrailingWhitespace(front);
    DropWhitespaceSuffix(s);
    assert r == [] ==> front == [];
    r
  }

  /** Trimming changes whether the input is blank, but never which numbers it holds. */
  lemma TrimKeepsNumbers(s: string, pf: string -> Option<real>)
    ensures ParseInputData(Trim(s), pf) == ParseInputData(s, pf)
  {
    var lead, trail := TrimmedPadding(s);
    TokensOfPadded(lead, Trim(s), trail);
  }

  /** `s` is its trimmed text with whitespace before and after it. */
  lemma TrimmedPadding(s: string) returns (lead: string, trail: string)
    ensures AllWhitespace(lead) && AllWhitespace(trail)
    ensures s == lead + (Trim(s) + trail)
  {
    var front := DropWhitespace(s);
    var a := |s| - |front|;
    DropWhitespaceSuffix(s);
    var r := Trim(s);
    assert r == DropTrailingWhitespace(front);
    lead, trail := s[..a], front[|r|..];
    assert front == r + trail;
    assert s == lead + front;
  }

  /** Whitespace around a text changes none of the tokens left after `replace`. */
  lemma TokensOfPadded(lead: string, r: string, trail: string)
    requires AllWhitespace(lead) && AllWhitespace(trail)
    ensures Tokens(Clean(lead + (r + trail))) == Tokens(Clean(r))
  {
    CleanAppend(lead, r + trail);
    CleanAppend(r, trail);
    var cl, cr, ct := Clean(lead), Clean(r), Clean(trail);
    assert AllWhitespace(cl) && AllWhitespace(ct);
    TokensLeadingWhitespace(cl, cr + ct);
    TokensTrailingWhitespace(cr, ct);
  }

  /** What the Calculate button ends with. */
  datatype Outcome =
    | BlankInput       // "Please enter some data!"
    | NoValidNumbers   // "No valid numbers found!"
    | Calculated(data: seq<real>, report: Report)

  /**
   * `calculateStatistics()`, with the text of the input box as `input` and
   * `parseFloat` as `pf`. The engine runs only on a non-empty list of parsed
   * numbers, and its report is that of exactly those numbers.
   */
  method CalculateStatistics(input: string, pf: string -> Option<real>) returns (outcome: Outcome)
    ensures outcome == BlankInput <==> AllWhitespace(input)
    ensures outcome == NoValidNumbers <==> !AllWhitespace(input) && ParseInputData(input, pf) == []
    ensures outcome.Calculated? <==> ParseInputData(input, pf) != []
    ensures outcome.Calculated? ==>
      outcome.data == ParseInputData(input, pf) && outcome.report == Statistics(outcome.data)
  {
    var trimmed := Trim(input);
    TrimKeepsNumbers(input, pf);
    if trimmed == [] {
      return BlankInput;
    }
    var data := ParseInputData(trimmed, pf);
    if |data| == 0 {
      return NoValidNumbers;
    }
    var values := new real[|data|](i requires 0 <= i < |data| => data[i]);
    assert values[..] == data;
    var stats := ComputeStatistics(values);
    outcome := Calculated(data, stats);
  }

  /** `sampleData`, the values the example button loads. */
  const SampleData: seq<real> := [12.0, 15.0, 18.0, 22.0, 24.0, 27.0, 30.0, 32.0, 35.0, 40.0,
                                  42.0, 45.0, 48.0, 50.0, 52.0, 55.0, 58.0, 60.0, 62.0, 65.0]

  /** The sample sorted: already in ascending order, so sorting leaves it unchanged. */
  lemma SampleSorted()
    ensures InsertionSort(SampleData) == SampleData
    ensures Distinct(SampleData)
  {
    forall i | 0 < i < |SampleData|
      ensures SampleData[i - 1] < SampleData[i]
    {
    }
    AscendingSorted(SampleData);
    SortedUnique(InsertionSort(SampleData), SampleData);
  }

  /**
   * The report the example button leads to: 20 values totalling 792, mean
   * 39.6, median 41, no repeated value and hence "No mode", population
   * variance 261.14, range 53, quartiles 26.25 and 52.75.
   */
  lemma SampleReport()
    ensures Statistics(SampleData) == Report(
      count := 20, sum := 792.0, mean := 39.6, median := 41.0, mode := NoMode,
      variance := 261.14, range := 53.0, q1 := 26.25, q3 := 52.75, iqr := 26.5,
      min := 12.0, max := 65.0)
  {
    SampleSorted();
    NoModeIffDistinct(SampleData);
    SampleMoments();
    SampleOrder();
  }

  /** The rank statistics of the sample, read off its already ascending order. */
  lemma SampleOrder()
    ensures Median(SampleData) == 41.0
    ensures Percentile(SampleData, 25.0) == 26.25 && Percentile(SampleData, 75.0) == 52.75
  {
  }

  /** Running the two `reduce` loops over the sample, four values at a time. */
  lemma SampleMoments()
    ensures Sum(SampleData) == 792.0 && Mean(SampleData) == 39.6
    ensures Variance(SampleData) == 261.14
  {
    assert Total(SampleData, 4) == 67.0;
    assert Total(SampleData, 8) == 180.0;
    assert Total(SampleData, 12) == 342.0;
    assert Total(SampleData, 16) == 547.0;
    assert Total(SampleData, 20) == 792.0;
    assert SquaredDeviationsTotal(SampleData, 39.6, 4) == 2143.24;
    assert SquaredDeviationsTotal(SampleData, 39.6, 8) == 2695.28;
    assert SquaredDeviationsTotal(SampleData, 39.6, 12) == 2751.52;
    assert SquaredDeviationsTotal(SampleData, 39.6, 16) == 3321.16;
    assert SquaredDeviationsTotal(SampleData, 39.6, 20) == 5222.8;
  }

  /** A sequence whose every element is below the next is sorted, with no value repeated. */
  lemma AscendingSorted(s: seq<real>)
    requires forall i :: 0 < i < |s| ==> s[i - 1] < s[i]
    ensures Sorted(s) && Distinct(s)
  {
    forall i, j | 0 <= i < j < |s|
      ensures s[i] < s[j]
    {
      AscendingStep(s, i, j);
    }
  }

  /** Strict steps between neighbours add up along the sequence. */
  lemma {:induction false} AscendingStep(s: seq<real>, i: int, j: int)
    requires forall k :: 0 < k < |s| ==> s[k - 1] < s[k]
    requires 0 <= i < j < |s|
    ensures s[i] < s[j]
    decreases j - i
  {
    if j > i + 1 {
      AscendingStep(s, i, j - 1);
    }
  }
}
