# Statistics calculator engine in Dafny

This project models the computing core of a browser statistics calculator
(`script.js`). The model covers four parts:

- the **input parser** `parseInputData`. It replaces `,`, `;` and newline by
  spaces, splits on runs of whitespace, drops empty pieces and keeps the
  pieces `parseFloat` turns into a number;
- the **Calculate handler's guard** in `calculateStatistics`. It trims the
  input, stops on blank input, parses, and stops when no number came out;
- the **statistics engine** `computeStatistics`, which builds the report:
  - count, sum and mean;
  - the median of a sorted copy;
  - the mode, from a frequency-tally loop with its "No mode" rule;
  - population variance;
  - range, quartiles and IQR;
  - min and max;
- **`calculatePercentile`**, the linear-interpolation percentile on a sorted
  array.

Modules (one file each):

- `InputParser` (`parser.dfy`): the text-to-numbers pipeline.
  - `parseFloat` is a parameter `pf: string -> Option<real>`; `None` stands for NaN.
  - JavaScript's `\s` class is spelled out code point by code point.
- `Calculator` (`calculator.dfy`):
  - `String.prototype.trim`;
  - the guarded handler `CalculateStatistics`, whose result is one of three outcomes;
  - the page's built-in example sample.
- `StatisticsEngine` (`engine.dfy`):
  - the report as a function, `Statistics`;
  - the routine `ComputeStatistics`, proved to return exactly that report;
  - lemmas on the report's fields.
- `Sorting` (`sorting.dfy`): the sort of a copy of the sample.
  - A fresh array is sorted in place by insertion (`SortedCopy`, `SortInPlace`, `SinkLast`).
  - It is proved equal to the reference ascending sort `InsertionSort`.
- `ModeTally` (`tally.dfy`): the `forEach` tally loop `Tally`. It carries a
  map of frequencies, the running maximum and the list of modes. It is proved
  against these reference definitions:
  - `Count`;
  - `MaxCount`;
  - `ValuesReaching(s, k)`: the values whose k-th occurrence falls inside `s`, in the order of those occurrences.
- `Moments` (`moments.dfy`): sum, mean and population variance as left-to-right folds.
- `OrderStatistics` (`order_statistics.dfy`):
  - `Math.ceil`;
  - the percentile rank;
  - `calculatePercentile`;
  - the median.

Numbers are mathematical reals. The order in which the sums are taken is the
source's, left to right, but nothing is rounded.

The "No mode" rule of the source reports no mode when the list of modal
values is as long as the sample. Read literally, that is a different test
from "every value occurs once". `ModeTally.NoModeIffDistinct` proves the two
agree on every non-empty sample.

The twenty values at `script.js:16` add up to 792, so the mean is 39.6.
`Calculator.SampleMoments` and `Calculator.SampleReport` state these numbers.

## Model

| member | source | states |
|---|---|---|
| `InputParser.Clean` | script.js:64 | The replaced text has the input's length. A position holds whitespace exactly where the input held `,`, `;`, a newline or whitespace. Every other character is unchanged. |
| `InputParser.SplitPiecesNoWhitespace` | script.js:65 | No piece produced by `split(/\s+/)` contains a whitespace character. |
| `InputParser.Split` | script.js:65 | `split(/\s+/)` yields at least one piece and at most one more piece than the text has characters. |
| `InputParser.NonEmpty` | script.js:66 | The filter keeps only non-empty pieces. Each non-empty piece occurs in the result exactly as often as in the input list, and no empty piece is kept. |
| `InputParser.NonEmptyAppend` | script.js:66 | The filter works piece by piece: filtering a concatenation concatenates the filtered parts, so the kept pieces stay in input order. |
| `InputParser.Tokens` | script.js:64-66 | Every token left after replace, split and filter is non-empty and free of whitespace. |
| `InputParser.KeepNumbers` | script.js:67-68 | There are at most as many numbers as tokens. Each number is what `parseFloat` made of some token, and the number of every token that parses is kept. Tokens giving NaN are dropped. |
| `InputParser.KeepNumbersAppend` | script.js:67-68 | Mapping and filtering work token by token: on a concatenation of token lists the numbers are those of the first list followed by those of the second, so input order is kept. |
| `InputParser.KeepNumbersAllParse` | script.js:67-68 | When every token parses, every token is kept, in order, as the number it parses to. |
| `InputParser.ParseInputData` | script.js:62-71 | There are at most as many numbers as input characters. Each number comes from a non-empty token with no separator or whitespace in it. Every token that `parseFloat` reads contributes its number. |
| `InputParser.ParseWord` | script.js:62-71 | A single word without separators or whitespace parses to its `parseFloat` value, or to nothing when that is NaN. |
| `InputParser.ParseAcrossSpace` | script.js:62-71 | Parsing two texts joined by a space gives the numbers of the first followed by the numbers of the second. |
| `InputParser.SkipsNonNumber` | script.js:62-71 | In `x junk y`, where x and y parse and junk gives NaN, the result is exactly the numbers of x and y, in that order. |
| `InputParser.TokensAcrossWhitespace` | script.js:65-66 | A whitespace run between two texts separates their tokens: the tokens of the whole are those of the first text followed by those of the second. |
| `InputParser.Join` | script.js:48 | `values.join(sep)` starts with the first value's text. |
| `InputParser.BlanksInterchangeable` | script.js:64-65 | Two inputs that differ only in which separator or whitespace character stands at some positions parse to the same numbers. So `,`, `;` and newline act exactly like whitespace. |
| `InputParser.SplitSame` | script.js:65 | Splitting on whitespace runs gives the same pieces for two texts that differ only in which whitespace characters they hold. |
| `InputParser.TokensOfJoin` | script.js:65-66 | Joining non-empty, whitespace-free words with a whitespace separator and then splitting and filtering gives back exactly the words. |
| `InputParser.TokensLeadingWhitespace` | script.js:65-66 | Leading whitespace changes no token; `split` makes an empty first piece, which the filter drops. |
| `InputParser.TokensTrailingWhitespace` | script.js:65-66 | Trailing whitespace changes no token; `split` makes an empty last piece, which the filter drops. |
| `InputParser.ParseJoinedRoundTrip` | script.js:62-71 | Parsing `values.join(', ')` gives back exactly `values`, in order. This holds when each value renders to non-empty text without separators or whitespace that `parseFloat` reads back as the same value. This is the text the example button writes. |
| `Calculator.Trim` | script.js:74 | The trimmed text is empty exactly when the input is all whitespace. Otherwise it neither starts nor ends with whitespace. |
| `Calculator.TrimmedPadding` | script.js:74 | Any text is its trimmed text with a whitespace-only run before it and one after it. |
| `Calculator.TrimKeepsNumbers` | script.js:74-80 | Trimming never changes which numbers the input parses to. |
| `Calculator.CalculateStatistics` | script.js:73-87 | The handler gives "Please enter some data!" exactly on blank input. It gives "No valid numbers found!" exactly on non-blank input that parses to no number. It computes a report exactly when the parse is non-empty. That report is the statistics of precisely the parsed numbers, so the engine never runs on an empty array. |
| `Calculator.SampleSorted` | script.js:16 | The built-in sample is already ascending with no value repeated, so its sorted copy equals it. |
| `Calculator.SampleMoments` | script.js:16 | Folds over the built-in sample: sum 792, mean 39.6, population variance 261.14. |
| `Calculator.SampleReport` | script.js:16 | The full report of the built-in sample: count 20, sum 792, mean 39.6, median 41, "No mode", variance 261.14, range 53, Q1 26.25, Q3 52.75, IQR 26.5, min 12, max 65. |
| `StatisticsEngine.Statistics` | script.js:101-165 | The report's count is the sample size, and its mean is its sum field divided by that count. |
| `StatisticsEngine.ComputeStatistics` | script.js:101-165 | The routine sorts a fresh copy and runs the tally loop. Its report equals `Statistics` of the input array. The input array is outside its frame, so it is left unchanged. |
| `StatisticsEngine.ExtremesBoundSample` | script.js:136-145 | `min` and `max` occur in the sample and bound every sample value, and `range = max - min >= 0`. |
| `StatisticsEngine.CentreWithinExtremes` | script.js:106-145 | `min <= mean <= max`, `min <= q1 <= median <= q3 <= max` and `iqr = q3 - q1 >= 0`. |
| `StatisticsEngine.ReportedVariance` | script.js:132 | The reported variance is never negative. It is 0 exactly when all sample values are equal. |
| `StatisticsEngine.ReportedMode` | script.js:115-129 | The report says "No mode" exactly when no value repeats. Otherwise its mode list holds exactly the values of highest frequency. |
| `Sorting.InsertionSort` | script.js:102 | The reference ascending sort is sorted, a permutation of its input, and has its input's length. |
| `Sorting.SortedUnique` | script.js:102 | Two sorted permutations of each other are equal, so the ascending order of a sample is unique. |
| `Sorting.SortedEnds` | script.js:144-145 | The first and last elements of a sorted permutation occur in the sample and bound all of it. |
| `Sorting.SwapAdjacent` | script.js:102 | Exchanging two neighbours inside the prefix `a[..n]` changes exactly those two cells. It keeps the multiset of the prefix and leaves the cells from n on untouched. |
| `Sorting.SinkLast` | script.js:102 | Sinking the element at i into the sorted prefix before it makes `a[..i + 1]` sorted and a permutation of what it held. The cells after i are unchanged, and the whole array keeps its multiset of values. |
| `Sorting.SortInPlace` | script.js:102 | Sorting the array in place makes it ascending and keeps its multiset of values. |
| `Sorting.SortedCopy` | script.js:102 | `[...data].sort((a, b) => a - b)` gives a fresh array holding the ascending sort of `data`. |
| `ModeTally.MaxCountIsMaximum` | script.js:119-123 | The highest frequency bounds the count of every value. On a non-empty sample, some sample value attains it. |
| `ModeTally.FrequenciesStep` | script.js:120 | Bumping the entry of `val` by one, starting from 0 when it is absent, turns the frequency table of a prefix into the table of the prefix extended by `val`. |
| `ModeTally.ValuesReachingMultiplicity` | script.js:121-126 | The list of values that reached frequency k holds each such value exactly once and nothing else. |
| `ModeTally.TallyCases` | script.js:121-126 | On the next element: frequency above the maximum makes it the new maximum with that value alone; frequency equal appends the value; frequency below changes nothing. |
| `ModeTally.TallyStart` | script.js:115-117 | The empty table, maximum 0 and empty list describe the empty prefix. |
| `ModeTally.TallyStep` | script.js:119-127 | Each branch of the loop body turns the loop state of a prefix into the loop state of the prefix extended by the next value. |
| `ModeTally.Tally` | script.js:115-127 | After the loop, `maxFreq` is the highest frequency in the sample. `modes` lists the values that reach it, in the order they reached it. |
| `ModeTally.ModeOf` | script.js:129 | An empty tally reports "No mode". When a mode list is reported, it is shorter than the sample. |
| `ModeTally.NoModeIffDistinct` | script.js:129 | `modes.length === n` holds exactly when every sample value is distinct. |
| `ModeTally.ModesAreModal` | script.js:129 | When a mode is reported, a value is listed exactly when it occurs in the sample with the highest frequency, and no value is listed twice. |
| `ModeTally.TwoPairsAndSingle` | script.js:115-129 | For `[a, a, b, b, c]` with distinct a, b, c, the modes are exactly a and b. |
| `ModeTally.TiedModesExample` | script.js:115-129 | `[1, 1, 2, 2, 3]` has the modes 1 and 2. |
| `ModeTally.NoModeExample` | script.js:129 | `[1, 2, 3]` has "No mode". |
| `Moments.TotalBounds` | script.js:148 | The running total of k values that lie in [lo, hi] lies in [k·lo, k·hi]. |
| `Moments.Sum` | script.js:148 | n values inside [lo, hi] add up to between n·lo and n·hi. |
| `Moments.Mean` | script.js:106 | The mean of a sample inside [lo, hi] lies inside [lo, hi]. |
| `Moments.SquaredDeviationsZero` | script.js:132 | The total of squared deviations over a prefix is 0 exactly when each value in that prefix equals the centre. |
| `Moments.Variance` | script.js:132 | The population variance is never negative. |
| `Moments.VarianceZeroIffConstant` | script.js:132 | The population variance is 0 exactly when all values are equal. |
| `OrderStatistics.Ceil` | script.js:170 | `Math.ceil(x)` is the least integer at or above x. It equals `Math.floor(x)` exactly when x is integral. |
| `OrderStatistics.Rank` | script.js:168 | The index `(p / 100) * (n - 1)` lies in [0, n - 1] for p in [0, 100]. |
| `OrderStatistics.RankMonotone` | script.js:168 | A larger percentile never has a smaller index. |
| `OrderStatistics.Percentile` | script.js:167-178 | Floor and ceiling of the index are valid positions. At an integral index the result is that element. Otherwise the ceiling is the floor plus one, and the result lies between the two elements. |
| `OrderStatistics.ConvexBetween` | script.js:176-177 | `a * (1 - w) + b * w` equals `a + w * (b - a)` and lies between a and b when 0 <= w <= 1. |
| `OrderStatistics.PercentileBracket` | script.js:167-178 | On sorted data the percentile lies between the elements at the floor and the ceiling of its index. |
| `OrderStatistics.PercentileWithinRange` | script.js:167-178 | On sorted data every percentile lies between the first and the last element. |
| `OrderStatistics.PercentileMonotone` | script.js:139-141 | On sorted data the percentile never decreases as p grows, so `q1 <= q3`. |
| `OrderStatistics.Median` | script.js:109-112 | The median lies between the two middle elements `sorted[(n - 1) / 2]` and `sorted[n / 2]`, which are one and the same for odd n. |
| `OrderStatistics.MedianIsFiftiethPercentile` | script.js:109-112 | The median (middle element, or mean of the two middle ones) equals the 50th percentile. |
| `OrderStatistics.MedianWithinRange` | script.js:109-112 | On sorted data the median lies between the first and the last element. |

## Left out

- `stdDev = Math.sqrt(variance)` (script.js:133) is not in the report. Dafny's reals have no square root, so only the variance is modelled.
- The mode is kept as the list of modal values. The text `modes.join(', ')` that the page shows is not built.
- Floating point is not modelled. Numbers are exact reals, so IEEE-754 rounding, overflow to Infinity and `-0` are absent. So is the `parseFloat` result `Infinity`, which passes the NaN filter in the source.
- `parseFloat` is a parameter, and what it accepts is not modelled. The same goes for the number-to-text rendering used by `join`.
- The `frequency` object turns its keys into strings, so for example `0` and `-0` share a key. The model keys the table by value.
- `OrderStatistics.Percentile` requires a non-empty array and 0 <= p <= 100. Outside that range the index can fall outside the array. At an integral index the source then returns the `undefined` element itself (p = 200 on three values gives index 4 and `data[4]`). At a fractional index it mixes `undefined` elements into NaN. The engine only calls it with 25 and 75 on a non-empty array.
- `StatisticsEngine.Statistics` and `StatisticsEngine.ComputeStatistics` require a non-empty sample. The source divides by zero and indexes `undefined` on an empty array, and the guard in `calculateStatistics` never lets one through.
- `displayResults`, `addToHistory` and its ten-entry cap, `updateChart`, `showNotification`, `clearData`, tab switching and the other DOM wiring are left out. They are presentation over the DOM and Chart.js.
- From `loadExample`, only the text it writes (`sampleData.join(', ')`) is modelled, through `InputParser.ParseJoinedRoundTrip`.
- `calculateProbability` is left out. It is floating-point `exp`/`sqrt` numerics plus constant placeholders, outside the statistics engine.
