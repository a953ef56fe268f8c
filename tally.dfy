/**
 * The mode computation of the statistics engine: a frequency tally over the
 * sample in its original order, a running maximum frequency, and the list of
 * values that have reached that frequency. When that list is as long as the
 * sample the engine reports "No mode"; otherwise it reports the listed values.
 *
 * Reference definitions: `Count` (occurrences of a value), `MaxCount` (the
 * highest count of any value) and `ValuesReaching(s, k)` (the values of `s`
 * whose k-th occurrence happens in `s`, listed in the order of those
 * occurrences). The method `Tally` is the loop; `ModeOf` is what it yields.
 */
module ModeTally {

  /** Number of occurrences of `v` in `s`. */
  function Count(s: seq<real>, v: real): nat
  {
    multiset(s)[v]
  }

  /** No value occurs twice in `s`. */
  predicate Distinct(s: seq<real>)
  {
    forall i, j :: 0 <= i < j < |s| ==> s[i] != s[j]
  }

  /** The largest count in `s` of any element of `among`. */
  function MaxCountAmong(s: seq<real>, among: seq<real>): nat
  {
    if among == [] then 0
    else
      var m := MaxCountAmong(s, among[..|among| - 1]);
      var c := Count(s, among[|among| - 1]);
      if m < c then c else m
  }

  /** MaxCountAmong bounds the count of every element of `among` and is the count of one of them. */
  lemma {:induction false} MaxCountAmongBounds(s: seq<real>, among: seq<real>)
    ensures forall i :: 0 <= i < |among| ==> Count(s, among[i]) <= MaxCountAmong(s, among)
    ensures among != [] ==> exists i :: 0 <= i < |among| && Count(s, among[i]) == MaxCountAmong(s, among)
    ensures among == [] ==> MaxCountAmong(s, among) == 0
  {
    if among != [] {
      var prefix := among[..|among| - 1];
      MaxCountAmongBounds(s, prefix);
      forall i | 0 <= i < |among| - 1
        ensures among[i] == prefix[i]
      {
      }
      if prefix != [] && Count(s, among[|among| - 1]) <= MaxCountAmong(s, prefix) {
        var i :| 0 <= i < |prefix| && Count(s, prefix[i]) == MaxCountAmong(s, prefix);
        assert among[i] == prefix[i];
      }
    }
  }

  /** The frequency of the most frequent value of `s`; 0 when `s` is empty. */
  function MaxCount(s: seq<real>): nat
  {
    MaxCountAmong(s, s)
  }

  /** MaxCount is the count of some value of `s` and no value of `s`, or any other, occurs more often. */
  lemma MaxCountIsMaximum(s: seq<real>)
    ensures forall v :: Count(s, v) <= MaxCount(s)
    ensures s != [] ==> exists i :: 0 <= i < |s| && Count(s, s[i]) == MaxCount(s)
    ensures s == [] ==> MaxCount(s) == 0
  {
    var m := MaxCountAmong(s, s);
    MaxCountAmongBounds(s, s);
    forall v | v in multiset(s)
      ensures Count(s, v) <= m
    {
      assert v in s;
      var i :| 0 <= i < |s| && s[i] == v;
    }
  }

  /**
   * The values of `s` whose k-th occurrence happens within `s`, one entry per
   * such value, in the order in which those k-th occurrences appear.
   */
  function ValuesReaching(s: seq<real>, k: nat): seq<real>
  {
    if s == [] then []
    else
      var last := s[|s| - 1];
      ValuesReaching(s[..|s| - 1], k) + (if Count(s, last) == k then [last] else [])
  }

  /** Two equal entries at different positions make a count of at least two. */
  lemma TwoOccurrences(s: seq<real>, i: nat, j: nat)
    requires i < j < |s| && s[i] == s[j]
    ensures Count(s, s[j]) >= 2
  {
    assert s == s[..j] + s[j..];
    assert multiset(s) == multiset(s[..j]) + multiset(s[j..]);
    assert s[i] in s[..j];
    assert s[j] in s[j..];
  }

  /** A value that reaches its k-th occurrence does so exactly once: ValuesReaching lists it once, and only then. */
  lemma {:induction false} ValuesReachingMultiplicity(s: seq<real>, k: nat, v: real)
    requires k >= 1
    ensures multiset(ValuesReaching(s, k))[v] == if Count(s, v) >= k then 1 else 0
  {
    if s != [] {
      var p, last := s[..|s| - 1], s[|s| - 1];
      assert s == p + [last];
      assert multiset(s) == multiset(p) + multiset{last};
      ValuesReachingMultiplicity(p, k, v);
    }
  }

  /** ValuesReaching never lists more entries than `s` has. */
  lemma {:induction false} ValuesReachingLength(s: seq<real>, k: nat)
    ensures |ValuesReaching(s, k)| <= |s|
  {
    if s != [] {
      ValuesReachingLength(s[..|s| - 1], k);
    }
  }

  /** If ValuesReaching lists as many entries as `s` has, every position of `s` is the k-th occurrence of its value. */
  lemma {:induction false} ValuesReachingFull(s: seq<real>, k: nat)
    requires |ValuesReaching(s, k)| == |s|
    ensures forall j :: 0 <= j < |s| ==> Count(s[..j + 1], s[j]) == k
  {
    if s != [] {
      var p, last := s[..|s| - 1], s[|s| - 1];
      ValuesReachingLength(p, k);
      var tail := if Count(s, last) == k then [last] else [];
      assert ValuesReaching(s, k) == ValuesReaching(p, k) + tail;
      assert |ValuesReaching(p, k)| == |p| && Count(s, last) == k;
      ValuesReachingFull(p, k);
      forall j | 0 <= j < |s|
        ensures Count(s[..j + 1], s[j]) == k
      {
        if j < |p| {
          assert s[..j + 1] == p[..j + 1] && s[j] == p[j];
          assert Count(p[..j + 1], p[j]) == k;
        } else {
          assert s[..j + 1] == s;
        }
      }
    }
  }

  /** In a sample without repeats every value occurs once. */
  lemma {:induction false} DistinctCounts(s: seq<real>, v: real)
    requires Distinct(s)
    ensures Count(s, v) <= 1
  {
    if s != [] {
      var p, last := s[..|s| - 1], s[|s| - 1];
      assert s == p + [last];
      assert multiset(s) == multiset(p) + multiset{last};
      assert Distinct(p);
      DistinctCounts(p, v);
      assert last !in p;
    }
  }

  /** In a sample without repeats each position is the first occurrence of its value, so all of them reach count 1. */
  lemma {:induction false} DistinctReachesOnce(s: seq<real>)
    requires Distinct(s)
    ensures ValuesReaching(s, 1) == s
  {
    if s != [] {
      var p, last := s[..|s| - 1], s[|s| - 1];
      assert Distinct(p);
      DistinctReachesOnce(p);
      DistinctCounts(s, last);
      assert last in s;
      assert s == p + [last];
    }
  }

  /** No value is listed for a frequency above the maximum. */
  lemma ValuesReachingAboveMax(s: seq<real>, k: nat)
    requires k > MaxCount(s)
    ensures ValuesReaching(s, k) == []
  {
    MaxCountIsMaximum(s);
    var r := ValuesReaching(s, k);
    forall v
      ensures multiset(r)[v] == 0
    {
      ValuesReachingMultiplicity(s, k, v);
    }
    assert multiset(r) == multiset{};
  }

  /** How the maximum frequency changes when one more value is tallied. */
  lemma MaxCountStep(p: seq<real>, x: real)
    ensures MaxCount(p + [x]) == if MaxCount(p) < Count(p, x) + 1 then Count(p, x) + 1 else MaxCount(p)
  {
    MaxCountIsMaximum(p);
    MaxCountIsMaximum(p + [x]);
    var s := p + [x];
    assert multiset(s) == multiset(p) + multiset{x};
    var c := Count(p, x) + 1;
    var m' := if MaxCount(p) < c then c else MaxCount(p);
    assert Count(s, x) == c;
    // MaxCount(s) is reached at some position, and no count in s exceeds m'.
    var j :| 0 <= j < |s| && Count(s, s[j]) == MaxCount(s);
    assert Count(s, s[j]) <= m' by {
      if s[j] != x {
        assert Count(s, s[j]) == Count(p, s[j]);
      }
    }
    // m' is reached in s: by x, or by the value that reached MaxCount(p).
    if p != [] && c <= MaxCount(p) {
      var i :| 0 <= i < |p| && Count(p, p[i]) == MaxCount(p);
      assert Count(s, p[i]) >= Count(p, p[i]);
    }
  }

  /** How ValuesReaching changes when one more value is tallied. */
  lemma ValuesReachingStep(p: seq<real>, x: real, k: nat)
    ensures ValuesReaching(p + [x], k) == ValuesReaching(p, k) + (if Count(p, x) + 1 == k then [x] else [])
  {
    var s := p + [x];
    assert s[..|s| - 1] == p;
    assert multiset(s) == multiset(p) + multiset{x};
  }

  /** The three cases of one tally step: `x` sets a new maximum, ties with it, or stays below it. */
  lemma TallyCases(p: seq<real>, x: real, f: nat, m: nat)
    requires f == Count(p, x) + 1 && m == MaxCount(p)
    ensures f > m ==> MaxCount(p + [x]) == f && ValuesReaching(p + [x], f) == [x]
    ensures f == m ==> MaxCount(p + [x]) == m && ValuesReaching(p + [x], m) == ValuesReaching(p, m) + [x]
    ensures f < m ==> MaxCount(p + [x]) == m && ValuesReaching(p + [x], m) == ValuesReaching(p, m)
  {
    MaxCountStep(p, x);
    ValuesReachingStep(p, x, m);
    ValuesReachingStep(p, x, f);
    if f > m {
      ValuesReachingAboveMax(p, f);
    }
  }

  /** The frequency table of `s`: each value that occurs, mapped to its number of occurrences. */
  function Frequencies(s: seq<real>): map<real, nat>
  {
    map v | v in multiset(s) :: Count(s, v)
  }

  /** Tallying one more value bumps its entry, starting from 0 when it was absent. */
  lemma FrequenciesStep(p: seq<real>, x: real)
    ensures var table := Frequencies(p);
      Frequencies(p + [x]) == table[x := (if x in table then table[x] else 0) + 1]
  {
    assert multiset(p + [x]) == multiset(p) + multiset{x};
    var table := Frequencies(p);
    var bumped := table[x := (if x in table then table[x] else 0) + 1];
    assert Frequencies(p + [x]).Keys == bumped.Keys;
  }

  /** The reported mode: "No mode" or the modal values in the order they reached the top frequency. */
  datatype Mode = NoMode | Modes(values: seq<real>)

  /** What the tally of `data` reports as its mode. */
  function ModeOf(data: seq<real>): (r: Mode)
    ensures data == [] ==> r == NoMode
    ensures r.Modes? ==> |r.values| < |data|
  {
    var modes := ValuesReaching(data, MaxCount(data));
    ValuesReachingLength(data, MaxCount(data));
    if |modes| == |data| then NoMode else Modes(modes)
  }

  /** The loop state after tallying `seen`: its frequency table, their maximum, and the values that reached it. */
  predicate TallyState(seen: seq<real>, frequency: map<real, nat>, maxFreq: nat, modes: seq<real>)
  {
    frequency == Frequencies(seen) && maxFreq == MaxCount(seen) && modes == ValuesReaching(seen, maxFreq)
  }

  /** Before the loop nothing has been tallied: an empty table, maximum 0 and no modes. */
  lemma TallyStart()
    ensures TallyState([], map[], 0, [])
  {
    assert Frequencies([]) == map[];
  }

  /** One pass of the loop body keeps the loop state in step with the values tallied so far. */
  lemma TallyStep(p: seq<real>, x: real, frequency: map<real, nat>, maxFreq: nat, modes: seq<real>, f: nat)
    requires TallyState(p, frequency, maxFreq, modes)
    requires f == (if x in frequency then frequency[x] else 0) + 1
    ensures f > maxFreq ==> TallyState(p + [x], frequency[x := f], f, [x])
    ensures f == maxFreq ==> TallyState(p + [x], frequency[x := f], maxFreq, modes + [x])
    ensures f < maxFreq ==> TallyState(p + [x], frequency[x := f], maxFreq, modes)
  {
    FrequenciesStep(p, x);
    assert f == Count(p, x) + 1;
    TallyCases(p, x, f, maxFreq);
  }

  /**
   * The tally loop: `frequency` counts each value seen so far, `maxFreq` is the
   * highest of those counts, and `modes` is reset to `[val]` when `val` beats it
   * or extended with `val` when `val` ties it.
   */
  method Tally(data: seq<real>) returns (maxFreq: nat, modes: seq<real>)
    ensures maxFreq == MaxCount(data)
    ensures modes == ValuesReaching(data, maxFreq)
  {
    var frequency: map<real, nat> := map[];
    maxFreq := 0;
    modes := [];
    TallyStart();
    for i := 0 to |data|
      invariant TallyState(data[..i], frequency, maxFreq, modes)
    {
      var val := data[i];
      assert data[..i + 1] == data[..i] + [val];
      var f := (if val in frequency then frequency[val] else 0) + 1;
      TallyStep(data[..i], val, frequency, maxFreq, modes, f);
      frequency := frequency[val := f];
      if f > maxFreq {
        maxFreq := f;
        modes := [val];
      } else if f == maxFreq {
        modes := modes + [val];
      }
    }
    assert data[..|data|] == data;
  }

  /** The "No mode" rule fires exactly when no value of the (non-empty) sample is repeated. */
  lemma NoModeIffDistinct(data: seq<real>)
    requires data != []
    ensures ModeOf(data) == NoMode <==> Distinct(data)
  {
    MaxCountIsMaximum(data);
    var m := MaxCount(data);
    if Distinct(data) {
      DistinctCounts(data, data[0]);
      assert data[..1] == [data[0]];
      assert Count(data, data[0]) >= 1;
      assert m == 1 by {
        var i :| 0 <= i < |data| && Count(data, data[i]) == m;
        DistinctCounts(data, data[i]);
      }
      DistinctReachesOnce(data);
    }
    if |ValuesReaching(data, m)| == |data| {
      ValuesReachingFull(data, m);
      assert data[..1] == [data[0]];
      forall i, j | 0 <= i < j < |data|
        ensures data[i] != data[j]
      {
        if data[i] == data[j] {
          TwoOccurrences(data[..j + 1], i, j);
          assert false;
        }
      }
    }
  }

  /**
   * When a mode is reported, it lists each value of maximal frequency exactly
   * once and nothing else.
   */
  lemma ModesAreModal(data: seq<real>, v: real)
    requires ModeOf(data).Modes?
    ensures v in ModeOf(data).values <==> Count(data, v) == MaxCount(data) && v in data
    ensures multiset(ModeOf(data).values)[v] <= 1
  {
    MaxCountIsMaximum(data);
    var m := MaxCount(data);
    assert data[0] in multiset(data);
    ValuesReachingMultiplicity(data, m, v);
  }

  /** Two values tied at two occurrences and a third value once: the mode lists the tied pair. */
  lemma TwoPairsAndSingle(a: real, b: real, c: real)
    requires a != b && a != c && b != c
    ensures ModeOf([a, a, b, b, c]).Modes?
    ensures forall v :: v in ModeOf([a, a, b, b, c]).values <==> v == a || v == b
  {
    var s := [a, a, b, b, c];
    PairsMaxCount(a, b, c);
    NoModeIffDistinct(s);
    assert s[0] == s[1];
    forall v
      ensures v in ModeOf(s).values <==> v == a || v == b
    {
      ModesAreModal(s, v);
      assert multiset(s) == multiset{a, a, b, b, c};
    }
  }

  /** In `[a, a, b, b, c]` the highest frequency is two. */
  lemma PairsMaxCount(a: real, b: real, c: real)
    requires a != b && a != c && b != c
    ensures MaxCount([a, a, b, b, c]) == 2
  {
    var s := [a, a, b, b, c];
    assert multiset(s) == multiset{a, a, b, b, c};
    MaxCountIsMaximum(s);
    assert Count(s, a) == 2 && Count(s, b) == 2 && Count(s, c) == 1;
    var i :| 0 <= i < |s| && Count(s, s[i]) == MaxCount(s);
  }

  /** The tie example: `[1, 1, 2, 2, 3]` has the modes 1 and 2. */
  lemma TiedModesExample()
    ensures ModeOf([1.0, 1.0, 2.0, 2.0, 3.0]).Modes?
    ensures forall v :: v in ModeOf([1.0, 1.0, 2.0, 2.0, 3.0]).values <==> v == 1.0 || v == 2.0
  {
    TwoPairsAndSingle(1.0, 2.0, 3.0);
  }

  /** The "No mode" example: in `[1, 2, 3]` every value occurs once. */
  lemma NoModeExample()
    ensures ModeOf([1.0, 2.0, 3.0]) == NoMode
  {
    NoModeIffDistinct([1.0, 2.0, 3.0]);
  }
}
