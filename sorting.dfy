/**
 * The ascending numeric sort that the statistics engine applies to a copy of
 * its sample (`[...data].sort((a, b) => a - b)`).
 *
 * `InsertionSort` is the reference definition of "the sorted copy"; the method
 * `SortedCopy` allocates a fresh array, sorts it in place, and is proved to
 * produce a sorted permutation, which by `SortedUnique` is exactly
 * `InsertionSort` of the input.
 */
module Sorting {

  /** `s` is in ascending order. */
  predicate Sorted(s: seq<real>)
  {
    forall i, j :: 0 <= i < j < |s| ==> s[i] <= s[j]
  }

  /** Inserts `x` into the sorted sequence `s`, before the first element not below it. */
  function Insert(x: real, s: seq<real>): (r: seq<real>)
    requires Sorted(s)
    ensures Sorted(r)
    ensures multiset(r) == multiset(s) + multiset{x}
  {
    if s == [] || x <= s[0] then
      assert forall y :: y in s ==> x <= y by {
        if s != [] {
          HeadIsLeast(s);
          assert s == [s[0]] + s[1..];
        }
      }
      SortedCons(x, s);
      [x] + s
    else
      var rest := Insert(x, s[1..]);
      assert s == [s[0]] + s[1..];
      HeadIsLeast(s);
      MultisetLowerBound(s[0], x, s[1..], rest);
      SortedCons(s[0], rest);
      [s[0]] + rest
  }

  /** The head of a sorted sequence is a lower bound of its tail. */
  lemma HeadIsLeast(s: seq<real>)
    requires Sorted(s) && s != []
    ensures forall y :: y in s[1..] ==> s[0] <= y
  {
    forall y | y in s[1..]
      ensures s[0] <= y
    {
      var k :| 0 <= k < |s| - 1 && s[1..][k] == y;
      assert s[k + 1] == y;
    }
  }

  /** A lower bound of `t` and of `x` bounds every permutation of `t` plus `x`. */
  lemma MultisetLowerBound(h: real, x: real, t: seq<real>, r: seq<real>)
    requires multiset(r) == multiset(t) + multiset{x}
    requires h <= x && forall y :: y in t ==> h <= y
    ensures forall y :: y in r ==> h <= y
  {
    forall y | y in r
      ensures h <= y
    {
      assert y in multiset(r);
      assert y == x || y in multiset(t);
      assert y == x || y in t;
    }
  }

  /** Putting a lower bound in front of a sorted sequence keeps it sorted. */
  lemma SortedCons(h: real, t: seq<real>)
    requires Sorted(t)
    requires forall y :: y in t ==> h <= y
    ensures Sorted([h] + t)
  {
    forall i, j | 0 <= i < j < |t| + 1
      ensures ([h] + t)[i] <= ([h] + t)[j]
    {
      assert ([h] + t)[j] == t[j - 1] && t[j - 1] in t;
      if i > 0 {
        assert ([h] + t)[i] == t[i - 1];
      }
    }
  }

  /** Reference definition of the ascending sort of `s`. */
  function InsertionSort(s: seq<real>): (r: seq<real>)
    ensures Sorted(r)
    ensures multiset(r) == multiset(s)
    ensures |r| == |s|
  {
    if s == [] then []
    else
      assert s == s[..|s| - 1] + [s[|s| - 1]];
      assert |multiset(s)| == |s|;
      Insert(s[|s| - 1], InsertionSort(s[..|s| - 1]))
  }

  /** A sequence has only one ascending arrangement: two sorted permutations of each other are equal. */
  lemma {:induction false} SortedUnique(a: seq<real>, b: seq<real>)
    requires Sorted(a) && Sorted(b)
    requires multiset(a) == multiset(b)
    ensures a == b
  {
    if a != [] {
      assert |b| == |a| by { assert |multiset(a)| == |multiset(b)|; }
      assert a[0] in multiset(b);
      assert b[0] in multiset(a);
      assert a[0] == b[0];
      assert a == [a[0]] + a[1..];
      assert b == [b[0]] + b[1..];
      assert multiset(a) == multiset{a[0]} + multiset(a[1..]);
      assert multiset(b) == multiset{b[0]} + multiset(b[1..]);
      assert multiset(a[1..]) == multiset(a) - multiset{a[0]};
      assert multiset(b[1..]) == multiset(b) - multiset{b[0]};
      SortedUnique(a[1..], b[1..]);
    } else {
      assert |b| == |multiset(b)| == 0;
    }
  }

  /** An ascending permutation of `data` has every element of `data` between its two ends. */
  lemma SortedEnds(sorted: seq<real>, data: seq<real>)
    requires Sorted(sorted) && |sorted| > 0
    requires multiset(sorted) == multiset(data)
    ensures sorted[0] in data && sorted[|sorted| - 1] in data
    ensures forall x :: x in data ==> sorted[0] <= x <= sorted[|sorted| - 1]
  {
    assert sorted[0] in multiset(sorted);
    assert sorted[|sorted| - 1] in multiset(sorted);
    forall x | x in data
      ensures sorted[0] <= x <= sorted[|sorted| - 1]
    {
      assert x in multiset(data);
      assert x in sorted;
    }
  }

  /**
   * Exchanges the adjacent elements `a[j - 1]` and `a[j]`, which both lie in
   * the prefix `a[..n]`: that prefix is rearranged and the rest is untouched.
   */
  method SwapAdjacent(a: array<real>, j: int, n: int)
    requires 0 < j < n <= a.Length
    modifies a
    ensures a[..] == old(a[..])[j - 1 := old(a[j])][j := old(a[j - 1])]
    ensures multiset(a[..n]) == multiset(old(a[..n]))
    ensures a[n..] == old(a[n..])
  {
    a[j - 1], a[j] := a[j], a[j - 1];
    assert a[..n] == old(a[..n])[j - 1 := old(a[j])][j := old(a[j - 1])];
  }

  /**
   * The state of `SinkLast` while it works on `a[..i + 1]`: the sinking value
   * sits at `j`, the other cells of the prefix are in ascending order, and the
   * value is below every cell to its right.
   */
  predicate Sinking(s: seq<real>, i: int, j: int)
    requires 0 <= j <= i < |s|
  {
    (forall k, l :: 0 <= k < l <= i && k != j && l != j ==> s[k] <= s[l]) &&
    (forall l :: j < l <= i ==> s[j] < s[l])
  }

  /** A sorted prefix followed by one more value is the starting state of the sinking. */
  lemma SinkStart(b: seq<real>, i: int)
    requires 0 <= i < |b| && Sorted(b[..i])
    ensures Sinking(b, i, i)
  {
    assert forall k :: 0 <= k < i ==> b[..i][k] == b[k];
  }

  /** One adjacent swap moves the sinking value one cell to the left. */
  lemma SinkStep(b: seq<real>, c: seq<real>, i: int, j: int)
    requires 0 < j <= i < |b| && Sinking(b, i, j) && b[j] < b[j - 1]
    requires c == b[j - 1 := b[j]][j := b[j - 1]]
    ensures Sinking(c, i, j - 1)
  {
  }

  /** Once the sinking value is not below its left neighbour, the prefix is sorted. */
  lemma SinkDone(b: seq<real>, i: int, j: int)
    requires 0 <= j <= i < |b| && Sinking(b, i, j)
    requires j == 0 || b[j - 1] <= b[j]
    ensures Sorted(b[..i + 1])
  {
  }

  /**
   * Moves `a[i]` leftwards by adjacent swaps until it is not below its left
   * neighbour, so that the sorted prefix `a[..i]` grows to `a[..i + 1]`. Only
   * that prefix is rearranged: the cells after `i` keep their values.
   */
  method SinkLast(a: array<real>, i: int)
    requires 0 <= i < a.Length && Sorted(a[..i])
    modifies a
    ensures Sorted(a[..i + 1])
    ensures multiset(a[..i + 1]) == multiset(old(a[..i + 1]))
    ensures a[i + 1..] == old(a[i + 1..])
    ensures multiset(a[..]) == multiset(old(a[..]))
  {
    ghost var s0 := a[..];
    SinkStart(s0, i);
    var j := i;
    while 0 < j && a[j] < a[j - 1]
      invariant 0 <= j <= i
      invariant Sinking(a[..], i, j)
      invariant multiset(a[..i + 1]) == multiset(s0[..i + 1])
      invariant a[i + 1..] == s0[i + 1..]
    {
      ghost var b := a[..];
      SwapAdjacent(a, j, i + 1);
      SinkStep(b, a[..], i, j);
      j := j - 1;
    }
    RearrangedPrefix(a[..], s0, i + 1);
    SinkDone(a[..], i, j);
  }

  /** Rearranging a prefix and keeping the rest rearranges the whole sequence. */
  lemma RearrangedPrefix(s: seq<real>, t: seq<real>, n: int)
    requires 0 <= n <= |s| && n <= |t|
    requires multiset(s[..n]) == multiset(t[..n]) && s[n..] == t[n..]
    ensures multiset(s) == multiset(t)
  {
    assert s == s[..n] + s[n..];
    assert t == t[..n] + t[n..];
  }

  /** Sorts `a` ascending in place, by insertion. */
  method SortInPlace(a: array<real>)
    modifies a
    ensures Sorted(a[..])
    ensures multiset(a[..]) == multiset(old(a[..]))
  {
    var i := 0;
    while i < a.Length
      invariant 0 <= i <= a.Length
      invariant Sorted(a[..i])
      invariant multiset(a[..]) == multiset(old(a[..]))
    {
      SinkLast(a, i);
      i := i + 1;
    }
    assert a[..] == a[..a.Length];
  }

  /**
   * `[...data].sort((a, b) => a - b)`: a fresh array holding `data` in ascending
   * order. `data` itself is not in the frame, so it is left as it was.
   */
  method SortedCopy(data: array<real>) returns (sorted: array<real>)
    ensures fresh(sorted)
    ensures sorted[..] == InsertionSort(data[..])
  {
    sorted := new real[data.Length](i requires 0 <= i < data.Length reads data => data[i]);
    assert sorted[..] == data[..];
    SortInPlace(sorted);
    SortedUnique(sorted[..], InsertionSort(data[..]));
  }
}
