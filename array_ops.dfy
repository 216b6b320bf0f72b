/**
 * The numpy primitives the analysis is built from, on exact reals:
 * sums and means, minimum and maximum, argmin, boolean-mask and fancy
 * indexing, and np.unique over string labels.
 */
module ArrayOps {

  /** np.sum of a one-dimensional array. */
  function Sum(s: seq<real>): real
  {
    if s == [] then 0.0 else Sum(s[..|s| - 1]) + s[|s| - 1]
  }

  lemma {:induction false} SumConcat(a: seq<real>, b: seq<real>)
    ensures Sum(a + b) == Sum(a) + Sum(b)
  {
    if b == [] {
      assert a + b == a;
    } else {
      assert (a + b)[..|a + b| - 1] == a + b[..|b| - 1];
      SumConcat(a, b[..|b| - 1]);
    }
  }

  /** np.mean of a non-empty one-dimensional array. */
  function Mean(s: seq<real>): (m: real)
    requires |s| > 0
    ensures m * |s| as real == Sum(s)
    ensures MinOf(s) <= m <= MaxOf(s)
  {
    SumOverLength(s, MinOf(s), MaxOf(s));
    Sum(s) / |s| as real
  }

  /** The sum of values lying in [lo, hi], over their number, lies in [lo, hi] and scales back to the sum. */
  lemma SumOverLength(s: seq<real>, lo: real, hi: real)
    requires |s| > 0
    requires forall x :: x in s ==> lo <= x <= hi
    ensures lo <= Sum(s) / |s| as real <= hi
    ensures Sum(s) / |s| as real * |s| as real == Sum(s)
  {
    SumBounds(s, lo, hi);
    Quotient(Sum(s), |s| as real, lo, hi);
  }

  /** Dividing x, which lies in [n * lo, n * hi], by n > 0 gives a value in [lo, hi] that scales back to x. */
  lemma Quotient(x: real, n: real, lo: real, hi: real)
    requires n > 0.0 && n * lo <= x <= n * hi
    ensures lo <= x / n <= hi && x / n * n == x
  {
    assert x / n * n == x;
    assert n * (x / n - lo) >= 0.0;
    assert n * (hi - x / n) >= 0.0;
  }

  /** A sum of values lying in [lo, hi] lies between |s| * lo and |s| * hi. */
  lemma {:induction false} SumBounds(s: seq<real>, lo: real, hi: real)
    requires forall x :: x in s ==> lo <= x <= hi
    ensures |s| as real * lo <= Sum(s) <= |s| as real * hi
  {
    if s != [] {
      var p := s[..|s| - 1];
      assert forall x :: x in p ==> x in s;
      SumBounds(p, lo, hi);
      assert s[|s| - 1] in s;
      assert |s| as real * lo == |p| as real * lo + lo;
      assert |s| as real * hi == |p| as real * hi + hi;
    }
  }

  /** np.min of a non-empty array: an element no greater than any other. */
  function MinOf(s: seq<real>): (m: real)
    requires |s| > 0
    ensures m in s
    ensures forall x :: x in s ==> m <= x
  {
    if |s| == 1 then s[0]
    else
      var p := s[..|s| - 1];
      assert s == p + [s[|s| - 1]];
      var rest := MinOf(p);
      if s[|s| - 1] < rest then s[|s| - 1] else rest
  }

  /** np.max of a non-empty array: an element no smaller than any other. */
  function MaxOf(s: seq<real>): (m: real)
    requires |s| > 0
    ensures m in s
    ensures forall x :: x in s ==> x <= m
  {
    if |s| == 1 then s[0]
    else
      var p := s[..|s| - 1];
      assert s == p + [s[|s| - 1]];
      var rest := MaxOf(p);
      if s[|s| - 1] > rest then s[|s| - 1] else rest
  }

  /** The squared deviations of s from mu. */
  function SquaredDeviations(s: seq<real>, mu: real): seq<real>
  {
    seq(|s|, i requires 0 <= i < |s| => (s[i] - mu) * (s[i] - mu))
  }

  /**
   * The population variance (divisor |s|); np.std is its square root,
   * which is not modelled.
   */
  function Variance(s: seq<real>): (v: real)
    requires |s| > 0
    ensures v >= 0.0
  {
    var mu := Mean(s);
    var d := SquaredDeviations(s, mu);
    assert forall i :: 0 <= i < |d| ==> 0.0 <= d[i] by {
      forall i | 0 <= i < |d| ensures 0.0 <= d[i] {
        var e := s[i] - mu;
        assert e * e >= 0.0 by {
          if e < 0.0 { assert (-e) * (-e) == e * e; }
        }
      }
    }
    assert 0.0 <= MinOf(d);
    Mean(d)
  }

  /**
   * np.argmin of a non-empty array: the FIRST position holding the minimum.
   */
  function ArgMin(s: seq<real>): (k: nat)
    requires |s| > 0
    ensures k < |s|
    ensures forall j :: 0 <= j < |s| ==> s[k] <= s[j]
    ensures forall j :: 0 <= j < k ==> s[k] < s[j]
  {
    if |s| == 1 then 0
    else
      var k := ArgMin(s[..|s| - 1]);
      if s[|s| - 1] < s[k] then |s| - 1 else k
  }

  /** The entry at np.argmin is the array's np.min. */
  lemma ArgMinIsMin(s: seq<real>)
    requires |s| > 0
    ensures s[ArgMin(s)] == MinOf(s)
  {
    var m := MinOf(s);
    var j :| 0 <= j < |s| && s[j] == m;
    assert s[ArgMin(s)] <= s[j];
  }

  /** Element-wise difference `a - b` of two arrays of one length. */
  function Difference(a: seq<real>, b: seq<real>): (d: seq<real>)
    requires |a| == |b|
    ensures |d| == |a|
    ensures forall k :: 0 <= k < |d| ==> d[k] == a[k] - b[k]
  {
    seq(|a|, k requires 0 <= k < |a| => a[k] - b[k])
  }

  /** Fancy indexing `xs[idx]`: the elements of xs at the positions idx, in that order. */
  function Gather<T>(xs: seq<T>, idx: seq<nat>): seq<T>
    requires forall k :: 0 <= k < |idx| ==> idx[k] < |xs|
  {
    seq(|idx|, k requires 0 <= k < |idx| => xs[idx[k]])
  }

  predicate StrictlyIncreasing(idx: seq<nat>)
  {
    forall k, l :: 0 <= k < l < |idx| ==> idx[k] < idx[l]
  }

  /**
   * The positions where a boolean mask holds, in increasing order: what
   * `xs[mask]` keeps, and `np.sum(mask)` counts.
   */
  function MaskIndices(mask: seq<bool>): (idx: seq<nat>)
    ensures StrictlyIncreasing(idx)
    ensures forall k :: 0 <= k < |idx| ==> idx[k] < |mask| && mask[idx[k]]
    ensures forall i :: 0 <= i < |mask| && mask[i] ==> i in idx
  {
    if mask == [] then []
    else
      var n := |mask| - 1;
      var p := MaskIndices(mask[..n]);
      assert forall i :: 0 <= i < n ==> mask[..n][i] == mask[i];
      p + (if mask[n] then [n] else [])
  }

  /** The positions i of `values` with values[i] < bound, in increasing order. */
  function IndicesBelow(values: seq<real>, bound: real): (idx: seq<nat>)
    ensures StrictlyIncreasing(idx)
    ensures forall k :: 0 <= k < |idx| ==> idx[k] < |values|
    ensures forall i :: i in idx <==> 0 <= i < |values| && values[i] < bound
  {
    MaskIndices(seq(|values|, i requires 0 <= i < |values| => values[i] < bound))
  }

  /** An all-false mask selects nothing. */
  lemma {:induction false} MaskIndicesNone(mask: seq<bool>)
    requires forall i :: 0 <= i < |mask| ==> !mask[i]
    ensures MaskIndices(mask) == []
  {
    if mask != [] {
      MaskIndicesNone(mask[..|mask| - 1]);
    }
  }

  /** When no value lies below the bound, no position is selected. */
  lemma NoneBelow(values: seq<real>, bound: real)
    requires forall i :: 0 <= i < |values| ==> values[i] >= bound
    ensures IndicesBelow(values, bound) == []
  {
    MaskIndicesNone(seq(|values|, i requires 0 <= i < |values| => values[i] < bound));
  }

  /** The positions i of `values` with values[i] > bound, in increasing order. */
  function IndicesAbove(values: seq<real>, bound: real): (idx: seq<nat>)
    ensures StrictlyIncreasing(idx)
    ensures forall k :: 0 <= k < |idx| ==> idx[k] < |values|
    ensures forall i :: i in idx <==> 0 <= i < |values| && values[i] > bound
  {
    MaskIndices(seq(|values|, i requires 0 <= i < |values| => values[i] > bound))
  }

  /** When no value lies above the bound, no position is selected. */
  lemma NoneAbove(values: seq<real>, bound: real)
    requires forall i :: 0 <= i < |values| ==> values[i] <= bound
    ensures IndicesAbove(values, bound) == []
  {
    MaskIndicesNone(seq(|values|, i requires 0 <= i < |values| => values[i] > bound));
  }

  // ---------------------------------------------------------------------
  // np.unique over string labels: numpy orders strings lexicographically
  // by code point.

  predicate LexLess(a: string, b: string)
  {
    if a == [] then b != []
    else b != [] && (a[0] < b[0] || (a[0] == b[0] && LexLess(a[1..], b[1..])))
  }

  lemma {:induction false} LexIrreflexive(a: string)
    ensures !LexLess(a, a)
  {
    if a != [] {
      LexIrreflexive(a[1..]);
    }
  }

  lemma {:induction false} LexTransitive(a: string, b: string, c: string)
    requires LexLess(a, b) && LexLess(b, c)
    ensures LexLess(a, c)
  {
    if a != [] && a[0] == b[0] && b[0] == c[0] {
      LexTransitive(a[1..], b[1..], c[1..]);
    }
  }

  lemma {:induction false} LexTotal(a: string, b: string)
    requires a != b
    ensures LexLess(a, b) || LexLess(b, a)
  {
    if a != [] && b != [] && a[0] == b[0] {
      assert a == [a[0]] + a[1..] && b == [b[0]] + b[1..];
      LexTotal(a[1..], b[1..]);
    }
  }

  predicate StrictlySorted(s: seq<string>)
  {
    forall i, j :: 0 <= i < j < |s| ==> LexLess(s[i], s[j])
  }

  /** Inserts x into a strictly sorted list unless it is already there. */
  function InsertUnique(x: string, s: seq<string>): (r: seq<string>)
    requires StrictlySorted(s)
    ensures StrictlySorted(r)
    ensures forall y :: y in r <==> y == x || y in s
  {
    if s == [] then [x]
    else if x == s[0] then s
    else if LexLess(x, s[0]) then
      assert forall j :: 0 < j < |s| ==> LexLess(x, s[j]) by {
        forall j | 0 < j < |s| ensures LexLess(x, s[j]) {
          LexTransitive(x, s[0], s[j]);
        }
      }
      [x] + s
    else
      LexTotal(x, s[0]);
      var t := InsertUnique(x, s[1..]);
      assert forall y :: y in s[1..] ==> LexLess(s[0], y);
      [s[0]] + t
  }

  /** np.unique: the distinct labels, in strictly increasing order. */
  function Unique(labels: seq<string>): (r: seq<string>)
    ensures StrictlySorted(r)
    ensures forall y :: y in r <==> y in labels
  {
    if labels == [] then []
    else
      var p := labels[..|labels| - 1];
      assert labels == p + [labels[|labels| - 1]];
      InsertUnique(labels[|labels| - 1], Unique(p))
  }

  /** A strictly sorted list holds no label twice. */
  lemma SortedIsDistinct(s: seq<string>)
    requires StrictlySorted(s)
    ensures forall i, j :: 0 <= i < j < |s| ==> s[i] != s[j]
  {
    forall i, j | 0 <= i < j < |s| ensures s[i] != s[j] {
      LexIrreflexive(s[i]);
    }
  }
}
