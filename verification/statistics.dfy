/** Depth-weighted and arithmetic statistics kernels over log samples
    (well_log_toolkit/statistics.py). NaN is modelled as `None`; every kernel
    drops NaN positions before computing. Standard deviations are modelled by
    their variance: the square root is left out. */
module Statistics {
  import opened Common
  import opened Numeric
  import Sorting

  /** One log sample; `None` stands for NaN. */
  type Sample = Option<real>

  /** The non-NaN values, in order (`values[~np.isnan(values)]`). */
  function ValidValues(values: seq<Sample>): (r: seq<real>)
    ensures |r| <= |values|
    decreases |values|
  {
    if |values| == 0 then []
    else
      var n := |values|;
      ValidValues(values[..n - 1]) + (if values[n - 1].Some? then [values[n - 1].value] else [])
  }

  /** The valid values are exactly the non-NaN samples. */
  lemma {:induction false} ValidValuesMembers(values: seq<Sample>)
    ensures forall x :: x in ValidValues(values) <==> Some(x) in values
    decreases |values|
  {
    var n := |values|;
    if n > 0 {
      ValidValuesMembers(values[..n - 1]);
      assert values == values[..n - 1] + [values[n - 1]];
    }
  }

  /** Number of non-NaN samples. */
  function CountValid(values: seq<Sample>): nat
  {
    |ValidValues(values)|
  }

  /** A NaN-free array viewed as samples. */
  function AsSamples(xs: seq<real>): (r: seq<Sample>)
    ensures |r| == |xs|
    ensures forall i :: 0 <= i < |xs| ==> r[i] == Some(xs[i])
  {
    seq(|xs|, i requires 0 <= i < |xs| => Some(xs[i]))
  }

  function Midpoint(a: real, b: real): real
  {
    (a + b) / 2.0
  }

  /** Thickness of sample `i` of a column of two or more depths by the
      midpoint rule: the first and last samples get half the gap to their
      neighbour, interior samples the distance between the neighbouring midpoints. */
  function Interval(depth: seq<real>, i: nat): real
    requires 2 <= |depth| && i < |depth|
  {
    if i == 0 then (depth[1] - depth[0]) / 2.0
    else if i == |depth| - 1 then (depth[i] - depth[i - 1]) / 2.0
    else Midpoint(depth[i + 1], depth[i]) - Midpoint(depth[i], depth[i - 1])
  }

  /** Thickness of each sample (compute_intervals); a lone sample gets 1.0. */
  function Intervals(depth: seq<real>): (r: seq<real>)
    ensures |r| == |depth|
    ensures |depth| == 1 ==> r == [1.0]
    ensures |depth| >= 2 ==> forall i :: 0 <= i < |depth| ==> r[i] == Interval(depth, i)
  {
    if |depth| == 0 then []
    else if |depth| == 1 then [1.0]
    else seq(|depth|, i requires 0 <= i < |depth| => Interval(depth, i))
  }

  ghost predicate Ascending(depth: seq<real>)
  {
    forall i :: 0 < i < |depth| ==> depth[i - 1] <= depth[i]
  }

  ghost predicate StrictlyAscending(depth: seq<real>)
  {
    forall i :: 0 < i < |depth| ==> depth[i - 1] < depth[i]
  }

  lemma {:induction false} IntervalsPrefix(depth: seq<real>, k: nat)
    requires 2 <= |depth| && 1 <= k < |depth|
    ensures Sum(Intervals(depth)[..k]) == Midpoint(depth[k - 1], depth[k]) - depth[0]
    decreases k
  {
    var r := Intervals(depth);
    var a := r[..k];
    if k == 1 {
      assert a[..0] == [];
    } else {
      var b := r[..k - 1];
      IntervalsPrefix(depth, k - 1);
      assert a[..k - 1] == b;
      assert Sum(a) == Sum(b) + a[k - 1];
      assert a[k - 1] == Interval(depth, k - 1);
    }
  }

  /** The intervals telescope: together they span exactly the logged depth range. */
  lemma IntervalsTelescope(depth: seq<real>)
    requires |depth| >= 2
    ensures Sum(Intervals(depth)) == depth[|depth| - 1] - depth[0]
  {
    var r := Intervals(depth);
    var n := |depth|;
    IntervalsPrefix(depth, n - 1);
    assert r[..n] == r;
    assert r[..n][..n - 1] == r[..n - 1];
  }

  /** On an ascending depth column no sample gets a negative thickness. */
  lemma IntervalsNonNegative(depth: seq<real>)
    requires Ascending(depth)
    ensures forall i :: 0 <= i < |depth| ==> Intervals(depth)[i] >= 0.0
  {
  }

  /** On a strictly ascending depth column every thickness is positive. */
  lemma IntervalsPositive(depth: seq<real>)
    requires StrictlyAscending(depth)
    ensures forall i :: 0 <= i < |depth| ==> Intervals(depth)[i] > 0.0
  {
  }

  /** The documented example: depths 1500, 1501, 1505. */
  lemma IntervalsExample()
    ensures Intervals([1500.0, 1501.0, 1505.0]) == [0.5, 2.5, 2.0]
  {
    var r := Intervals([1500.0, 1501.0, 1505.0]);
    assert r[0] == 0.5 && r[1] == 2.5 && r[2] == 2.0;
  }

  /** `p` is the (value, weight) pair found at some position of the two columns. */
  ghost predicate PairAt(values: seq<Sample>, weights: seq<Sample>, p: (real, real))
  {
    exists i :: 0 <= i < |values| && i < |weights| && values[i] == Some(p.0) && weights[i] == Some(p.1)
  }

  /** The (value, weight) pairs at the positions where neither is NaN, in order. */
  function ValidPairs(values: seq<Sample>, weights: seq<Sample>): (r: seq<(real, real)>)
    requires |values| == |weights|
    ensures |r| <= |values|
    ensures |r| == 0 <==> forall i :: 0 <= i < |values| ==> values[i].None? || weights[i].None?
    ensures forall k :: 0 <= k < |r| ==> PairAt(values, weights, r[k])
    decreases |values|
  {
    if |values| == 0 then []
    else
      var n := |values|;
      var rest := ValidPairs(values[..n - 1], weights[..n - 1]);
      assert forall p :: PairAt(values[..n - 1], weights[..n - 1], p) ==> PairAt(values, weights, p) by {
        forall p | PairAt(values[..n - 1], weights[..n - 1], p) ensures PairAt(values, weights, p) {
          var i :| 0 <= i < n - 1 && values[..n - 1][i] == Some(p.0) && weights[..n - 1][i] == Some(p.1);
          assert values[i] == Some(p.0) && weights[i] == Some(p.1);
        }
      }
      assert values[n - 1].Some? && weights[n - 1].Some? ==>
        PairAt(values, weights, (values[n - 1].value, weights[n - 1].value));
      if values[n - 1].Some? && weights[n - 1].Some? then
        rest + [(values[n - 1].value, weights[n - 1].value)]
      else rest
  }

  /** Total weight of the pairs. */
  function SumWeights(ps: seq<(real, real)>): real
  {
    if |ps| == 0 then 0.0 else SumWeights(ps[..|ps| - 1]) + ps[|ps| - 1].1
  }

  /** Sum of value times weight over the pairs. */
  function SumProducts(ps: seq<(real, real)>): real
  {
    if |ps| == 0 then 0.0 else SumProducts(ps[..|ps| - 1]) + ps[|ps| - 1].0 * ps[|ps| - 1].1
  }

  /** Weighted sum of squared deviations from `m`. */
  function SumWeightedSquares(ps: seq<(real, real)>, m: real): real
  {
    if |ps| == 0 then 0.0
    else
      var p := ps[|ps| - 1];
      SumWeightedSquares(ps[..|ps| - 1], m) + p.1 * (p.0 - m) * (p.0 - m)
  }

  function PairValues(ps: seq<(real, real)>): (r: seq<real>)
    ensures |r| == |ps| && forall k :: 0 <= k < |ps| ==> r[k] == ps[k].0
  {
    seq(|ps|, k requires 0 <= k < |ps| => ps[k].0)
  }

  /** Depth-weighted mean (weighted_mean): NaN when no valid pair is left or the
      valid weights sum to zero; otherwise the weighted total over the total weight. */
  function WeightedMean(values: seq<Sample>, weights: seq<Sample>): (r: Option<real>)
    requires |values| == |weights|
    ensures r.None? <==> |ValidPairs(values, weights)| == 0 || SumWeights(ValidPairs(values, weights)) == 0.0
    ensures r.Some? ==>
      r.value == SumProducts(ValidPairs(values, weights)) / SumWeights(ValidPairs(values, weights))
  {
    var ps := ValidPairs(values, weights);
    if |ps| == 0 || SumWeights(ps) == 0.0 then None
    else Some(SumProducts(ps) / SumWeights(ps))
  }

  /** Depth-weighted sum (weighted_sum): NaN only when no valid pair is left. */
  function WeightedSum(values: seq<Sample>, weights: seq<Sample>): (r: Option<real>)
    requires |values| == |weights|
    ensures r.None? <==> |ValidPairs(values, weights)| == 0
    ensures r.Some? ==> r.value == SumProducts(ValidPairs(values, weights))
  {
    var ps := ValidPairs(values, weights);
    if |ps| == 0 then None else Some(SumProducts(ps))
  }

  /** Weighted variance under the root of weighted_std: NaN with fewer than two
      valid pairs or zero total weight; otherwise the weighted mean of the squared
      deviations from the weighted mean. */
  function WeightedVariance(values: seq<Sample>, weights: seq<Sample>): (r: Option<real>)
    requires |values| == |weights|
    ensures r.None? <==> |ValidPairs(values, weights)| < 2 || SumWeights(ValidPairs(values, weights)) == 0.0
    ensures r.Some? ==> WeightedMean(values, weights).Some?
    ensures r.Some? ==>
      r.value == SumWeightedSquares(ValidPairs(values, weights), WeightedMean(values, weights).value)
        / SumWeights(ValidPairs(values, weights))
  {
    var ps := ValidPairs(values, weights);
    if |ps| < 2 || SumWeights(ps) == 0.0 then None
    else
      var m := WeightedMean(values, weights).value;
      Some(SumWeightedSquares(ps, m) / SumWeights(ps))
  }

  lemma {:induction false} ProductsBounded(ps: seq<(real, real)>, lo: real, hi: real)
    requires forall k :: 0 <= k < |ps| ==> ps[k].1 >= 0.0 && lo <= ps[k].0 <= hi
    ensures lo * SumWeights(ps) <= SumProducts(ps) <= hi * SumWeights(ps)
    ensures SumWeights(ps) >= 0.0
    decreases |ps|
  {
    if |ps| > 0 {
      var p := ps[|ps| - 1];
      ProductsBounded(ps[..|ps| - 1], lo, hi);
      MulMonotone(lo, p.0, p.1);
      MulMonotone(p.0, hi, p.1);
    }
  }

  lemma MulMonotone(a: real, b: real, w: real)
    requires a <= b && w >= 0.0
    ensures a * w <= b * w
  {
    assert (b - a) * w >= 0.0;
  }

  /** A non-negatively weighted average of values in [lo, hi] stays in [lo, hi]. */
  lemma PairsMeanBounded(ps: seq<(real, real)>, lo: real, hi: real)
    requires forall k :: 0 <= k < |ps| ==> ps[k].1 >= 0.0 && lo <= ps[k].0 <= hi
    requires SumWeights(ps) != 0.0
    ensures lo <= SumProducts(ps) / SumWeights(ps) <= hi
  {
    ProductsBounded(ps, lo, hi);
    var w := SumWeights(ps);
    var m := SumProducts(ps) / w;
    assert m * w == SumProducts(ps);
    PositiveFactor(m - lo, w);
    PositiveFactor(hi - m, w);
  }

  /** With non-negative weights the weighted mean lies within any bounds of the valid values. */
  lemma WeightedMeanBounded(values: seq<Sample>, weights: seq<Sample>, lo: real, hi: real)
    requires |values| == |weights|
    requires forall i :: 0 <= i < |weights| && weights[i].Some? ==> weights[i].value >= 0.0
    requires forall i :: 0 <= i < |values| && values[i].Some? && weights[i].Some? ==> lo <= values[i].value <= hi
    ensures WeightedMean(values, weights).Some? ==> lo <= WeightedMean(values, weights).value <= hi
  {
    var ps := ValidPairs(values, weights);
    if WeightedMean(values, weights).Some? {
      forall k | 0 <= k < |ps| ensures ps[k].1 >= 0.0 && lo <= ps[k].0 <= hi {
        assert PairAt(values, weights, ps[k]);
        var i :| 0 <= i < |values| && values[i] == Some(ps[k].0) && weights[i] == Some(ps[k].1);
      }
      PairsMeanBounded(ps, lo, hi);
    }
  }

  lemma PositiveFactor(a: real, w: real)
    requires w > 0.0 && a * w >= 0.0
    ensures a >= 0.0
  {
  }

  lemma {:induction false} WeightedSquaresNonNegative(ps: seq<(real, real)>, m: real)
    requires forall k :: 0 <= k < |ps| ==> ps[k].1 >= 0.0
    ensures SumWeightedSquares(ps, m) >= 0.0 && SumWeights(ps) >= 0.0
    decreases |ps|
  {
    if |ps| > 0 {
      var p := ps[|ps| - 1];
      WeightedSquaresNonNegative(ps[..|ps| - 1], m);
      assert (p.0 - m) * (p.0 - m) >= 0.0;
      MulMonotone(0.0, (p.0 - m) * (p.0 - m), p.1);
      assert p.1 * (p.0 - m) * (p.0 - m) == (p.0 - m) * (p.0 - m) * p.1;
    }
  }

  /** With non-negative weights the weighted variance is never negative, so its root exists. */
  lemma WeightedVarianceNonNegative(values: seq<Sample>, weights: seq<Sample>)
    requires |values| == |weights|
    requires forall i :: 0 <= i < |weights| && weights[i].Some? ==> weights[i].value >= 0.0
    ensures WeightedVariance(values, weights).Some? ==> WeightedVariance(values, weights).value >= 0.0
  {
    var ps := ValidPairs(values, weights);
    var r := WeightedVariance(values, weights);
    if r.Some? {
      forall k | 0 <= k < |ps| ensures ps[k].1 >= 0.0 {
        assert PairAt(values, weights, ps[k]);
        var i :| 0 <= i < |values| && values[i] == Some(ps[k].0) && weights[i] == Some(ps[k].1);
      }
      var m := WeightedMean(values, weights).value;
      WeightedSquaresNonNegative(ps, m);
      var w := SumWeights(ps);
      assert w > 0.0;
      DivMul(SumWeightedSquares(ps, m), w);
      PositiveFactor(r.value, w);
    }
  }

  /** Sort key of a (value, weight) pair: its value. */
  function ByValue(p: (real, real)): real
  {
    p.0
  }

  /** Running totals of the weights (np.cumsum). */
  function CumulativeWeights(ps: seq<(real, real)>): (c: seq<real>)
    ensures |c| == |ps|
    ensures forall i :: 0 <= i < |ps| ==> c[i] == SumWeights(ps[..i + 1])
  {
    seq(|ps|, i requires 0 <= i < |ps| => SumWeights(ps[..i + 1]))
  }

  /** np.searchsorted with side='left': numpy's bisection over [lo, hi),
      moving right past every probed entry below `target`. On any array the
      index it returns is bracketed: the entry before it lies below the target
      and the entry at it does not. */
  function Bisect(c: seq<real>, target: real, lo: nat, hi: nat): (idx: nat)
    requires lo <= hi <= |c|
    requires lo > 0 ==> c[lo - 1] < target
    requires hi < |c| ==> target <= c[hi]
    ensures lo <= idx <= hi
    ensures idx > 0 ==> c[idx - 1] < target
    ensures idx < |c| ==> target <= c[idx]
    decreases hi - lo
  {
    if lo == hi then lo
    else
      var mid := lo + (hi - lo) / 2;
      if c[mid] < target then Bisect(c, target, mid + 1, hi) else Bisect(c, target, lo, mid)
  }

  /** The search over the whole array. */
  function SearchLeft(c: seq<real>, target: real): (idx: nat)
    ensures idx <= |c|
    ensures idx > 0 ==> c[idx - 1] < target
    ensures idx < |c| ==> target <= c[idx]
  {
    Bisect(c, target, 0, |c|)
  }

  /** Entries in ascending order. */
  ghost predicate NonDecreasing(c: seq<real>)
  {
    forall i, j :: 0 <= i <= j < |c| ==> c[i] <= c[j]
  }

  /** On an ascending array the search finds the first entry that reaches the
      target, as numpy documents. */
  lemma SearchLeftAscending(c: seq<real>, target: real)
    requires NonDecreasing(c)
    ensures forall k :: 0 <= k < SearchLeft(c, target) ==> c[k] < target
    ensures SearchLeft(c, target) < |c| ==> target <= c[SearchLeft(c, target)]
  {
    var idx := SearchLeft(c, target);
    forall k | 0 <= k < idx ensures c[k] < target {
      assert c[k] <= c[idx - 1];
    }
  }

  /** A log recorded upward has descending cumulative weights; the bisection
      then runs off the end, not stopping at the first entry. */
  lemma SearchLeftDescending()
    ensures SearchLeft([-0.5, -1.5, -2.0], -1.0) == 3
  {
    var c := [-0.5, -1.5, -2.0];
    assert Bisect(c, -1.0, 0, 3) == Bisect(c, -1.0, 2, 3);
    assert Bisect(c, -1.0, 2, 3) == Bisect(c, -1.0, 3, 3);
  }

  lemma MulNonNegative(f: real, d: real)
    requires f >= 0.0 && d >= 0.0
    ensures f * d >= 0.0
  {
  }

  lemma DivMul(a: real, b: real)
    requires b != 0.0
    ensures (a / b) * b == a
  {
  }

  /** Linear interpolation between (c0, x0) and (c1, x1) at `t` (np.interp's step). */
  function Interpolate(x0: real, x1: real, c0: real, c1: real, t: real): real
    requires c0 < c1
  {
    x0 + ((t - c0) / (c1 - c0)) * (x1 - x0)
  }

  lemma FractionBounds(num: real, den: real)
    requires 0.0 < num <= den
    ensures 0.0 < num / den <= 1.0
  {
  }

  /** A target strictly above c0 and at most c1 interpolates to a value between x0 and x1. */
  lemma InterpolateBetween(x0: real, x1: real, c0: real, c1: real, t: real)
    requires x0 <= x1 && c0 < t <= c1
    ensures x0 <= Interpolate(x0, x1, c0, c1, t) <= x1
  {
    var f := (t - c0) / (c1 - c0);
    FractionBounds(t - c0, c1 - c0);
    MulNonNegative(f, x1 - x0);
    MulNonNegative(1.0 - f, x1 - x0);
  }

  /** Interpolating at the upper bracket gives the upper value. */
  lemma InterpolateAtUpper(x0: real, x1: real, c0: real, c1: real)
    requires c0 < c1
    ensures Interpolate(x0, x1, c0, c1, c1) == x1
  {
    var d := c1 - c0;
    assert (c1 - c0) / d == 1.0;
  }

  /** Sorted pairs are ordered by value. */
  lemma SortedOrder(s: seq<(real, real)>, i: int, j: int)
    requires Sorting.SortedBy(s, ByValue) && 0 <= i <= j < |s|
    ensures s[i].0 <= s[j].0
  {
    if i < j {
      assert ByValue(s[i]) <= ByValue(s[j]);
    }
  }

  /** Every value of the sorted pairs is one of the valid values. */
  lemma SortedValuesAreValid(ps: seq<(real, real)>, k: int)
    requires 0 <= k < |ps|
    ensures Sorting.SortBy(ps, ByValue)[k].0 in PairValues(ps)
  {
    var i := Sorting.SortedOrigin(ps, ByValue, k);
    assert PairValues(ps)[i] == ps[i].0;
  }

  /** Every valid value lies between the first and the last sorted value. */
  lemma SortedEncloses(ps: seq<(real, real)>, i: int)
    requires 0 <= i < |ps|
    ensures Sorting.SortBy(ps, ByValue)[0].0 <= ps[i].0 <= Sorting.SortBy(ps, ByValue)[|ps| - 1].0
  {
    var s := Sorting.SortBy(ps, ByValue);
    var k := Sorting.SortedPosition(ps, ByValue, i);
    SortedOrder(s, 0, k);
    SortedOrder(s, k, |s| - 1);
  }

  /** The smallest sorted value is the smallest valid value. */
  lemma SortedFirstIsMin(ps: seq<(real, real)>)
    requires |ps| > 0
    ensures Sorting.SortBy(ps, ByValue)[0].0 == MinOf(PairValues(ps))
  {
    var x := Sorting.SortBy(ps, ByValue)[0].0;
    SortedValuesAreValid(ps, 0);
    forall y | y in PairValues(ps) ensures x <= y {
      var i :| 0 <= i < |ps| && PairValues(ps)[i] == y;
      SortedEncloses(ps, i);
    }
    MinOfUnique(PairValues(ps), x);
  }

  /** The largest sorted value is the largest valid value. */
  lemma SortedLastIsMax(ps: seq<(real, real)>)
    requires |ps| > 0
    ensures Sorting.SortBy(ps, ByValue)[|ps| - 1].0 == MaxOf(PairValues(ps))
  {
    var n := |ps|;
    var x := Sorting.SortBy(ps, ByValue)[n - 1].0;
    SortedValuesAreValid(ps, n - 1);
    forall y | y in PairValues(ps) ensures y <= x {
      var i :| 0 <= i < |ps| && PairValues(ps)[i] == y;
      SortedEncloses(ps, i);
    }
    MaxOfUnique(PairValues(ps), x);
  }

  /** The cumulative weight a percentile aims at: that fraction of the total. */
  function PercentileTarget(percentile: real, total: real): real
  {
    (percentile / 100.0) * total
  }

  /** The percentile read off pairs already sorted by value: interpolation
      between the two pairs whose cumulative weights bracket the target. */
  function PercentileOfSorted(s: seq<(real, real)>, percentile: real): (r: real)
    requires |s| > 0
    ensures (forall i :: 0 <= i < |s| ==> s[i].0 == s[0].0) ==> r == s[0].0
  {
    var cum := CumulativeWeights(s);
    var target := PercentileTarget(percentile, cum[|cum| - 1]);
    var idx := SearchLeft(cum, target);
    if idx == 0 then s[0].0
    else if idx >= |s| then s[|s| - 1].0
    else Interpolate(s[idx - 1].0, s[idx].0, cum[idx - 1], cum[idx], target)
  }

  /** The bracketing cumulative weights satisfy below < target <= above, so the
      interpolation never divides by zero and stays between the first and the
      last sorted value. */
  lemma PercentileOfSortedBetween(s: seq<(real, real)>, percentile: real)
    requires |s| > 0 && Sorting.SortedBy(s, ByValue)
    ensures s[0].0 <= PercentileOfSorted(s, percentile) <= s[|s| - 1].0
  {
    var cum := CumulativeWeights(s);
    var target := PercentileTarget(percentile, cum[|cum| - 1]);
    var idx := SearchLeft(cum, target);
    SortedOrder(s, 0, |s| - 1);
    if 0 < idx < |s| {
      assert cum[idx - 1] < target <= cum[idx];
      SortedOrder(s, idx - 1, idx);
      InterpolateBetween(s[idx - 1].0, s[idx].0, cum[idx - 1], cum[idx], target);
      SortedOrder(s, 0, idx - 1);
      SortedOrder(s, idx, |s| - 1);
    }
  }

  /** Weighted percentile (weighted_percentile): NaN when no valid pair is left;
      otherwise a value between the smallest and the largest valid value. */
  function WeightedPercentile(values: seq<Sample>, weights: seq<Sample>, percentile: real): (r: Option<real>)
    requires |values| == |weights|
    ensures r.None? <==> |ValidPairs(values, weights)| == 0
    ensures r.Some? ==>
      MinOf(PairValues(ValidPairs(values, weights))) <= r.value <= MaxOf(PairValues(ValidPairs(values, weights)))
  {
    var ps := ValidPairs(values, weights);
    if |ps| == 0 then None
    else
      var s := Sorting.SortBy(ps, ByValue);
      PercentileOfSortedBetween(s, percentile);
      SortedFirstIsMin(ps);
      SortedLastIsMax(ps);
      Some(PercentileOfSorted(s, percentile))
  }

  lemma {:induction false} SumWeightsNonNegative(ps: seq<(real, real)>)
    requires forall k :: 0 <= k < |ps| ==> ps[k].1 >= 0.0
    ensures SumWeights(ps) >= 0.0
    decreases |ps|
  {
    if |ps| > 0 {
      SumWeightsNonNegative(ps[..|ps| - 1]);
    }
  }

  /** Weights taken from the valid pairs inherit any sign bound of the input weights. */
  lemma SortedWeightsBounded(values: seq<Sample>, weights: seq<Sample>, s: seq<(real, real)>, strict: bool)
    requires |values| == |weights|
    requires forall i :: 0 <= i < |weights| && weights[i].Some? ==>
      (if strict then weights[i].value > 0.0 else weights[i].value >= 0.0)
    requires s == Sorting.SortBy(ValidPairs(values, weights), ByValue)
    ensures forall k :: 0 <= k < |s| ==> (if strict then s[k].1 > 0.0 else s[k].1 >= 0.0)
  {
    var ps := ValidPairs(values, weights);
    forall k | 0 <= k < |s| ensures (if strict then s[k].1 > 0.0 else s[k].1 >= 0.0) {
      var j := Sorting.SortedOrigin(ps, ByValue, k);
      assert PairAt(values, weights, ps[j]);
      var i :| 0 <= i < |values| && values[i] == Some(ps[j].0) && weights[i] == Some(ps[j].1);
    }
  }

  /** With non-negative weights the target of the 0th percentile is reached at the first pair. */
  lemma PercentileOfSortedZero(s: seq<(real, real)>)
    requires |s| > 0
    requires forall k :: 0 <= k < |s| ==> s[k].1 >= 0.0
    ensures PercentileOfSorted(s, 0.0) == s[0].0
  {
    var cum := CumulativeWeights(s);
    assert PercentileTarget(0.0, cum[|cum| - 1]) == 0.0;
    var idx := SearchLeft(cum, 0.0);
    if idx > 0 {
      var front := s[..idx];
      assert forall k :: 0 <= k < |front| ==> front[k] == s[k];
      SumWeightsNonNegative(front);
    }
  }

  /** The 0th weighted percentile is the smallest valid value when weights are non-negative. */
  lemma PercentileZeroIsMin(values: seq<Sample>, weights: seq<Sample>)
    requires |values| == |weights|
    requires forall i :: 0 <= i < |weights| && weights[i].Some? ==> weights[i].value >= 0.0
    ensures WeightedPercentile(values, weights, 0.0).Some? ==>
      WeightedPercentile(values, weights, 0.0).value == MinOf(PairValues(ValidPairs(values, weights)))
  {
    var ps := ValidPairs(values, weights);
    if |ps| > 0 {
      var s := Sorting.SortBy(ps, ByValue);
      SortedWeightsBounded(values, weights, s, false);
      PercentileOfSortedZero(s);
      SortedFirstIsMin(ps);
    }
  }

  /** Cumulative weights strictly increase when every weight is positive. */
  lemma {:induction false} CumulativeStrictlyIncreasing(s: seq<(real, real)>, k: nat, j: nat)
    requires forall t :: 0 <= t < |s| ==> s[t].1 > 0.0
    requires k < j < |s|
    ensures SumWeights(s[..k + 1]) < SumWeights(s[..j + 1])
    decreases j - k
  {
    assert s[..j + 1][..j] == s[..j];
    if j > k + 1 {
      CumulativeStrictlyIncreasing(s, k, j - 1);
    }
  }

  /** With positive weights the full total is first reached at the last pair. */
  lemma PercentileOfSortedHundred(s: seq<(real, real)>)
    requires |s| > 0
    requires forall k :: 0 <= k < |s| ==> s[k].1 > 0.0
    ensures PercentileOfSorted(s, 100.0) == s[|s| - 1].0
  {
    var n := |s|;
    var cum := CumulativeWeights(s);
    var target := PercentileTarget(100.0, cum[n - 1]);
    assert target == cum[n - 1];
    var idx := SearchLeft(cum, target);
    if idx < n - 1 {
      CumulativeStrictlyIncreasing(s, idx, n - 1);
      assert false;
    }
    if n > 1 {
      CumulativeStrictlyIncreasing(s, n - 2, n - 1);
      InterpolateAtUpper(s[n - 2].0, s[n - 1].0, cum[n - 2], cum[n - 1]);
    }
  }

  /** The 100th weighted percentile is the largest valid value when every weight is positive. */
  lemma PercentileHundredIsMax(values: seq<Sample>, weights: seq<Sample>)
    requires |values| == |weights|
    requires forall i :: 0 <= i < |weights| && weights[i].Some? ==> weights[i].value > 0.0
    ensures WeightedPercentile(values, weights, 100.0).Some? ==>
      WeightedPercentile(values, weights, 100.0).value == MaxOf(PairValues(ValidPairs(values, weights)))
  {
    var ps := ValidPairs(values, weights);
    if |ps| > 0 {
      var s := Sorting.SortBy(ps, ByValue);
      SortedWeightsBounded(values, weights, s, true);
      PercentileOfSortedHundred(s);
      SortedLastIsMax(ps);
    }
  }

  /** The valid pairs of an upward log: values 10, 20, 30 over depths 3, 2, 1. */
  lemma UpwardPairs()
    ensures ValidPairs([Some(10.0), Some(20.0), Some(30.0)], AsSamples(Intervals([3.0, 2.0, 1.0])))
      == [(10.0, -0.5), (20.0, -1.0), (30.0, -0.5)]
  {
    var vs: seq<Sample> := [Some(10.0), Some(20.0), Some(30.0)];
    var iv := Intervals([3.0, 2.0, 1.0]);
    assert iv[0] == -0.5 && iv[1] == -1.0 && iv[2] == -0.5;
    var ws := AsSamples(iv);
    assert ws == [Some(-0.5), Some(-1.0), Some(-0.5)];
    var v2, w2 := vs[..2], ws[..2];
    var v1, w1 := v2[..1], w2[..1];
    assert ValidPairs(v1[..0], w1[..0]) == [];
    assert ValidPairs(v1, w1) == [(10.0, -0.5)];
    assert ValidPairs(v2, w2) == [(10.0, -0.5), (20.0, -1.0)];
  }

  lemma UpwardSorted()
    ensures Sorting.SortBy([(10.0, -0.5), (20.0, -1.0), (30.0, -0.5)], ByValue)
      == [(10.0, -0.5), (20.0, -1.0), (30.0, -0.5)]
  {
    var ps: seq<(real, real)> := [(10.0, -0.5), (20.0, -1.0), (30.0, -0.5)];
    assert ps[1..][1..] == [(30.0, -0.5)];
    assert Sorting.SortBy(ps[1..][1..], ByValue) == [(30.0, -0.5)];
    assert Sorting.SortBy(ps[1..], ByValue) == ps[1..];
  }

  lemma UpwardCumulative()
    ensures CumulativeWeights([(10.0, -0.5), (20.0, -1.0), (30.0, -0.5)]) == [-0.5, -1.5, -2.0]
  {
    var ps: seq<(real, real)> := [(10.0, -0.5), (20.0, -1.0), (30.0, -0.5)];
    assert ps[..1][..0] == [] && ps[..2][..1] == ps[..1] && ps[..3][..2] == ps[..2] && ps[..3] == ps;
    assert SumWeights(ps[..1]) == -0.5;
    assert SumWeights(ps[..2]) == -1.5;
    assert SumWeights(ps[..3]) == -2.0;
    var c := CumulativeWeights(ps);
    assert c[0] == -0.5 && c[1] == -1.5 && c[2] == -2.0;
  }

  /** On a log recorded upward (depth 3, 2, 1) the intervals are negative and
      the median of 10, 20, 30 is read past the last cumulative weight: 30. */
  lemma WeightedPercentileUpward()
    ensures WeightedPercentile([Some(10.0), Some(20.0), Some(30.0)], AsSamples(Intervals([3.0, 2.0, 1.0])), 50.0)
      == Some(30.0)
  {
    var ps: seq<(real, real)> := [(10.0, -0.5), (20.0, -1.0), (30.0, -0.5)];
    UpwardPairs();
    UpwardSorted();
    UpwardCumulative();
    assert PercentileTarget(50.0, -2.0) == -1.0;
    SearchLeftDescending();
    assert PercentileOfSorted(ps, 50.0) == 30.0;
  }

  /** Arithmetic mean (arithmetic_mean): NaN iff no value is valid. */
  function ArithmeticMean(values: seq<Sample>): (r: Option<real>)
    ensures r.None? <==> CountValid(values) == 0
    ensures r.Some? ==> r.value == Sum(ValidValues(values)) / (CountValid(values) as real)
  {
    var v := ValidValues(values);
    if |v| == 0 then None else Some(Sum(v) / (|v| as real))
  }

  /** Arithmetic sum (arithmetic_sum): NaN iff no value is valid. */
  function ArithmeticSum(values: seq<Sample>): (r: Option<real>)
    ensures r.None? <==> CountValid(values) == 0
    ensures r.Some? ==> r.value == Sum(ValidValues(values))
  {
    var v := ValidValues(values);
    if |v| == 0 then None else Some(Sum(v))
  }

  /** Sum of squared deviations from `m`. */
  function SumSquares(xs: seq<real>, m: real): real
  {
    if |xs| == 0 then 0.0
    else SumSquares(xs[..|xs| - 1], m) + (xs[|xs| - 1] - m) * (xs[|xs| - 1] - m)
  }

  lemma {:induction false} SumSquaresNonNegative(xs: seq<real>, m: real)
    ensures SumSquares(xs, m) >= 0.0
    decreases |xs|
  {
    if |xs| > 0 {
      SumSquaresNonNegative(xs[..|xs| - 1], m);
    }
  }

  /** Population variance (np.std with ddof 0, before the root). */
  function PopulationVariance(xs: seq<real>): (r: real)
    requires |xs| > 0
    ensures r >= 0.0
    ensures r == SumSquares(xs, Sum(xs) / (|xs| as real)) / (|xs| as real)
  {
    SumSquaresNonNegative(xs, Sum(xs) / (|xs| as real));
    SumSquares(xs, Sum(xs) / (|xs| as real)) / (|xs| as real)
  }

  /** Arithmetic variance under the root of arithmetic_std: NaN with fewer than two valid values. */
  function ArithmeticVariance(values: seq<Sample>): (r: Option<real>)
    ensures r.None? <==> CountValid(values) < 2
    ensures r.Some? ==> r.value >= 0.0
  {
    var v := ValidValues(values);
    if |v| < 2 then None else Some(PopulationVariance(v))
  }

  function UnitWeights(n: nat): (r: seq<Sample>)
    ensures |r| == n && forall i :: 0 <= i < n ==> r[i] == Some(1.0)
  {
    seq(n, i => Some(1.0))
  }

  /** Each value paired with weight 1. */
  function WithUnitWeight(xs: seq<real>): (r: seq<(real, real)>)
    ensures |r| == |xs| && forall k :: 0 <= k < |xs| ==> r[k] == (xs[k], 1.0)
  {
    seq(|xs|, k requires 0 <= k < |xs| => (xs[k], 1.0))
  }

  /** Under unit weights the valid pairs are exactly the valid values, each with weight 1. */
  lemma {:induction false} UnitWeightPairs(values: seq<Sample>)
    ensures ValidPairs(values, UnitWeights(|values|)) == WithUnitWeight(ValidValues(values))
    decreases |values|
  {
    var n := |values|;
    if n > 0 {
      assert UnitWeights(n)[..n - 1] == UnitWeights(n - 1);
      UnitWeightPairs(values[..n - 1]);
    }
  }

  lemma {:induction false} UnitWeightTotals(xs: seq<real>)
    ensures SumWeights(WithUnitWeight(xs)) == |xs| as real
    ensures SumProducts(WithUnitWeight(xs)) == Sum(xs)
    decreases |xs|
  {
    var n := |xs|;
    if n > 0 {
      assert WithUnitWeight(xs)[..n - 1] == WithUnitWeight(xs[..n - 1]);
      UnitWeightTotals(xs[..n - 1]);
    }
  }

  lemma {:induction false} UnitWeightSquares(xs: seq<real>, m: real)
    ensures SumWeightedSquares(WithUnitWeight(xs), m) == SumSquares(xs, m)
    decreases |xs|
  {
    var n := |xs|;
    if n > 0 {
      assert WithUnitWeight(xs)[..n - 1] == WithUnitWeight(xs[..n - 1]);
      UnitWeightSquares(xs[..n - 1], m);
    }
  }

  lemma UnitWeightSums(values: seq<Sample>)
    ensures |ValidPairs(values, UnitWeights(|values|))| == CountValid(values)
    ensures SumWeights(ValidPairs(values, UnitWeights(|values|))) == CountValid(values) as real
    ensures SumProducts(ValidPairs(values, UnitWeights(|values|))) == Sum(ValidValues(values))
    ensures forall m ::
      SumWeightedSquares(ValidPairs(values, UnitWeights(|values|)), m) == SumSquares(ValidValues(values), m)
  {
    UnitWeightPairs(values);
    UnitWeightTotals(ValidValues(values));
    forall m ensures SumWeightedSquares(WithUnitWeight(ValidValues(values)), m) == SumSquares(ValidValues(values), m) {
      UnitWeightSquares(ValidValues(values), m);
    }
  }

  /** The arithmetic kernels are the weighted kernels under unit weights. */
  lemma ArithmeticIsUnitWeighted(values: seq<Sample>)
    ensures WeightedMean(values, UnitWeights(|values|)) == ArithmeticMean(values)
    ensures WeightedSum(values, UnitWeights(|values|)) == ArithmeticSum(values)
    ensures WeightedVariance(values, UnitWeights(|values|)) == ArithmeticVariance(values)
  {
    UnitWeightSums(values);
  }

  /** The valid pairs of the documented NTG example. */
  lemma ExamplePairs()
    ensures ValidPairs([Some(0.0), Some(1.0), Some(0.0)], AsSamples([0.5, 2.5, 2.0]))
      == [(0.0, 0.5), (1.0, 2.5), (0.0, 2.0)]
  {
    var vs: seq<Sample> := [Some(0.0), Some(1.0), Some(0.0)];
    var ws: seq<Sample> := AsSamples([0.5, 2.5, 2.0]);
    assert ws == [Some(0.5), Some(2.5), Some(2.0)];
    var v2, w2 := vs[..2], ws[..2];
    var v1, w1 := v2[..1], w2[..1];
    assert ValidPairs(v1[..0], w1[..0]) == [];
    assert ValidPairs(v1, w1) == [(0.0, 0.5)];
    assert ValidPairs(v2, w2) == [(0.0, 0.5), (1.0, 2.5)];
  }

  /** The documented NTG example: flags 0, 1, 0 over depths 1500, 1501, 1505. */
  lemma WeightedExample()
    ensures WeightedMean([Some(0.0), Some(1.0), Some(0.0)], AsSamples([0.5, 2.5, 2.0])) == Some(0.5)
    ensures WeightedSum([Some(0.0), Some(1.0), Some(0.0)], AsSamples([0.5, 2.5, 2.0])) == Some(2.5)
  {
    ExamplePairs();
    var ps: seq<(real, real)> := [(0.0, 0.5), (1.0, 2.5), (0.0, 2.0)];
    var p2, p1 := ps[..2], ps[..1];
    assert ps[..2][..1] == p1 && p1[..0] == [];
    assert SumWeights(p1) == 0.5 && SumWeights(p2) == 3.0;
    assert SumWeights(ps) == 5.0;
    assert SumProducts(p1) == 0.0 && SumProducts(p2) == 2.5;
    assert SumProducts(ps) == 2.5;
  }

  /** The descriptive bundle of compute_all_statistics. */
  datatype AllStatistics = AllStatistics(
    weightedMean: Sample, weightedSum: Sample, weightedVariance: Sample,
    weightedP10: Sample, weightedP50: Sample, weightedP90: Sample,
    arithmeticMean: Sample, arithmeticSum: Sample, arithmeticVariance: Sample,
    count: nat, depthSamples: nat, depthThickness: real,
    min: Sample, max: Sample)

  /** Thickness of the valid samples: the sum of their intervals (0.0 when none). */
  function ValidThickness(values: seq<Sample>, depth: seq<real>): real
    requires |values| == |depth|
  {
    SumWeights(ValidPairs(values, AsSamples(Intervals(depth))))
  }

  lemma {:induction false} ValidPairsOfIntervals(values: seq<Sample>, w: seq<real>)
    requires |values| == |w|
    ensures |ValidPairs(values, AsSamples(w))| == CountValid(values)
    ensures (forall i :: 0 <= i < |values| ==> values[i].Some?) ==> SumWeights(ValidPairs(values, AsSamples(w))) == Sum(w)
    decreases |values|
  {
    var n := |values|;
    if n > 0 {
      assert AsSamples(w)[..n - 1] == AsSamples(w[..n - 1]);
      ValidPairsOfIntervals(values[..n - 1], w[..n - 1]);
      var ps := ValidPairs(values, AsSamples(w));
      if values[n - 1].Some? {
        assert ps[..|ps| - 1] == ValidPairs(values[..n - 1], AsSamples(w[..n - 1]));
      }
    }
  }

  /** compute_all_statistics: every kernel over the midpoint-rule intervals, plus
      the valid count, the sample count, the valid thickness and the range. */
  function ComputeAllStatistics(values: seq<Sample>, depth: seq<real>): (r: AllStatistics)
    requires |values| == |depth|
    ensures r.count == CountValid(values) && r.depthSamples == |values|
    ensures r.count == 0 ==> r.depthThickness == 0.0
    ensures r.count == 0 <==> r.weightedSum.None?
    ensures r.count == 0 <==> r.min.None?
    ensures r.min.None? <==> r.max.None?
    ensures r.min.Some? ==> r.min.value <= r.max.value
    ensures r.min.Some? ==> forall x :: Some(x) in values ==> r.min.value <= x <= r.max.value
    ensures r.depthThickness == ValidThickness(values, depth)
    ensures r.min == (if r.count > 0 then Some(MinOf(ValidValues(values))) else None)
    ensures r.max == (if r.count > 0 then Some(MaxOf(ValidValues(values))) else None)
    ensures r.weightedMean == WeightedMean(values, AsSamples(Intervals(depth)))
    ensures r.weightedSum == WeightedSum(values, AsSamples(Intervals(depth)))
    ensures r.weightedVariance == WeightedVariance(values, AsSamples(Intervals(depth)))
    ensures r.weightedP10 == WeightedPercentile(values, AsSamples(Intervals(depth)), 10.0)
    ensures r.weightedP50 == WeightedPercentile(values, AsSamples(Intervals(depth)), 50.0)
    ensures r.weightedP90 == WeightedPercentile(values, AsSamples(Intervals(depth)), 90.0)
    ensures r.arithmeticMean == ArithmeticMean(values)
    ensures r.arithmeticSum == ArithmeticSum(values)
    ensures r.arithmeticVariance == ArithmeticVariance(values)
  {
    var iv := AsSamples(Intervals(depth));
    var v := ValidValues(values);
    ValidPairsOfIntervals(values, Intervals(depth));
    ValidValuesMembers(values);
    AllStatistics(
      WeightedMean(values, iv), WeightedSum(values, iv), WeightedVariance(values, iv),
      WeightedPercentile(values, iv, 10.0), WeightedPercentile(values, iv, 50.0),
      WeightedPercentile(values, iv, 90.0),
      ArithmeticMean(values), ArithmeticSum(values), ArithmeticVariance(values),
      |v|, |values|, ValidThickness(values, depth),
      if |v| > 0 then Some(MinOf(v)) else None,
      if |v| > 0 then Some(MaxOf(v)) else None)
  }

  /** With no NaN and at least two samples the valid thickness is the whole logged range. */
  lemma ThicknessSpansDepthRange(values: seq<Sample>, depth: seq<real>)
    requires |values| == |depth| >= 2
    requires forall i :: 0 <= i < |values| ==> values[i].Some?
    ensures ComputeAllStatistics(values, depth).depthThickness == depth[|depth| - 1] - depth[0]
  {
    ValidPairsOfIntervals(values, Intervals(depth));
    IntervalsTelescope(depth);
  }
}
