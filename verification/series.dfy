/** Merging two depth/value series of one property (_merge_property): the
    samples are concatenated, ordered by depth, and a sample closer than the
    tolerance to the sample sorted just before it is dropped. */
module Series {
  import opened Common
  import opened Numeric
  import Sorting
  import Statistics

  type Sample = Statistics.Sample

  /** Depths closer than this to their sorted predecessor are duplicates. */
  const MergeTolerance: real := 0.000001

  datatype Series = Series(depth: seq<real>, values: seq<Sample>)

  function Zip(depth: seq<real>, values: seq<Sample>): (r: seq<(real, Sample)>)
    requires |depth| == |values|
    ensures |r| == |depth| && forall i :: 0 <= i < |depth| ==> r[i] == (depth[i], values[i])
  {
    seq(|depth|, i requires 0 <= i < |depth| => (depth[i], values[i]))
  }

  function Unzip(ps: seq<(real, Sample)>): (r: Series)
    ensures |r.depth| == |ps| && |r.values| == |ps|
    ensures forall i :: 0 <= i < |ps| ==> (r.depth[i], r.values[i]) == ps[i]
  {
    Series(seq(|ps|, i requires 0 <= i < |ps| => ps[i].0), seq(|ps|, i requires 0 <= i < |ps| => ps[i].1))
  }

  function DepthOf(p: (real, Sample)): real
  {
    p.0
  }

  /** Every depth lies more than the tolerance above the one before it. */
  ghost predicate Separated(depth: seq<real>)
  {
    forall i :: 0 < i < |depth| ==> depth[i] - depth[i - 1] > MergeTolerance
  }

  ghost predicate SeparatedPairs(ps: seq<(real, Sample)>)
  {
    forall i :: 0 < i < |ps| ==> ps[i].0 - ps[i - 1].0 > MergeTolerance
  }

  /** Each sample is at least as deep as the one before it. */
  ghost predicate AscendingPairs(s: seq<(real, Sample)>)
  {
    forall i :: 0 < i < |s| ==> s[i - 1].0 <= s[i].0
  }

  lemma SortedIsAscending(s: seq<(real, Sample)>)
    requires Sorting.SortedBy(s, DepthOf)
    ensures AscendingPairs(s)
  {
    forall i | 0 < i < |s| ensures s[i - 1].0 <= s[i].0 {
      assert DepthOf(s[i - 1]) <= DepthOf(s[i]);
    }
  }

  /** The near-duplicate filter of the merge applied to a depth-sorted
      series: the first sample is kept, and so is every sample more than the
      tolerance below its sorted predecessor. */
  function DropNearDuplicates(s: seq<(real, Sample)>): (r: seq<(real, Sample)>)
    ensures |r| <= |s|
    ensures |s| > 0 ==> |r| > 0 && r[0] == s[0]
    ensures forall x :: x in r ==> x in s
    decreases |s|
  {
    if |s| <= 1 then s
    else
      var n := |s|;
      DropNearDuplicates(s[..n - 1]) + (if s[n - 1].0 - s[n - 2].0 > MergeTolerance then [s[n - 1]] else [])
  }

  /** On an ascending series the kept samples are separated, are drawn from
      the input, and start with its first sample. */
  lemma {:induction false} DropNearDuplicatesSeparates(s: seq<(real, Sample)>)
    requires AscendingPairs(s)
    ensures |DropNearDuplicates(s)| <= |s|
    ensures SeparatedPairs(DropNearDuplicates(s))
    ensures forall x :: x in DropNearDuplicates(s) ==> x in s
    ensures |s| > 0 ==>
      && |DropNearDuplicates(s)| > 0 && DropNearDuplicates(s)[0] == s[0]
      && DropNearDuplicates(s)[|DropNearDuplicates(s)| - 1].0 <= s[|s| - 1].0
    decreases |s|
  {
    var n := |s|;
    if n > 1 {
      var p := s[..n - 1];
      assert AscendingPairs(p) by {
        forall i | 0 < i < |p| ensures p[i - 1].0 <= p[i].0 {
          assert s[i - 1].0 <= s[i].0;
        }
      }
      DropNearDuplicatesSeparates(p);
      var rest := DropNearDuplicates(p);
      var r := DropNearDuplicates(s);
      assert s[n - 2].0 <= s[n - 1].0;
      if s[n - 1].0 - s[n - 2].0 > MergeTolerance {
        assert r == rest + [s[n - 1]];
        assert SeparatedPairs(r) by {
          forall i | 0 < i < |r| ensures r[i].0 - r[i - 1].0 > MergeTolerance {
            if i < |rest| {
              assert r[i] == rest[i] && r[i - 1] == rest[i - 1];
            } else {
              assert r[i - 1] == rest[|rest| - 1];
            }
          }
        }
        forall x | x in r ensures x in s {
          if x in rest {
            assert x in p;
          }
        }
      } else {
        assert r == rest;
        forall x | x in r ensures x in s {
          assert x in p;
        }
      }
    }
  }

  /** An already separated series loses nothing. */
  lemma {:induction false} DropNearDuplicatesOfSeparated(s: seq<(real, Sample)>)
    requires SeparatedPairs(s)
    ensures AscendingPairs(s) && DropNearDuplicates(s) == s
    decreases |s|
  {
    var n := |s|;
    if n > 1 {
      var p := s[..n - 1];
      assert SeparatedPairs(p) by {
        forall i | 0 < i < |p| ensures p[i].0 - p[i - 1].0 > MergeTolerance {
          assert s[i].0 - s[i - 1].0 > MergeTolerance;
        }
      }
      DropNearDuplicatesOfSeparated(p);
      assert s[n - 1].0 - s[n - 2].0 > MergeTolerance;
      assert DropNearDuplicates(s) == p + [s[n - 1]];
      assert p + [s[n - 1]] == s;
    }
  }

  /** Sorting a series that is already in depth order leaves it as it is. */
  lemma {:induction false} SortOfSorted(s: seq<(real, Sample)>)
    requires AscendingPairs(s)
    ensures Sorting.SortBy(s, DepthOf) == s
    decreases |s|
  {
    if |s| > 0 {
      var t := s[1..];
      assert AscendingPairs(t) by {
        forall i | 0 < i < |t| ensures t[i - 1].0 <= t[i].0 {
          assert s[i].0 <= s[i + 1].0;
        }
      }
      SortOfSorted(t);
      if |t| > 0 {
        assert DepthOf(s[0]) <= DepthOf(t[0]);
      }
      assert [s[0]] + t == s;
    }
  }

  /** The data of the existing and the new property merged as _merge_property
      does: both arrays concatenated, sorted by depth, near duplicates dropped. */
  function MergeSamples(d1: seq<real>, v1: seq<Sample>, d2: seq<real>, v2: seq<Sample>): (r: Series)
    requires |d1| == |v1| && |d2| == |v2|
    ensures |r.depth| == |r.values| <= |d1| + |d2|
    ensures Separated(r.depth)
    ensures forall i :: 0 <= i < |r.depth| ==> (r.depth[i], r.values[i]) in Zip(d1 + d2, v1 + v2)
    ensures |d1| + |d2| > 0 ==> |r.depth| > 0 && r.depth[0] == MinOf(d1 + d2)
  {
    var all := Zip(d1 + d2, v1 + v2);
    var sorted := Sorting.SortBy(all, DepthOf);
    SortedHeadIsMin(d1 + d2, v1 + v2);
    Sorting.SortByMembers(all, DepthOf);
    SortedIsAscending(sorted);
    var kept := DropNearDuplicates(sorted);
    DropNearDuplicatesSeparates(sorted);
    Unzip(kept)
  }

  /** _merge_property's series: with no sample at all the mask `[True]` is one
      longer than the empty array, and indexing with it raises IndexError. */
  function MergeSeries(d1: seq<real>, v1: seq<Sample>, d2: seq<real>, v2: seq<Sample>): (r: Result<Series>)
    requires |d1| == |v1| && |d2| == |v2|
    ensures r.Err? <==> |d1| + |d2| == 0
    ensures r.Err? ==> r.error == IndexError
    ensures r.Ok? ==> r.value == MergeSamples(d1, v1, d2, v2)
  {
    if |d1| + |d2| == 0 then Err(IndexError) else Ok(MergeSamples(d1, v1, d2, v2))
  }

  /** The first sample after sorting is one of the input's, and none is shallower. */
  lemma SortHeadIsLeast(all: seq<(real, Sample)>)
    requires |all| > 0
    ensures Sorting.SortBy(all, DepthOf)[0] in all
    ensures forall x :: x in all ==> Sorting.SortBy(all, DepthOf)[0].0 <= x.0
  {
    var s := Sorting.SortBy(all, DepthOf);
    Sorting.SortByMembers(all, DepthOf);
    assert s[0] in s;
    forall x | x in all ensures s[0].0 <= x.0 {
      assert x in s;
      var j :| 0 <= j < |s| && s[j] == x;
      if j > 0 {
        assert DepthOf(s[0]) <= DepthOf(s[j]);
      }
    }
  }

  /** A sample of the zipped series whose depth bounds all others carries the minimum depth. */
  lemma LeastPairIsMin(d: seq<real>, v: seq<Sample>, h: (real, Sample))
    requires |d| == |v| && h in Zip(d, v)
    requires forall x :: x in Zip(d, v) ==> h.0 <= x.0
    ensures MinOf(d) == h.0
  {
    var all := Zip(d, v);
    var k :| 0 <= k < |all| && all[k] == h;
    assert d[k] == h.0;
    forall y | y in d ensures h.0 <= y {
      var i :| 0 <= i < |d| && d[i] == y;
      assert all[i] in all;
    }
    MinOfUnique(d, h.0);
  }

  /** After sorting, the first sample has the smallest depth. */
  lemma SortedHeadIsMin(d: seq<real>, v: seq<Sample>)
    requires |d| == |v|
    ensures |d| > 0 ==> Sorting.SortBy(Zip(d, v), DepthOf)[0].0 == MinOf(d)
  {
    var all := Zip(d, v);
    var s := Sorting.SortBy(all, DepthOf);
    if |d| > 0 {
      SortHeadIsLeast(all);
      LeastPairIsMin(d, v, s[0]);
    }
  }

  /** Merging a separated series with nothing returns it unchanged, and
      merging nothing with nothing is the IndexError. */
  lemma MergeWithNothing(d: seq<real>, v: seq<Sample>)
    requires |d| == |v| && Separated(d)
    ensures MergeSeries(d, v, [], []) == if |d| == 0 then Err(IndexError) else Ok(Series(d, v))
  {
    if |d| > 0 {
      MergeSamplesWithNothing(d, v);
    }
  }

  lemma MergeSamplesWithNothing(d: seq<real>, v: seq<Sample>)
    requires |d| == |v| && Separated(d)
    ensures MergeSamples(d, v, [], []) == Series(d, v)
  {
    assert d + [] == d && v + [] == v;
    var all := Zip(d, v);
    assert SeparatedPairs(all) by {
      forall i | 0 < i < |all| ensures all[i].0 - all[i - 1].0 > MergeTolerance {
        assert all[i].0 == d[i] && all[i - 1].0 == d[i - 1];
      }
    }
    DropNearDuplicatesOfSeparated(all);
    SortOfSorted(all);
    var r := Unzip(all);
    assert r.depth == d;
    assert r.values == v;
  }
}
