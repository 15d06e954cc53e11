/** A log property: one curve of a well on its own depth grid, with the
    discrete "secondary" curves a filter chain attached to it, and the pieces
    of its behaviour that do not need the owning well: null normalisation,
    resampling dispatch, depth alignment, label and group-key formatting and
    the flat statistics of one sample mask. */
module Properties {
  import opened Common
  import opened Numeric
  import Sorting
  import Statistics

  type Sample = Statistics.Sample

  const ContinuousKind: string := "continuous"
  const DiscreteKind: string := "discrete"

  /** Values within this distance of the null sentinel are nulls. */
  const NullTolerance: real := 0.000001

  /** The LAS default null sentinel, also the constructor's default. */
  const DefaultNull: real := -999.25

  /** `sourceLas` is the path of the LAS file the curve came from and
      `sourceName` the recorded source name; the owning well is not a field,
      operations that need it take it as an argument. */
  datatype Property = Property(
    name: string,
    originalName: string,
    depth: seq<real>,
    values: seq<Sample>,
    unit: string,
    kind: string,
    description: string,
    labels: Option<map<int, string>>,
    sourceLas: Option<string>,
    sourceName: Option<string>,
    secondaries: seq<Property>)

  /** Depth and values line up, and every secondary lives on the same depth grid. */
  ghost predicate WellFormed(p: Property)
  {
    && |p.depth| == |p.values|
    && forall k :: 0 <= k < |p.secondaries| ==>
         p.secondaries[k].depth == p.depth && |p.secondaries[k].values| == |p.depth|
  }

  // ---------------------------------------------------------------- nulls

  predicate IsNull(x: Sample, nullValue: real)
  {
    x.Some? && Abs(x.value - nullValue) < NullTolerance
  }

  /** Null normalisation of the constructor: every value within the tolerance of
      the sentinel becomes NaN, every other value is kept. */
  function Normalize(values: seq<Sample>, nullValue: real): (r: seq<Sample>)
    ensures |r| == |values|
    ensures forall i :: 0 <= i < |values| && IsNull(values[i], nullValue) ==> r[i].None?
    ensures forall i :: 0 <= i < |values| && !IsNull(values[i], nullValue) ==> r[i] == values[i]
    decreases |values|
  {
    if |values| == 0 then []
    else
      var n := |values|;
      Normalize(values[..n - 1], nullValue) + [if IsNull(values[n - 1], nullValue) then None else values[n - 1]]
  }

  /** After normalisation no value is a null any more, so normalising again changes nothing. */
  lemma NormalizeIdempotent(values: seq<Sample>, nullValue: real)
    ensures forall i :: 0 <= i < |values| ==> !IsNull(Normalize(values, nullValue)[i], nullValue)
    ensures Normalize(Normalize(values, nullValue), nullValue) == Normalize(values, nullValue)
  {
    var r := Normalize(values, nullValue);
    NormalizeWithoutNulls(r, nullValue);
  }

  /** Values with no null among them pass through unchanged. */
  lemma NormalizeWithoutNulls(values: seq<Sample>, nullValue: real)
    requires forall i :: 0 <= i < |values| ==> !IsNull(values[i], nullValue)
    ensures Normalize(values, nullValue) == values
  {
  }

  /** The Property constructor: `original_name or name`, null normalisation,
      and no secondaries. */
  function NewProperty(
    name: string, depth: seq<real>, values: seq<Sample>, unit: string, kind: string,
    description: string, nullValue: real, labels: Option<map<int, string>>,
    sourceLas: Option<string>, sourceName: Option<string>, originalName: Option<string>): (r: Property)
    ensures r.name == name && r.depth == depth && r.unit == unit && r.kind == kind
    ensures r.description == description && r.labels == labels
    ensures r.sourceLas == sourceLas && r.sourceName == sourceName
    ensures r.values == Normalize(values, nullValue) && r.secondaries == []
    ensures originalName.Some? && originalName.value != "" ==> r.originalName == originalName.value
    ensures originalName.None? || originalName.value == "" ==> r.originalName == name
    ensures |depth| == |values| ==> WellFormed(r)
  {
    Property(
      name, if originalName.Some? && originalName.value != "" then originalName.value else name,
      depth, Normalize(values, nullValue), unit, kind, description, labels, sourceLas, sourceName, [])
  }

  /** The `source` accessor: the recorded source name when it is non-empty,
      otherwise the LAS path, otherwise nothing. */
  function Source(p: Property): (r: Option<string>)
    ensures r.None? ==> p.sourceLas.None?
    ensures r.Some? ==> r == p.sourceName || r == p.sourceLas
    ensures r.Some? && r != p.sourceLas ==> r.value != ""
    ensures p.sourceName.Some? && p.sourceName.value != "" ==> r == p.sourceName
  {
    if p.sourceName.Some? && p.sourceName.value != "" then p.sourceName else p.sourceLas
  }

  // ----------------------------------------------------------- resampling

  datatype Method = Linear | Nearest

  /** Continuous curves interpolate linearly, every other kind by nearest neighbour. */
  function MethodFor(kind: string): Method
  {
    if kind == ContinuousKind then Linear else Nearest
  }

  /** The interpolation library, left uninterpreted: whether an interpolator
      can be built from the valid (depth, value) points with a method, and
      its value at a depth (NaN outside the points' range). */
  datatype Kernel = Kernel(
    builds: (seq<(real, real)>, Method) -> bool,
    eval: (seq<(real, real)>, Method, real) -> Sample)

  /** The (depth, value) points where the value is not NaN, in order. */
  function ValidSeries(depth: seq<real>, values: seq<Sample>): (r: seq<(real, real)>)
    requires |depth| == |values|
    ensures |r| == Statistics.CountValid(values)
    decreases |values|
  {
    if |values| == 0 then []
    else
      var n := |values|;
      var rest := ValidSeries(depth[..n - 1], values[..n - 1]);
      if values[n - 1].Some? then rest + [(depth[n - 1], values[n - 1].value)] else rest
  }

  /** _resample_to_grid: all NaN in gives all NaN out; a single valid point is
      always resampled by nearest neighbour; otherwise the requested method is
      used. A kernel that cannot be built is a DepthAlignmentError. A success
      always has one value per point of the new grid. */
  function ResampleToGrid(
    kernel: Kernel, oldDepth: seq<real>, oldValues: seq<Sample>, newDepth: seq<real>, requested: Method
  ): (r: Result<seq<Sample>>)
    requires |oldDepth| == |oldValues|
    ensures r.Ok? ==> |r.value| == |newDepth|
    ensures r.Err? ==> r.error == DepthAlignmentError
    ensures Statistics.CountValid(oldValues) == 0 ==> r.Ok? && forall i :: 0 <= i < |newDepth| ==> r.value[i].None?
    ensures Statistics.CountValid(oldValues) == 1 ==>
      (r.Ok? <==> kernel.builds(ValidSeries(oldDepth, oldValues), Nearest))
    ensures Statistics.CountValid(oldValues) == 1 && r.Ok? ==> forall i :: 0 <= i < |newDepth| ==>
      r.value[i] == kernel.eval(ValidSeries(oldDepth, oldValues), Nearest, newDepth[i])
    ensures Statistics.CountValid(oldValues) >= 2 ==>
      (r.Ok? <==> kernel.builds(ValidSeries(oldDepth, oldValues), requested))
    ensures Statistics.CountValid(oldValues) >= 2 && r.Ok? ==> forall i :: 0 <= i < |newDepth| ==>
      r.value[i] == kernel.eval(ValidSeries(oldDepth, oldValues), requested, newDepth[i])
  {
    var pts := ValidSeries(oldDepth, oldValues);
    if |pts| == 0 then Ok(seq(|newDepth|, i => None))
    else
      var m := if |pts| == 1 then Nearest else requested;
      if !kernel.builds(pts, m) then Err(DepthAlignmentError)
      else Ok(seq(|newDepth|, i requires 0 <= i < |newDepth| => kernel.eval(pts, m, newDepth[i])))
  }

  /** With a single valid point the requested method does not matter. */
  lemma ResampleSinglePoint(
    kernel: Kernel, oldDepth: seq<real>, oldValues: seq<Sample>, newDepth: seq<real>, m1: Method, m2: Method)
    requires |oldDepth| == |oldValues| && Statistics.CountValid(oldValues) == 1
    ensures ResampleToGrid(kernel, oldDepth, oldValues, newDepth, m1)
         == ResampleToGrid(kernel, oldDepth, oldValues, newDepth, m2)
  {
  }

  // ------------------------------------------------------------ alignment

  /** np.diff: the successive differences. */
  function Diffs(s: seq<real>): (r: seq<real>)
    requires |s| > 0
    ensures |r| == |s| - 1 && forall i :: 0 <= i < |r| ==> r[i] == s[i + 1] - s[i]
  {
    seq(|s| - 1, i requires 0 <= i < |s| - 1 => s[i + 1] - s[i])
  }

  function Identity(x: real): real
  {
    x
  }

  /** np.median: the middle element of the sorted values, or the mean of the two middle ones. */
  function Median(s: seq<real>): (r: real)
    requires |s| > 0
    ensures MinOf(s) <= r <= MaxOf(s)
  {
    var t := Sorting.SortBy(s, Identity);
    var n := |t|;
    Sorting.SortByMembers(s, Identity);
    assert t[n / 2] in s;
    if n % 2 == 1 then t[n / 2]
    else
      assert t[n / 2 - 1] in s;
      (t[n / 2 - 1] + t[n / 2]) / 2.0
  }

  /** The typical sampling step of a depth grid: the median spacing, 0.1 for a single sample. */
  function StepOf(depth: seq<real>): (r: real)
    ensures |depth| <= 1 ==> r == 0.1
    ensures |depth| > 1 ==> MinOf(Diffs(depth)) <= r <= MaxOf(Diffs(depth))
  {
    if |depth| > 1 then Median(Diffs(depth)) else 0.1
  }

  /** Two ascending orderings of the same values are the same sequence. */
  lemma {:induction false} SortedUnique(a: seq<real>, b: seq<real>)
    requires Sorting.SortedBy(a, Identity) && Sorting.SortedBy(b, Identity) && multiset(a) == multiset(b)
    ensures a == b
    decreases |a|
  {
    assert |a| == |multiset(a)| == |multiset(b)| == |b|;
    if |a| > 0 {
      SortedHeadsEqual(a, b);
      var a1, b1 := a[1..], b[1..];
      assert a == [a[0]] + a1 && b == [b[0]] + b1;
      assert multiset(a) == multiset{a[0]} + multiset(a1);
      assert multiset(b) == multiset{b[0]} + multiset(b1);
      assert multiset(a1) == multiset(a) - multiset{a[0]};
      assert multiset(b1) == multiset(b) - multiset{b[0]};
      SortedTail(a);
      SortedTail(b);
      SortedUnique(a1, b1);
    }
  }

  lemma SortedHeadsEqual(a: seq<real>, b: seq<real>)
    requires |a| > 0 && |b| > 0
    requires Sorting.SortedBy(a, Identity) && Sorting.SortedBy(b, Identity) && multiset(a) == multiset(b)
    ensures a[0] == b[0]
  {
    assert a[0] in multiset(b) && b[0] in multiset(a);
    var i :| 0 <= i < |b| && b[i] == a[0];
    var j :| 0 <= j < |a| && a[j] == b[0];
    if i > 0 {
      assert Identity(b[0]) <= Identity(b[i]);
    }
    if j > 0 {
      assert Identity(a[0]) <= Identity(a[j]);
    }
  }

  lemma SortedTail(a: seq<real>)
    requires |a| > 0 && Sorting.SortedBy(a, Identity)
    ensures Sorting.SortedBy(a[1..], Identity)
  {
    var a1 := a[1..];
    forall x, y | 0 <= x < y < |a1| ensures Identity(a1[x]) <= Identity(a1[y]) {
      assert a1[x] == a[x + 1] && a1[y] == a[y + 1];
    }
  }

  /** The median is read off any ascending ordering of the values: the middle
      one for an odd count, the mean of the two middle ones for an even count. */
  lemma MedianOfSorted(s: seq<real>, t: seq<real>)
    requires |s| > 0 && multiset(t) == multiset(s) && Sorting.SortedBy(t, Identity)
    ensures |t| == |s|
    ensures Median(s) == if |s| % 2 == 1 then t[|s| / 2] else (t[|s| / 2 - 1] + t[|s| / 2]) / 2.0
  {
    assert |t| == |multiset(t)| == |multiset(s)| == |s|;
    SortedUnique(Sorting.SortBy(s, Identity), t);
  }

  /** The step of a grid of two or more depths is the median of its spacings,
      read off their ascending ordering. */
  lemma StepOfSorted(depth: seq<real>, t: seq<real>)
    requires |depth| > 1 && multiset(t) == multiset(Diffs(depth)) && Sorting.SortedBy(t, Identity)
    ensures |t| == |depth| - 1
    ensures StepOf(depth) == if |t| % 2 == 1 then t[|t| / 2] else (t[|t| / 2 - 1] + t[|t| / 2]) / 2.0
  {
    MedianOfSorted(Diffs(depth), t);
  }

  /** A strictly ascending grid has a positive step. */
  lemma StepOfPositive(depth: seq<real>)
    requires Statistics.StrictlyAscending(depth)
    ensures StepOf(depth) > 0.0
  {
    if |depth| > 1 {
      var d := Diffs(depth);
      assert d[0] == depth[1] - depth[0];
      var i :| 0 <= i < |d| && d[i] == MinOf(d);
      assert depth[i] < depth[i + 1];
    }
  }

  /** The finer of two grids' steps. */
  function CommonStep(a: seq<real>, b: seq<real>): (r: real)
    ensures r <= StepOf(a) && r <= StepOf(b)
    ensures r == StepOf(a) || r == StepOf(b)
  {
    if StepOf(a) <= StepOf(b) then StepOf(a) else StepOf(b)
  }

  lemma CommonStepPositive(a: seq<real>, b: seq<real>)
    requires Statistics.StrictlyAscending(a) && Statistics.StrictlyAscending(b)
    ensures CommonStep(a, b) > 0.0
  {
    StepOfPositive(a);
    StepOfPositive(b);
  }

  /** Shared depth range of two non-empty grids: the larger minimum and the smaller maximum. */
  function OverlapLow(a: seq<real>, b: seq<real>): real
    requires |a| > 0 && |b| > 0
  {
    if MinOf(a) >= MinOf(b) then MinOf(a) else MinOf(b)
  }

  function OverlapHigh(a: seq<real>, b: seq<real>): real
    requires |a| > 0 && |b| > 0
  {
    if MaxOf(a) <= MaxOf(b) then MaxOf(a) else MaxOf(b)
  }

  /** Every depth of the shared range lies within both grids' ranges. */
  lemma OverlapWithinBoth(a: seq<real>, b: seq<real>, x: real)
    requires |a| > 0 && |b| > 0 && OverlapLow(a, b) <= x <= OverlapHigh(a, b)
    ensures MinOf(a) <= x <= MaxOf(a) && MinOf(b) <= x <= MaxOf(b)
  {
  }

  datatype Aligned = Aligned(depth: seq<real>, selfValues: seq<Sample>, otherValues: seq<Sample>)

  /** Both resamplings onto a common grid: the receiver by its own kind, the other by nearest neighbour. */
  function ResampleBoth(p: Property, other: Property, kernel: Kernel, grid: seq<real>): (r: Result<Aligned>)
    requires |p.depth| == |p.values| && |other.depth| == |other.values|
    ensures r.Ok? ==> r.value.depth == grid
    ensures r.Ok? ==> |r.value.selfValues| == |grid| && |r.value.otherValues| == |grid|
    ensures r.Ok? <==>
      ResampleToGrid(kernel, p.depth, p.values, grid, MethodFor(p.kind)).Ok? &&
      ResampleToGrid(kernel, other.depth, other.values, grid, Nearest).Ok?
    ensures r.Ok? ==>
      ResampleToGrid(kernel, p.depth, p.values, grid, MethodFor(p.kind)) == Ok(r.value.selfValues)
    ensures r.Ok? ==>
      ResampleToGrid(kernel, other.depth, other.values, grid, Nearest) == Ok(r.value.otherValues)
    ensures r.Err? ==> r.error == DepthAlignmentError
  {
    var rs := ResampleToGrid(kernel, p.depth, p.values, grid, MethodFor(p.kind));
    if rs.Err? then Err(rs.error)
    else
      var ro := ResampleToGrid(kernel, other.depth, other.values, grid, Nearest);
      if ro.Err? then Err(ro.error)
      else Ok(Aligned(grid, rs.value, ro.value))
  }

  /** The grid _align_depths builds: the overlap at the finer step, by the grid
      constructor `arange` (np.arange). */
  function AlignedGrid(a: seq<real>, b: seq<real>, arange: (real, real, real) -> seq<real>): seq<real>
    requires |a| > 0 && |b| > 0
  {
    var step := CommonStep(a, b);
    arange(OverlapLow(a, b), OverlapHigh(a, b) + step / 2.0, step)
  }

  /** When the constructor is numpy's arange, the aligned grid of two strictly
      ascending grids with a shared range starts at the range's low end, ends
      within half a step of its high end, and strictly ascends. */
  lemma AlignedGridSpan(a: seq<real>, b: seq<real>, arange: (real, real, real) -> seq<real>)
    requires Statistics.StrictlyAscending(a) && Statistics.StrictlyAscending(b) && |a| > 0 && |b| > 0
    requires OverlapLow(a, b) <= OverlapHigh(a, b)
    requires CommonStep(a, b) > 0.0 ==>
      arange(OverlapLow(a, b), OverlapHigh(a, b) + CommonStep(a, b) / 2.0, CommonStep(a, b))
        == Arange(OverlapLow(a, b), OverlapHigh(a, b) + CommonStep(a, b) / 2.0, CommonStep(a, b))
    ensures var g := AlignedGrid(a, b, arange);
      && |g| > 0 && g[0] == OverlapLow(a, b)
      && OverlapHigh(a, b) - CommonStep(a, b) / 2.0 <= g[|g| - 1] < OverlapHigh(a, b) + CommonStep(a, b) / 2.0
      && Statistics.StrictlyAscending(g)
  {
    var lo, hi, st := OverlapLow(a, b), OverlapHigh(a, b), CommonStep(a, b);
    CommonStepPositive(a, b);
    assert AlignedGrid(a, b, arange) == Arange(lo, hi + st / 2.0, st);
    ArangeHalfStep(lo, hi, st);
  }

  /** _align_depths: two grids without a shared range of positive length are a
      DepthAlignmentError; otherwise both properties are resampled onto the
      common grid. An empty grid fails like numpy's min of an empty array. */
  function AlignDepths(p: Property, other: Property, kernel: Kernel, arange: (real, real, real) -> seq<real>): (r: Result<Aligned>)
    requires |p.depth| == |p.values| && |other.depth| == |other.values|
    ensures |p.depth| == 0 || |other.depth| == 0 ==> r == Err(ValueError([]))
    ensures |p.depth| > 0 && |other.depth| > 0 && OverlapLow(p.depth, other.depth) >= OverlapHigh(p.depth, other.depth)
      ==> r == Err(DepthAlignmentError)
    ensures r.Ok? ==> |p.depth| > 0 && |other.depth| > 0
    ensures r.Ok? ==> OverlapLow(p.depth, other.depth) < OverlapHigh(p.depth, other.depth)
    ensures r.Ok? ==> r == ResampleBoth(p, other, kernel, AlignedGrid(p.depth, other.depth, arange))
    ensures r.Err? && |p.depth| > 0 && |other.depth| > 0 ==> r.error == DepthAlignmentError
  {
    if |p.depth| == 0 || |other.depth| == 0 then Err(ValueError([]))
    else if OverlapLow(p.depth, other.depth) >= OverlapHigh(p.depth, other.depth) then Err(DepthAlignmentError)
    else ResampleBoth(p, other, kernel, AlignedGrid(p.depth, other.depth, arange))
  }

  // ------------------------------------------------------- labels and keys

  /** One cell of an exported column: a number, NaN, a label, or an unlabelled integer code. */
  datatype Cell = Number(x: real) | Missing | Label(text: string) | Code(code: int)

  function NumberCells(values: seq<Sample>): (r: seq<Cell>)
    ensures |r| == |values|
    ensures forall i :: 0 <= i < |values| ==> (r[i].Missing? <==> values[i].None?)
    ensures forall i :: 0 <= i < |values| && values[i].Some? ==> r[i] == Number(values[i].value)
  {
    seq(|values|, i requires 0 <= i < |values| => if values[i].Some? then Number(values[i].value) else Missing)
  }

  function LabelCell(labels: map<int, string>, x: Sample): Cell
  {
    if x.None? then Missing
    else if Trunc(x.value) in labels then Label(labels[Trunc(x.value)])
    else Code(Trunc(x.value))
  }

  /** `cell` is how code `c` is shown: its label if it has one, the code itself otherwise. */
  predicate ShowsCode(labels: map<int, string>, cell: Cell, c: int)
  {
    if c in labels then cell == Label(labels[c]) else cell == Code(c)
  }

  /** _apply_labels: without a mapping the values are returned as they are;
      with one NaN stays NaN and every other value becomes the label of its
      truncated integer code, or that code when it has no label. */
  function ApplyLabels(labels: Option<map<int, string>>, values: seq<Sample>): (r: seq<Cell>)
    ensures |r| == |values|
    ensures labels.None? ==> r == NumberCells(values)
    ensures labels.Some? ==> forall i :: 0 <= i < |values| ==> (r[i].Missing? <==> values[i].None?)
    ensures labels.Some? ==> forall i :: 0 <= i < |values| ==> !r[i].Number?
    ensures labels.Some? ==> forall i :: 0 <= i < |values| && values[i].Some? ==>
      ShowsCode(labels.value, r[i], Trunc(values[i].value))
  {
    if labels.None? then NumberCells(values)
    else seq(|values|, i requires 0 <= i < |values| => LabelCell(labels.value, values[i]))
  }

  /** Distinct codes carry distinct labels. */
  ghost predicate Injective(labels: map<int, string>)
  {
    forall a, b :: a in labels && b in labels && a != b ==> labels[a] != labels[b]
  }

  /** With an injective mapping every labelled cell still determines its code:
      the cell shows code `c` exactly when `c` is the truncated value. */
  lemma ApplyLabelsRecoversCodes(labels: map<int, string>, values: seq<Sample>, i: int, c: int)
    requires Injective(labels) && 0 <= i < |values| && values[i].Some?
    ensures ShowsCode(labels, ApplyLabels(Some(labels), values)[i], c) <==> c == Trunc(values[i].value)
  {
    var t := Trunc(values[i].value);
    var cell := ApplyLabels(Some(labels), values)[i];
    assert cell == LabelCell(labels, values[i]);
    if ShowsCode(labels, cell, c) && c != t {
      if c in labels {
        assert t in labels && labels[t] == labels[c];
      }
    }
  }

  /** The group key of one distinct filter value: its label when the value is
      integral and labelled, otherwise the filter name joined with the integer
      or, for a fractional value, with the two-decimal rendering `format2`. */
  function GroupKey(name: string, labels: Option<map<int, string>>, v: real, format2: real -> string): (r: string)
    ensures labels.Some? && IsIntegral(v) && Trunc(v) in labels.value ==> r == labels.value[Trunc(v)]
    ensures !(labels.Some? && IsIntegral(v) && Trunc(v) in labels.value) ==>
      |r| > |name| && r[..|name| + 1] == name + "_"
    ensures !IsIntegral(v) ==> r == name + "_" + format2(v)
  {
    if labels.Some? && IsIntegral(v) && Trunc(v) in labels.value then labels.value[Trunc(v)]
    else if IsIntegral(v) then name + "_" + IntToString(Trunc(v))
    else name + "_" + format2(v)
  }

  /** An unlabelled integral value can be read back from its key. */
  lemma GroupKeyRoundTrip(name: string, labels: Option<map<int, string>>, v: real, format2: real -> string)
    requires IsIntegral(v) && (labels.None? || Trunc(v) !in labels.value)
    ensures |GroupKey(name, labels, v, format2)| > |name| + 1
    ensures GroupKey(name, labels, v, format2)[..|name| + 1] == name + "_"
    ensures ParseInt(GroupKey(name, labels, v, format2)[|name| + 1..]) as real == v
  {
    var key := GroupKey(name, labels, v, format2);
    assert key == name + "_" + IntToString(Trunc(v));
    assert key[|name| + 1..] == IntToString(Trunc(v));
    ParseIntToString(Trunc(v));
  }

  /** Distinct unlabelled integral values get distinct keys. */
  lemma GroupKeysDistinct(name: string, labels: Option<map<int, string>>, v: real, w: real, format2: real -> string)
    requires IsIntegral(v) && (labels.None? || Trunc(v) !in labels.value)
    requires IsIntegral(w) && (labels.None? || Trunc(w) !in labels.value)
    requires v != w
    ensures GroupKey(name, labels, v, format2) != GroupKey(name, labels, w, format2)
  {
    GroupKeyRoundTrip(name, labels, v, format2);
    GroupKeyRoundTrip(name, labels, w, format2);
  }

  // ----------------------------------------------------------- flat stats

  /** Number of true entries of a mask. */
  function TrueCount(mask: seq<bool>): nat
  {
    if |mask| == 0 then 0 else TrueCount(mask[..|mask| - 1]) + (if mask[|mask| - 1] then 1 else 0)
  }

  /** Boolean indexing `xs[mask]`: the entries at the true positions, in order. */
  function Select<T>(xs: seq<T>, mask: seq<bool>): (r: seq<T>)
    requires |xs| == |mask|
    ensures |r| == TrueCount(mask)
    decreases |xs|
  {
    if |xs| == 0 then []
    else
      var n := |xs|;
      Select(xs[..n - 1], mask[..n - 1]) + (if mask[n - 1] then [xs[n - 1]] else [])
  }

  /** Selected entries are exactly the entries at true positions. */
  lemma {:induction false} SelectMembers<T>(xs: seq<T>, mask: seq<bool>, y: T)
    requires |xs| == |mask|
    ensures y in Select(xs, mask) <==> exists i :: 0 <= i < |xs| && mask[i] && xs[i] == y
    decreases |xs|
  {
    var n := |xs|;
    if n > 0 {
      SelectMembers(xs[..n - 1], mask[..n - 1], y);
      if y in Select(xs, mask) && !(y in Select(xs[..n - 1], mask[..n - 1])) {
        assert mask[n - 1] && xs[n - 1] == y;
      }
      if exists i :: 0 <= i < n && mask[i] && xs[i] == y {
        var i :| 0 <= i < n && mask[i] && xs[i] == y;
        if i < n - 1 {
          assert mask[..n - 1][i] && xs[..n - 1][i] == y;
        }
      }
    }
  }

  /** Position of the first true entry. */
  function FirstTrue(mask: seq<bool>): (i: nat)
    requires TrueCount(mask) > 0
    ensures i < |mask| && mask[i] && forall j :: 0 <= j < i ==> !mask[j]
  {
    TrueCountPositive(mask);
    if mask[0] then 0
    else
      TrueCountOfTail(mask);
      1 + FirstTrue(mask[1..])
  }

  /** Position of the last true entry. */
  function LastTrue(mask: seq<bool>): (i: nat)
    requires TrueCount(mask) > 0
    ensures i < |mask| && mask[i] && forall j :: i < j < |mask| ==> !mask[j]
    decreases |mask|
  {
    if mask[|mask| - 1] then |mask| - 1 else LastTrue(mask[..|mask| - 1])
  }

  lemma {:induction false} TrueCountPositive(mask: seq<bool>)
    requires TrueCount(mask) > 0
    ensures |mask| > 0
  {
  }

  /** Dropping a false head keeps the count. */
  lemma {:induction false} TrueCountOfTail(mask: seq<bool>)
    requires |mask| > 0 && !mask[0]
    ensures TrueCount(mask[1..]) == TrueCount(mask)
    decreases |mask|
  {
    var n := |mask|;
    if n > 1 {
      assert mask[1..][..n - 2] == mask[..n - 1][1..];
      TrueCountOfTail(mask[..n - 1]);
    }
  }

  /** The last selected entry is the entry at the last true position. */
  lemma {:induction false} SelectLast<T>(xs: seq<T>, mask: seq<bool>)
    requires |xs| == |mask| && TrueCount(mask) > 0
    ensures Select(xs, mask)[TrueCount(mask) - 1] == xs[LastTrue(mask)]
    decreases |xs|
  {
    var n := |xs|;
    if !mask[n - 1] {
      SelectLast(xs[..n - 1], mask[..n - 1]);
    }
  }

  /** The first selected entry is the entry at the first true position. */
  lemma {:induction false} SelectFirst<T>(xs: seq<T>, mask: seq<bool>)
    requires |xs| == |mask| && TrueCount(mask) > 0
    ensures Select(xs, mask)[0] == xs[FirstTrue(mask)]
    decreases |xs|
  {
    var n := |xs|;
    if TrueCount(mask[..n - 1]) > 0 {
      SelectFirst(xs[..n - 1], mask[..n - 1]);
      FirstTrueOfPrefix(mask);
    } else {
      assert mask[n - 1];
      NoTrueBefore(mask[..n - 1]);
    }
  }

  /** A mask with no true entry is all false. */
  lemma {:induction false} NoTrueBefore(mask: seq<bool>)
    requires TrueCount(mask) == 0
    ensures forall j :: 0 <= j < |mask| ==> !mask[j]
    decreases |mask|
  {
    if |mask| > 0 {
      NoTrueBefore(mask[..|mask| - 1]);
      assert forall j :: 0 <= j < |mask| - 1 ==> mask[..|mask| - 1][j] == mask[j];
    }
  }

  /** A prefix that already holds a true entry has the same first true position. */
  lemma FirstTrueOfPrefix(mask: seq<bool>)
    requires |mask| > 0 && TrueCount(mask[..|mask| - 1]) > 0
    ensures TrueCount(mask) > 0 && FirstTrue(mask) == FirstTrue(mask[..|mask| - 1])
  {
    var p := mask[..|mask| - 1];
    var i := FirstTrue(p);
    assert p[i] == mask[i];
    assert forall j :: 0 <= j < i ==> p[j] == mask[j];
    FirstTrueUnique(mask, i);
  }

  lemma FirstTrueUnique(mask: seq<bool>, i: nat)
    requires i < |mask| && mask[i] && forall j :: 0 <= j < i ==> !mask[j]
    ensures TrueCount(mask) > 0 && FirstTrue(mask) == i
  {
    TrueCountAtLeastOne(mask, i);
    var f := FirstTrue(mask);
    assert !(f < i) && !(i < f);
  }

  lemma {:induction false} TrueCountAtLeastOne(mask: seq<bool>, i: nat)
    requires i < |mask| && mask[i]
    ensures TrueCount(mask) > 0
    decreases |mask|
  {
    if i < |mask| - 1 {
      TrueCountAtLeastOne(mask[..|mask| - 1], i);
    }
  }

  /** The flat statistics of one mask (`std` is kept as the population variance). */
  datatype FlatStats = FlatStats(
    mean: Sample, sum: Sample, count: nat, depthSamples: nat, depthThickness: real,
    min: Sample, max: Sample, variance: Sample)

  /** n copies of x added up. */
  function Repeat(n: nat, x: real): real
  {
    if n == 0 then 0.0 else Repeat(n - 1, x) + x
  }

  lemma {:induction false} RepeatIsProduct(n: nat, x: real)
    ensures Repeat(n, x) == (n as real) * x
  {
    if n > 0 {
      RepeatIsProduct(n - 1, x);
    }
  }

  /** Values within [lo, hi] sum to between n copies of lo and n copies of hi. */
  lemma {:induction false} SumBounds(xs: seq<real>, lo: real, hi: real)
    requires forall i :: 0 <= i < |xs| ==> lo <= xs[i] <= hi
    ensures Repeat(|xs|, lo) <= Sum(xs) <= Repeat(|xs|, hi)
    decreases |xs|
  {
    if |xs| > 0 {
      var n := |xs|;
      assert forall i :: 0 <= i < n - 1 ==> xs[..n - 1][i] == xs[i];
      SumBounds(xs[..n - 1], lo, hi);
    }
  }

  lemma QuotientBounds(s: real, n: real, lo: real, hi: real)
    requires n > 0.0 && n * lo <= s <= n * hi
    ensures lo <= s / n <= hi
  {
  }

  /** The mean of values within [lo, hi] is within [lo, hi]. */
  lemma MeanBetween(xs: seq<real>, lo: real, hi: real)
    requires |xs| > 0 && forall i :: 0 <= i < |xs| ==> lo <= xs[i] <= hi
    ensures lo <= Sum(xs) / (|xs| as real) <= hi
  {
    SumBounds(xs, lo, hi);
    RepeatIsProduct(|xs|, lo);
    RepeatIsProduct(|xs|, hi);
    QuotientBounds(Sum(xs), |xs| as real, lo, hi);
  }

  lemma MeanWithinRange(xs: seq<real>)
    requires |xs| > 0
    ensures MinOf(xs) <= Sum(xs) / (|xs| as real) <= MaxOf(xs)
  {
    var lo, hi := MinOf(xs), MaxOf(xs);
    assert forall i :: 0 <= i < |xs| ==> lo <= xs[i] <= hi by {
      forall i | 0 <= i < |xs| ensures lo <= xs[i] <= hi {
        assert xs[i] in xs;
      }
    }
    MeanBetween(xs, lo, hi);
  }

  /** Thickness of a masked grid: last minus first masked depth when two or more are masked. */
  function MaskedThickness(depth: seq<real>, mask: seq<bool>): (r: real)
    requires |depth| == |mask|
    ensures TrueCount(mask) >= 2 ==> r == depth[LastTrue(mask)] - depth[FirstTrue(mask)]
    ensures TrueCount(mask) < 2 ==> r == 0.0
  {
    var d := Select(depth, mask);
    if |d| > 1 then
      SelectFirst(depth, mask);
      SelectLast(depth, mask);
      d[|d| - 1] - d[0]
    else 0.0
  }

  /** _compute_stats: arithmetic statistics of the non-NaN values under the
      mask, the number of masked samples, and the masked depth span. */
  function ComputeStats(p: Property, mask: seq<bool>): (r: FlatStats)
    requires |p.depth| == |p.values| == |mask|
    ensures r.count == Statistics.CountValid(Select(p.values, mask))
    ensures r.depthSamples == TrueCount(mask)
    ensures r.depthThickness == MaskedThickness(p.depth, mask)
    ensures r.count == 0 <==> r.mean.None?
    ensures r.count == 0 <==> r.sum.None?
    ensures r.count == 0 <==> r.min.None?
    ensures r.count == 0 <==> r.max.None?
    ensures r.count == 0 <==> r.variance.None?
    ensures r.mean.Some? ==> r.min.value <= r.mean.value <= r.max.value
    ensures r.sum.Some? ==> r.sum.value == Sum(Statistics.ValidValues(Select(p.values, mask)))
    ensures r.variance.Some? ==> r.variance.value >= 0.0
    ensures r.count <= r.depthSamples
    ensures r.mean == Statistics.ArithmeticMean(Select(p.values, mask))
    ensures r.sum == Statistics.ArithmeticSum(Select(p.values, mask))
    ensures r.count > 0 ==> r.min == Some(MinOf(Statistics.ValidValues(Select(p.values, mask))))
    ensures r.count > 0 ==> r.max == Some(MaxOf(Statistics.ValidValues(Select(p.values, mask))))
    ensures r.count > 0 ==> r.variance == Some(Statistics.PopulationVariance(Statistics.ValidValues(Select(p.values, mask))))
  {
    var values := Select(p.values, mask);
    var valid := Statistics.ValidValues(values);
    var n := |valid|;
    if n == 0 then
      FlatStats(None, None, 0, TrueCount(mask), MaskedThickness(p.depth, mask), None, None, None)
    else
      MeanWithinRange(valid);
      FlatStats(
        Statistics.ArithmeticMean(values), Statistics.ArithmeticSum(values), n, TrueCount(mask),
        MaskedThickness(p.depth, mask), Some(MinOf(valid)), Some(MaxOf(valid)),
        Some(Statistics.PopulationVariance(valid)))
  }

  /** On an ascending grid the masked thickness is never negative. */
  lemma ThicknessNonNegative(p: Property, mask: seq<bool>)
    requires |p.depth| == |p.values| == |mask|
    requires Statistics.Ascending(p.depth)
    ensures ComputeStats(p, mask).depthThickness >= 0.0
  {
    if TrueCount(mask) >= 2 {
      AscendingOrder(p.depth, FirstTrue(mask), LastTrue(mask));
    }
  }

  lemma {:induction false} AscendingOrder(depth: seq<real>, i: nat, j: nat)
    requires Statistics.Ascending(depth) && i <= j < |depth|
    ensures depth[i] <= depth[j]
    decreases j - i
  {
    if i < j {
      AscendingOrder(depth, i, j - 1);
    }
  }
}
