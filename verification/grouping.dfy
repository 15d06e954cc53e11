/** Hierarchical statistics of a filtered property (sums_avg): the samples
    are partitioned by the distinct values of each secondary in turn, and
    every group at the bottom gets the flat statistics of its mask. */
module Grouping {
  import opened Common
  import Sorting
  import Statistics
  import opened Properties

  /** A statistics tree: flat statistics, or groups keyed by their display key. */
  datatype Node = Leaf(stats: FlatStats) | Branch(children: map<string, Node>)

  function AllTrue(n: nat): (r: seq<bool>)
    ensures |r| == n && forall i :: 0 <= i < n ==> r[i]
  {
    seq(n, i => true)
  }

  /** The positions under `mask` where the filter holds `v`; NaN never equals a value. */
  function SubMask(mask: seq<bool>, filter: seq<Sample>, v: real): (r: seq<bool>)
    requires |mask| == |filter|
    ensures |r| == |mask|
    ensures forall i :: 0 <= i < |mask| ==> (r[i] <==> mask[i] && filter[i] == Some(v))
  {
    seq(|mask|, i requires 0 <= i < |mask| => mask[i] && filter[i] == Some(v))
  }

  /** Value `v` of the filter occurs at some masked position. */
  ghost predicate OccursUnder(filter: seq<Sample>, mask: seq<bool>, v: real)
    requires |filter| == |mask|
  {
    exists i :: 0 <= i < |mask| && mask[i] && filter[i] == Some(v)
  }

  /** np.unique of the non-NaN filter values under the mask: ascending, each once. */
  function UniqueValues(filter: seq<Sample>, mask: seq<bool>): (r: seq<real>)
    requires |filter| == |mask|
    ensures Sorting.StrictlySorted(r, Sorting.RealLess)
    ensures forall v :: v in r <==> OccursUnder(filter, mask, v)
  {
    var selected := Select(filter, mask);
    var valid := Statistics.ValidValues(selected);
    Sorting.RealLessIsStrictTotal();
    Statistics.ValidValuesMembers(selected);
    forall v ensures v in valid <==> OccursUnder(filter, mask, v) {
      SelectMembers(filter, mask, Some(v));
    }
    Sorting.SortedDistinct(valid, Sorting.RealLess)
  }

  /** The groups of one level are disjoint, and together they are exactly the
      masked positions where the filter is not NaN. */
  lemma GroupPartition(filter: seq<Sample>, mask: seq<bool>)
    requires |filter| == |mask|
    ensures forall a, b, i :: 0 <= a < b < |UniqueValues(filter, mask)| && 0 <= i < |mask| ==>
      !(SubMask(mask, filter, UniqueValues(filter, mask)[a])[i] && SubMask(mask, filter, UniqueValues(filter, mask)[b])[i])
    ensures forall i :: 0 <= i < |mask| ==>
      (mask[i] && filter[i].Some? <==>
        exists a :: 0 <= a < |UniqueValues(filter, mask)| && SubMask(mask, filter, UniqueValues(filter, mask)[a])[i])
  {
    var vals := UniqueValues(filter, mask);
    Sorting.RealLessIsStrictTotal();
    Sorting.StrictlySortedDistinct(vals, Sorting.RealLess);
    forall i | 0 <= i < |mask| && mask[i] && filter[i].Some?
      ensures exists a :: 0 <= a < |vals| && SubMask(mask, filter, vals[a])[i]
    {
      var v := filter[i].value;
      assert OccursUnder(filter, mask, v);
      assert v in vals;
      var a :| 0 <= a < |vals| && vals[a] == v;
      assert SubMask(mask, filter, vals[a])[i];
    }
  }

  /** The dict built by assigning each key its value in turn, starting empty:
      a repeated key keeps its last value. */
  function Assemble<V>(keys: seq<string>, vs: seq<V>): (m: map<string, V>)
    requires |keys| == |vs|
    ensures forall key :: key in m <==> key in keys
    decreases |keys|
  {
    if |keys| == 0 then map[]
    else
      var n := |keys|;
      Assemble(keys[..n - 1], vs[..n - 1])[keys[n - 1] := vs[n - 1]]
  }

  /** Each entry comes from some position of the inputs. */
  lemma {:induction false} AssembleFrom<V>(keys: seq<string>, vs: seq<V>, key: string) returns (j: nat)
    requires |keys| == |vs| && key in Assemble(keys, vs)
    ensures j < |keys| && keys[j] == key && Assemble(keys, vs)[key] == vs[j]
    decreases |keys|
  {
    var n := |keys|;
    if keys[n - 1] == key {
      j := n - 1;
    } else {
      var init, front := keys[..n - 1], vs[..n - 1];
      j := AssembleFrom(init, front, key);
      assert keys[j] == init[j] && vs[j] == front[j];
    }
  }

  /** A key that does not occur again later maps to the value at its position. */
  lemma {:induction false} AssembleAt<V>(keys: seq<string>, vs: seq<V>, j: nat)
    requires |keys| == |vs| && j < |keys|
    requires forall t :: j < t < |keys| ==> keys[t] != keys[j]
    ensures keys[j] in Assemble(keys, vs) && Assemble(keys, vs)[keys[j]] == vs[j]
    decreases |keys|
  {
    var n := |keys|;
    if j < n - 1 {
      var init, front := keys[..n - 1], vs[..n - 1];
      forall t | j < t < n - 1 ensures init[t] != init[j] {
        assert init[t] == keys[t];
      }
      AssembleAt(init, front, j);
      assert init[j] == keys[j] && front[j] == vs[j];
      assert keys[n - 1] != keys[j];
    }
  }

  /** The display keys of one level's distinct values. */
  function LevelKeys(f: Property, vals: seq<real>, format2: real -> string): (r: seq<string>)
    ensures |r| == |vals| && forall j :: 0 <= j < |vals| ==> r[j] == GroupKey(f.name, f.labels, vals[j], format2)
  {
    seq(|vals|, j requires 0 <= j < |vals| => GroupKey(f.name, f.labels, vals[j], format2))
  }

  /** _recursive_group at level `idx`: past the last secondary, or when the
      current secondary has no valid value under the mask, the flat statistics
      of the mask; otherwise one group per distinct value, in ascending order,
      each grouped further on its sub-mask (a later value whose key collides
      with an earlier one replaces it). */
  function RecursiveGroup(p: Property, idx: nat, mask: seq<bool>, format2: real -> string): (r: Node)
    requires WellFormed(p) && idx <= |p.secondaries| && |mask| == |p.depth|
    ensures idx == |p.secondaries| ==> r == Leaf(ComputeStats(p, mask))
    ensures idx < |p.secondaries| ==>
      (r.Leaf? <==> |UniqueValues(p.secondaries[idx].values, mask)| == 0)
    ensures r.Leaf? ==> r == Leaf(ComputeStats(p, mask))
    ensures r.Branch? ==> forall key :: key in r.children <==>
      key in LevelKeys(p.secondaries[idx], UniqueValues(p.secondaries[idx].values, mask), format2)
    decreases |p.secondaries| - idx
  {
    if idx == |p.secondaries| then Leaf(ComputeStats(p, mask))
    else
      var f := p.secondaries[idx];
      var vals := UniqueValues(f.values, mask);
      if |vals| == 0 then Leaf(ComputeStats(p, mask))
      else
        var kids := seq(|vals|, j requires 0 <= j < |vals| =>
          RecursiveGroup(p, idx + 1, SubMask(mask, f.values, vals[j]), format2));
        Branch(Assemble(LevelKeys(f, vals, format2), kids))
  }

  /** The child under a distinct value's key is the grouping of that value's
      sub-mask at the next level, unless a larger value has the same key. */
  lemma ChildOfValue(p: Property, idx: nat, mask: seq<bool>, j: nat, format2: real -> string)
    requires WellFormed(p) && idx < |p.secondaries| && |mask| == |p.depth|
    requires j < |UniqueValues(p.secondaries[idx].values, mask)|
    requires forall t :: j < t < |UniqueValues(p.secondaries[idx].values, mask)| ==>
      LevelKeys(p.secondaries[idx], UniqueValues(p.secondaries[idx].values, mask), format2)[t]
        != LevelKeys(p.secondaries[idx], UniqueValues(p.secondaries[idx].values, mask), format2)[j]
    ensures RecursiveGroup(p, idx, mask, format2).Branch?
    ensures GroupKey(p.secondaries[idx].name, p.secondaries[idx].labels,
        UniqueValues(p.secondaries[idx].values, mask)[j], format2) in RecursiveGroup(p, idx, mask, format2).children
    ensures RecursiveGroup(p, idx, mask, format2).children[GroupKey(p.secondaries[idx].name, p.secondaries[idx].labels,
        UniqueValues(p.secondaries[idx].values, mask)[j], format2)]
      == RecursiveGroup(p, idx + 1, SubMask(mask, p.secondaries[idx].values, UniqueValues(p.secondaries[idx].values, mask)[j]), format2)
  {
    var f := p.secondaries[idx];
    var vals := UniqueValues(f.values, mask);
    var kids := seq(|vals|, t requires 0 <= t < |vals| =>
      RecursiveGroup(p, idx + 1, SubMask(mask, f.values, vals[t]), format2));
    assert RecursiveGroup(p, idx, mask, format2) == Branch(Assemble(LevelKeys(f, vals, format2), kids));
    AssembleAt(LevelKeys(f, vals, format2), kids, j);
  }

  /** A tree whose branches nest at most `d` levels deep. */
  ghost predicate DepthAtMost(n: Node, d: nat)
    decreases d
  {
    match n
    case Leaf(_) => true
    case Branch(children) => d > 0 && forall key :: key in children ==> DepthAtMost(children[key], d - 1)
  }

  /** Every child of a branch is the grouping, one level down, of the
      sub-mask of one of the level's distinct values. */
  lemma ChildIsSubgroup(p: Property, idx: nat, mask: seq<bool>, format2: real -> string, key: string) returns (v: real)
    requires WellFormed(p) && idx <= |p.secondaries| && |mask| == |p.depth|
    requires RecursiveGroup(p, idx, mask, format2).Branch? && key in RecursiveGroup(p, idx, mask, format2).children
    ensures idx < |p.secondaries| && v in UniqueValues(p.secondaries[idx].values, mask)
    ensures key == GroupKey(p.secondaries[idx].name, p.secondaries[idx].labels, v, format2)
    ensures RecursiveGroup(p, idx, mask, format2).children[key] ==
      RecursiveGroup(p, idx + 1, SubMask(mask, p.secondaries[idx].values, v), format2)
  {
    var f := p.secondaries[idx];
    var vals := UniqueValues(f.values, mask);
    var kids := seq(|vals|, t requires 0 <= t < |vals| =>
      RecursiveGroup(p, idx + 1, SubMask(mask, f.values, vals[t]), format2));
    var keys := LevelKeys(f, vals, format2);
    assert RecursiveGroup(p, idx, mask, format2) == Branch(Assemble(keys, kids));
    var j := AssembleFrom(keys, kids, key);
    v := vals[j];
  }

  /** The tree never nests deeper than the number of secondaries left. */
  lemma {:induction false} GroupDepth(p: Property, idx: nat, mask: seq<bool>, format2: real -> string, d: nat)
    requires WellFormed(p) && idx <= |p.secondaries| && |mask| == |p.depth|
    requires |p.secondaries| - idx <= d
    ensures DepthAtMost(RecursiveGroup(p, idx, mask, format2), d)
    decreases |p.secondaries| - idx, 1
  {
    var r := RecursiveGroup(p, idx, mask, format2);
    if r.Branch? {
      assert idx < |p.secondaries|;
      forall key | key in r.children ensures DepthAtMost(r.children[key], d - 1) {
        ChildDepth(p, idx, mask, format2, key, d - 1);
      }
    }
  }

  /** So does every child of a branch, one level down. */
  lemma {:induction false} ChildDepth(p: Property, idx: nat, mask: seq<bool>, format2: real -> string, key: string, d: nat)
    requires WellFormed(p) && idx < |p.secondaries| && |mask| == |p.depth|
    requires |p.secondaries| - idx - 1 <= d
    requires RecursiveGroup(p, idx, mask, format2).Branch? && key in RecursiveGroup(p, idx, mask, format2).children
    ensures DepthAtMost(RecursiveGroup(p, idx, mask, format2).children[key], d)
    decreases |p.secondaries| - idx, 0
  {
    var v := ChildIsSubgroup(p, idx, mask, format2, key);
    var sub := SubMask(mask, p.secondaries[idx].values, v);
    GroupDepth(p, idx + 1, sub, format2, d);
    assert RecursiveGroup(p, idx, mask, format2).children[key] == RecursiveGroup(p, idx + 1, sub, format2);
  }

  /** sums_avg: the flat statistics of every sample when there is no
      secondary, the grouped tree over every sample otherwise. */
  function SumsAvg(p: Property, format2: real -> string): (r: Node)
    requires WellFormed(p)
    ensures |p.secondaries| == 0 ==> r == Leaf(ComputeStats(p, AllTrue(|p.depth|)))
  {
    if |p.secondaries| == 0 then Leaf(ComputeStats(p, AllTrue(|p.depth|)))
    else RecursiveGroup(p, 0, AllTrue(|p.depth|), format2)
  }

  /** The special case for no secondaries is what the grouping gives anyway, so
      the result nests at most one level per secondary. */
  lemma SumsAvgIsGrouping(p: Property, format2: real -> string)
    requires WellFormed(p)
    ensures SumsAvg(p, format2) == RecursiveGroup(p, 0, AllTrue(|p.depth|), format2)
    ensures DepthAtMost(SumsAvg(p, format2), |p.secondaries|)
  {
    GroupDepth(p, 0, AllTrue(|p.depth|), format2, |p.secondaries|);
  }

  /** The node reached by following one key per level from `n`. */
  function Lookup(n: Node, path: seq<string>): Option<Node>
    decreases |path|
  {
    if |path| == 0 then Some(n)
    else match n
      case Leaf(_) => None
      case Branch(children) => if path[0] in children then Lookup(children[path[0]], path[1..]) else None
  }

  /** The samples under `mask` where the secondaries from level `idx` on hold
      the values `vs`, one per level. */
  function PathMask(p: Property, idx: nat, mask: seq<bool>, vs: seq<real>): (r: seq<bool>)
    requires WellFormed(p) && idx + |vs| <= |p.secondaries| && |mask| == |p.depth|
    ensures |r| == |mask|
    decreases |vs|
  {
    if |vs| == 0 then mask
    else PathMask(p, idx + 1, SubMask(mask, p.secondaries[idx].values, vs[0]), vs[1..])
  }

  /** A sample is under the path's mask exactly when it is under `mask` and
      every secondary on the path holds its value there. */
  lemma {:induction false} PathMaskAt(p: Property, idx: nat, mask: seq<bool>, vs: seq<real>, i: nat)
    requires WellFormed(p) && idx + |vs| <= |p.secondaries| && |mask| == |p.depth| && i < |mask|
    ensures PathMask(p, idx, mask, vs)[i] <==>
      mask[i] && forall t :: 0 <= t < |vs| ==> p.secondaries[idx + t].values[i] == Some(vs[t])
    decreases |vs|
  {
    if |vs| > 0 {
      var sub := SubMask(mask, p.secondaries[idx].values, vs[0]);
      PathMaskAt(p, idx + 1, sub, vs[1..], i);
      assert forall t :: 0 < t < |vs| ==> vs[t] == vs[1..][t - 1];
    }
  }

  /** A group at the bottom of the tree, reached through one key per level,
      holds the flat statistics, and so the arithmetic mean, of the samples
      where each secondary on the way holds the value its key shows. */
  lemma {:induction false} LeafOfPath(p: Property, idx: nat, mask: seq<bool>, format2: real -> string, path: seq<string>)
    returns (vs: seq<real>)
    requires WellFormed(p) && idx <= |p.secondaries| && |mask| == |p.depth|
    requires Lookup(RecursiveGroup(p, idx, mask, format2), path).Some?
    requires Lookup(RecursiveGroup(p, idx, mask, format2), path).value.Leaf?
    ensures |vs| == |path| && idx + |vs| <= |p.secondaries|
    ensures KeysShow(p, idx, path, vs, format2)
    ensures Lookup(RecursiveGroup(p, idx, mask, format2), path).value == Leaf(ComputeStats(p, PathMask(p, idx, mask, vs)))
    decreases |path|
  {
    if |path| == 0 {
      vs := [];
    } else {
      var v := ChildLookup(p, idx, mask, format2, path);
      var sub := SubMask(mask, p.secondaries[idx].values, v);
      var rest := LeafOfPath(p, idx + 1, sub, format2, path[1..]);
      vs := [v] + rest;
      PathMaskCons(p, idx, mask, v, rest);
      KeysCons(p, idx, path, v, rest, format2);
    }
  }

  /** So the group's mean is the arithmetic mean of the property over
      exactly those samples. */
  lemma LeafMean(p: Property, idx: nat, mask: seq<bool>, format2: real -> string, path: seq<string>)
    returns (vs: seq<real>)
    requires WellFormed(p) && idx <= |p.secondaries| && |mask| == |p.depth|
    requires Lookup(RecursiveGroup(p, idx, mask, format2), path).Some?
    requires Lookup(RecursiveGroup(p, idx, mask, format2), path).value.Leaf?
    ensures idx + |vs| <= |p.secondaries| && KeysShow(p, idx, path, vs, format2)
    ensures Lookup(RecursiveGroup(p, idx, mask, format2), path).value.stats.mean
      == Statistics.ArithmeticMean(Select(p.values, PathMask(p, idx, mask, vs)))
  {
    vs := LeafOfPath(p, idx, mask, format2, path);
  }

  /** Each key of `path` is the key its level shows for the value of `vs` at
      the same place. */
  ghost predicate KeysShow(p: Property, idx: nat, path: seq<string>, vs: seq<real>, format2: real -> string)
    requires idx + |vs| <= |p.secondaries|
  {
    |path| == |vs| &&
    forall t :: 0 <= t < |vs| ==>
      path[t] == GroupKey(p.secondaries[idx + t].name, p.secondaries[idx + t].labels, vs[t], format2)
  }

  lemma KeysCons(p: Property, idx: nat, path: seq<string>, v: real, rest: seq<real>, format2: real -> string)
    requires idx + 1 + |rest| <= |p.secondaries| && |path| > 0
    requires path[0] == GroupKey(p.secondaries[idx].name, p.secondaries[idx].labels, v, format2)
    requires KeysShow(p, idx + 1, path[1..], rest, format2)
    ensures KeysShow(p, idx, path, [v] + rest, format2)
  {
    var vs := [v] + rest;
    forall t | 0 < t < |vs|
      ensures path[t] == GroupKey(p.secondaries[idx + t].name, p.secondaries[idx + t].labels, vs[t], format2)
    {
      assert vs[t] == rest[t - 1] && path[t] == path[1..][t - 1];
    }
  }

  /** Following a path's first key leads to the grouping, one level down, of
      the sub-mask of the value that key shows. */
  lemma ChildLookup(p: Property, idx: nat, mask: seq<bool>, format2: real -> string, path: seq<string>) returns (v: real)
    requires WellFormed(p) && idx <= |p.secondaries| && |mask| == |p.depth| && |path| > 0
    requires Lookup(RecursiveGroup(p, idx, mask, format2), path).Some?
    ensures idx < |p.secondaries|
    ensures path[0] == GroupKey(p.secondaries[idx].name, p.secondaries[idx].labels, v, format2)
    ensures Lookup(RecursiveGroup(p, idx, mask, format2), path)
      == Lookup(RecursiveGroup(p, idx + 1, SubMask(mask, p.secondaries[idx].values, v), format2), path[1..])
  {
    var n := RecursiveGroup(p, idx, mask, format2);
    v := ChildIsSubgroup(p, idx, mask, format2, path[0]);
    LookupBranch(n, path);
  }

  lemma LookupBranch(n: Node, path: seq<string>)
    requires |path| > 0 && n.Branch? && path[0] in n.children
    ensures Lookup(n, path) == Lookup(n.children[path[0]], path[1..])
  {
  }

  lemma PathMaskCons(p: Property, idx: nat, mask: seq<bool>, v: real, rest: seq<real>)
    requires WellFormed(p) && idx + 1 + |rest| <= |p.secondaries| && |mask| == |p.depth|
    ensures PathMask(p, idx, mask, [v] + rest) == PathMask(p, idx + 1, SubMask(mask, p.secondaries[idx].values, v), rest)
  {
    assert ([v] + rest)[1..] == rest;
  }
}
