/** A well: its properties keyed by sanitized name, the LAS sources it was
    loaded from, and the operations on it — lookup, filtering a property by a
    discrete one of the same well, loading and merging curves, resampling and
    the DataFrame export. */
module Wells {
  import opened Common
  import opened Numeric
  import Statistics
  import opened Dicts
  import opened Properties
  import Series

  // --------------------------------------------------------------- records

  /** One curve of a parsed LAS file: `data` is the column the loader finds
      for it, or None when there is no such column. */
  datatype Curve = Curve(
    name: string,
    alias: Option<string>,
    unit: string,
    kind: string,
    description: string,
    data: Option<seq<Sample>>)

  /** A parsed LAS file: header well name, file path, the depth column (None
      when the file has none), its depth values, the curves in header order,
      the null sentinel, and the discrete curves with their label tables. */
  datatype LasTable = LasTable(
    wellName: string,
    path: string,
    depthColumn: Option<string>,
    depth: seq<real>,
    curves: seq<Curve>,
    nullValue: real,
    discrete: set<string>,
    discreteLabels: map<string, map<int, string>>)

  /** All columns of the data table have the length of the depth column. */
  ghost predicate Rectangular(las: LasTable)
  {
    forall i :: 0 <= i < |las.curves| && las.curves[i].data.Some? ==> |las.curves[i].data.value| == |las.depth|
  }

  /** `props` maps sanitized names to properties in insertion order;
      `originalNames` maps them back to the names they were loaded under;
      `lasSources` holds the path of every LAS file loaded, in order;
      `externalCount` counts the DataFrames added. */
  datatype Well = Well(
    name: string,
    sanitizedName: string,
    props: Dict<Property>,
    originalNames: map<string, string>,
    lasSources: seq<string>,
    externalCount: nat,
    depthGrid: Option<seq<real>>)

  /** A property as a well stores it under key `k`: named `k`, depth and
      values lined up, no secondaries. */
  ghost predicate Stored(p: Property, k: string)
  {
    |p.depth| == |p.values| && p.secondaries == [] && p.name == k
  }

  /** A stored property is well formed. */
  lemma StoredWellFormed(p: Property, k: string)
    requires Stored(p, k)
    ensures WellFormed(p)
  {
  }

  /** Every property is stored under its own name and has a recorded original name. */
  ghost predicate WellValid(w: Well)
  {
    && Valid(w.props)
    && forall k :: k in w.props.entries ==> Stored(w.props.entries[k], k) && k in w.originalNames
  }

  /** A freshly constructed well: its two names, no properties, no sources. */
  function NewWell(name: string, sanitizedName: string): (w: Well)
    ensures WellValid(w) && w.name == name && w.sanitizedName == sanitizedName
    ensures |w.props.keys| == 0 && |w.lasSources| == 0 && w.externalCount == 0 && w.depthGrid.None?
  {
    Well(name, sanitizedName, Empty(), map[], [], 0, None)
  }

  /** A mutation that may raise part-way: the well as it is when it stops,
      and the error raised, if any. */
  datatype Step = Step(well: Well, error: Option<Error>)

  /** The `properties` accessor: the sanitized names in insertion order. */
  function PropertyNames(w: Well): (r: seq<string>)
    requires WellValid(w)
    ensures Distinct(r) && forall k :: k in r <==> k in w.props.entries
  {
    w.props.keys
  }

  // ---------------------------------------------------------------- lookup

  /** get_property: the name as given, then its sanitized form. */
  function GetProperty(w: Well, name: string, sanitize: string -> string): (r: Result<Property>)
    ensures r.Ok? <==> name in w.props.entries || sanitize(name) in w.props.entries
    ensures name in w.props.entries ==> r == Ok(w.props.entries[name])
    ensures name !in w.props.entries && sanitize(name) in w.props.entries ==> r == Ok(w.props.entries[sanitize(name)])
    ensures r.Err? ==> r.error == PropertyNotFoundError
  {
    if name in w.props.entries then Ok(w.props.entries[name])
    else if sanitize(name) in w.props.entries then Ok(w.props.entries[sanitize(name)])
    else Err(PropertyNotFoundError)
  }

  /** Every stored property is found under its own name, whatever the sanitizer. */
  lemma GetPropertyByName(w: Well, k: string, sanitize: string -> string)
    requires WellValid(w) && k in w.props.entries
    ensures GetProperty(w, k, sanitize).Ok? && GetProperty(w, k, sanitize).value.name == k
  {
  }

  // ------------------------------------------------------------- filtering

  /** The secondary that filter() appends: the discrete property's metadata on
      the receiver's depth grid with the interpolated values. */
  function SecondaryAsWritten(d: Property, depth: seq<real>, values: seq<Sample>): (r: Property)
    ensures r.depth == depth && r.values == Normalize(values, DefaultNull)
    ensures r.name == d.name && r.kind == d.kind && r.labels == d.labels && r.secondaries == []
  {
    NewProperty(d.name, depth, values, d.unit, d.kind, d.description, DefaultNull,
      d.labels, d.sourceLas, d.sourceName, Some(d.originalName))
  }

  /** filter() as written: the receiver and the new secondary are both rebuilt
      through the constructor with the default null sentinel, so their values
      are normalised again against -999.25. */
  function FilterAsWritten(p: Property, owner: Option<Well>, name: string, sanitize: string -> string, kernel: Kernel): (r: Result<Property>)
    requires WellFormed(p) && (owner.Some? ==> WellValid(owner.value))
    ensures owner.None? ==> r == Err(PropertyNotFoundError)
    ensures r.Ok? ==> r.value.values == Normalize(p.values, DefaultNull)
    ensures r.Ok? ==> |r.value.secondaries| == |p.secondaries| + 1
  {
    if owner.None? then Err(PropertyNotFoundError)
    else
      var found := GetProperty(owner.value, name, sanitize);
      if found.Err? then Err(PropertyNotFoundError)
      else if found.value.kind != DiscreteKind then Err(PropertyTypeError)
      else
        var d := found.value;
        var interpolated := ResampleToGrid(kernel, d.depth, d.values, p.depth, Nearest);
        if interpolated.Err? then Err(interpolated.error)
        else
          var sec := SecondaryAsWritten(d, p.depth, interpolated.value);
          var q := NewProperty(p.name, p.depth, p.values, p.unit, p.kind, p.description, DefaultNull,
            p.labels, p.sourceLas, p.sourceName, Some(p.originalName));
          Ok(q.(secondaries := p.secondaries + [sec]))
  }

  /** The secondary filter() is meant to append: the interpolated values kept as they are. */
  function Secondary(d: Property, depth: seq<real>, values: seq<Sample>): (r: Property)
    ensures r.depth == depth && r.values == values
    ensures r.name == d.name && r.kind == d.kind && r.labels == d.labels && r.secondaries == []
    ensures r == SecondaryAsWritten(d, depth, values).(values := values)
  {
    SecondaryAsWritten(d, depth, values).(values := values)
  }

  /** The tail of filter() once the discrete property `d` is found: its values
      interpolated by nearest neighbour onto the receiver's depth grid are
      appended as a secondary; depth and values of the receiver are kept. */
  function AddFilter(p: Property, d: Property, kernel: Kernel): (r: Result<Property>)
    requires WellFormed(p) && |d.depth| == |d.values| && d.kind == DiscreteKind
    ensures r.Err? ==> r.error == DepthAlignmentError
    ensures r.Ok? <==> ResampleToGrid(kernel, d.depth, d.values, p.depth, Nearest).Ok?
    ensures r.Ok? ==> WellFormed(r.value)
    ensures r.Ok? ==> r.value.name == p.name && r.value.depth == p.depth && r.value.values == p.values
    ensures r.Ok? ==> r.value.kind == p.kind && r.value.labels == p.labels && Source(r.value) == Source(p)
    ensures r.Ok? ==> |r.value.secondaries| == |p.secondaries| + 1
    ensures r.Ok? ==> r.value.secondaries[..|p.secondaries|] == p.secondaries
    ensures r.Ok? ==> r.value.secondaries[|p.secondaries|].name == d.name
    ensures r.Ok? ==> r.value.secondaries[|p.secondaries|].kind == DiscreteKind
    ensures r.Ok? ==>
      ResampleToGrid(kernel, d.depth, d.values, p.depth, Nearest) == Ok(r.value.secondaries[|p.secondaries|].values)
  {
    var interpolated := ResampleToGrid(kernel, d.depth, d.values, p.depth, Nearest);
    if interpolated.Err? then Err(interpolated.error)
    else
      var sec := Secondary(d, p.depth, interpolated.value);
      var q := NewProperty(p.name, p.depth, p.values, p.unit, p.kind, p.description, DefaultNull,
        p.labels, p.sourceLas, p.sourceName, Some(p.originalName));
      var r := q.(values := p.values, secondaries := p.secondaries + [sec]);
      assert r.secondaries[..|p.secondaries|] == p.secondaries;
      Ok(r)
  }

  /** filter(): without an owning well, or when the well has no property
      `name`, PropertyNotFoundError; a property that is not discrete is a
      PropertyTypeError; otherwise the found property is added as a filter. */
  function Filter(p: Property, owner: Option<Well>, name: string, sanitize: string -> string, kernel: Kernel): (r: Result<Property>)
    requires WellFormed(p) && (owner.Some? ==> WellValid(owner.value))
    ensures owner.None? ==> r == Err(PropertyNotFoundError)
    ensures owner.Some? && GetProperty(owner.value, name, sanitize).Err? ==> r == Err(PropertyNotFoundError)
    ensures owner.Some? && GetProperty(owner.value, name, sanitize).Ok? ==>
      var d := GetProperty(owner.value, name, sanitize).value;
      && |d.depth| == |d.values|
      && (d.kind != DiscreteKind ==> r == Err(PropertyTypeError))
      && (d.kind == DiscreteKind ==> r == AddFilter(p, d, kernel))
    ensures r.Err? ==> r.error in {PropertyNotFoundError, PropertyTypeError, DepthAlignmentError}
  {
    if owner.None? then Err(PropertyNotFoundError)
    else
      var found := GetProperty(owner.value, name, sanitize);
      if found.Err? then Err(PropertyNotFoundError)
      else if found.value.kind != DiscreteKind then Err(PropertyTypeError)
      else
        assert WellFormed(found.value);
        AddFilter(p, found.value, kernel)
  }

  /** Where no value of the receiver or of the interpolated filter lies within
      the tolerance of -999.25, the code as written and the intended one agree. */
  lemma FilterAgreesWithoutSentinel(p: Property, w: Well, name: string, sanitize: string -> string, kernel: Kernel)
    requires WellFormed(p) && WellValid(w)
    requires forall i :: 0 <= i < |p.values| ==> !IsNull(p.values[i], DefaultNull)
    requires GetProperty(w, name, sanitize).Ok? ==>
      var d := GetProperty(w, name, sanitize).value;
      var t := ResampleToGrid(kernel, d.depth, d.values, p.depth, Nearest);
      t.Ok? ==> forall i :: 0 <= i < |t.value| ==> !IsNull(t.value[i], DefaultNull)
    ensures FilterAsWritten(p, Some(w), name, sanitize, kernel) == Filter(p, Some(w), name, sanitize, kernel)
  {
    var found := GetProperty(w, name, sanitize);
    if found.Ok? && found.value.kind == DiscreteKind {
      var d := found.value;
      assert WellFormed(d);
      var t := ResampleToGrid(kernel, d.depth, d.values, p.depth, Nearest);
      if t.Ok? {
        NormalizeWithoutNulls(p.values, DefaultNull);
        NormalizeWithoutNulls(t.value, DefaultNull);
      }
    }
  }

  /** A well holding one discrete property "Zone" with one sample. */
  function ZoneWell(): (w: Well)
    ensures WellValid(w) && "Zone" in w.props.entries
    ensures w.props.entries["Zone"].kind == DiscreteKind
    ensures w.props.entries["Zone"].depth == [1.0] && w.props.entries["Zone"].values == [Some(1.0)]
  {
    var zone := NewProperty("Zone", [1.0], [Some(1.0)], "", DiscreteKind, "", DefaultNull, None, None, None, None);
    assert !IsNull(Some(1.0), DefaultNull);
    Well("W", "W", Dict(["Zone"], map["Zone" := zone]), map["Zone" := "Zone"], [], 0, None)
  }

  /** A porosity read from a file whose null sentinel is -9999: its one
      sample, exactly -999.25, is a real value. */
  function SentinelPorosity(): (p: Property)
    ensures WellFormed(p) && p.depth == [1.0] && p.values == [Some(-999.25)]
  {
    assert !IsNull(Some(-999.25), -9999.0);
    NewProperty("PHIE", [1.0], [Some(-999.25)], "v/v", ContinuousKind, "", -9999.0, None, None, None, None)
  }

  /** filter() as written turns that porosity of exactly -999.25 into NaN;
      the intended filter keeps it. */
  lemma FilterAsWrittenLosesValue(sanitize: string -> string)
    ensures
      var kernel := Kernel((pts, m) => true, (pts, m, x) => Some(1.0));
      && FilterAsWritten(SentinelPorosity(), Some(ZoneWell()), "Zone", sanitize, kernel).Ok?
      && FilterAsWritten(SentinelPorosity(), Some(ZoneWell()), "Zone", sanitize, kernel).value.values == [None]
      && Filter(SentinelPorosity(), Some(ZoneWell()), "Zone", sanitize, kernel).Ok?
      && Filter(SentinelPorosity(), Some(ZoneWell()), "Zone", sanitize, kernel).value.values == [Some(-999.25)]
  {
    var p := SentinelPorosity();
    var zone := ZoneWell().props.entries["Zone"];
    var kernel := Kernel((pts, m) => true, (pts, m, x) => Some(1.0));
    assert Statistics.CountValid(zone.values) == 1;
    assert ResampleToGrid(kernel, zone.depth, zone.values, p.depth, Nearest).Ok?;
    assert IsNull(Some(-999.25), DefaultNull);
    assert Normalize(p.values, DefaultNull) == [None];
  }

  // --------------------------------------------------------------- loading

  /** `alias or curve_name`. */
  function PropName(c: Curve): string
  {
    if c.alias.Some? && c.alias.value != "" then c.alias.value else c.name
  }

  /** The curve is loaded: it is not the depth curve and its column exists. */
  predicate Loadable(las: LasTable, c: Curve)
    requires las.depthColumn.Some?
  {
    c.name != las.depthColumn.value && c.data.Some?
  }

  /** A curve named in the file's discrete set is discrete, any other keeps its header type. */
  function CurveKind(las: LasTable, c: Curve): (r: string)
    ensures PropName(c) in las.discrete ==> r == DiscreteKind
    ensures PropName(c) !in las.discrete ==> r == c.kind
  {
    if PropName(c) in las.discrete then DiscreteKind else c.kind
  }

  /** Labels are looked up for discrete curves only. */
  function CurveLabels(las: LasTable, c: Curve): (r: Option<map<int, string>>)
    ensures r.Some? ==> PropName(c) in las.discrete && PropName(c) in las.discreteLabels
  {
    if PropName(c) in las.discrete && PropName(c) in las.discreteLabels then Some(las.discreteLabels[PropName(c)]) else None
  }

  /** The property the loader builds for a curve. */
  function CurveProperty(las: LasTable, c: Curve, sanitize: string -> string): (r: Property)
    requires c.data.Some? && |c.data.value| == |las.depth|
    ensures WellFormed(r) && r.secondaries == [] && r.name == sanitize(PropName(c))
    ensures r.depth == las.depth && r.values == Normalize(c.data.value, las.nullValue)
    ensures r.kind == CurveKind(las, c) && r.originalName == (if PropName(c) != "" then PropName(c) else r.name)
    ensures Source(r) == Some(las.path)
  {
    NewProperty(sanitize(PropName(c)), las.depth, c.data.value, c.unit, CurveKind(las, c), c.description,
      las.nullValue, CurveLabels(las, c), Some(las.path), Some(las.path), Some(PropName(c)))
  }

  /** _merge_property: the stored property takes the merged depth/value
      series; two properties without samples are numpy's IndexError, raised
      before the stored property changes. */
  function MergeProperty(existing: Property, incoming: Property): (r: Result<Property>)
    requires WellFormed(existing) && existing.secondaries == [] && WellFormed(incoming)
    ensures r.Err? <==> |existing.depth| + |incoming.depth| == 0
    ensures r.Err? ==> r.error == IndexError
    ensures r.Ok? ==> WellFormed(r.value) && r.value.secondaries == []
    ensures r.Ok? ==> r.value == existing.(depth := r.value.depth, values := r.value.values)
    ensures r.Ok? ==> Series.Separated(r.value.depth)
    ensures r.Ok? ==> |r.value.depth| <= |existing.depth| + |incoming.depth|
    ensures r.Ok? ==> forall i :: 0 <= i < |r.value.depth| ==>
      (r.value.depth[i], r.value.values[i]) in Series.Zip(existing.depth + incoming.depth, existing.values + incoming.values)
  {
    var m := Series.MergeSeries(existing.depth, existing.values, incoming.depth, incoming.values);
    if m.Err? then Err(m.error) else Ok(existing.(depth := m.value.depth, values := m.value.values))
  }

  /** Storing a property under its own name in the well's property dict. */
  function StoreProperty(w: Well, k: string, p: Property, originalNames: map<string, string>): (r: Well)
    requires WellValid(w) && Stored(p, k) && k in originalNames
    requires forall j :: j in w.originalNames ==> j in originalNames
    ensures WellValid(r) && r == w.(props := r.props, originalNames := originalNames)
    ensures r.props == Put(w.props, k, p)
  {
    w.(props := Put(w.props, k, p), originalNames := originalNames)
  }

  /** One pass of the loader's curve loop: a new name is stored with its
      original name recorded; a name already present is merged into the
      stored property, and the merge of two empty series raises. */
  function LoadCurve(w: Well, las: LasTable, c: Curve, sanitize: string -> string): (r: Step)
    requires WellValid(w) && las.depthColumn.Some?
    requires c.data.Some? ==> |c.data.value| == |las.depth|
    ensures WellValid(r.well)
    ensures r.well == w.(props := r.well.props, originalNames := r.well.originalNames)
    ensures |w.props.keys| <= |r.well.props.keys| && r.well.props.keys[..|w.props.keys|] == w.props.keys
    ensures !Loadable(las, c) ==> r == Step(w, None)
    ensures r.error.Some? <==>
      && Loadable(las, c) && sanitize(PropName(c)) in w.props.entries
      && |w.props.entries[sanitize(PropName(c))].depth| == 0 && |las.depth| == 0
    ensures r.error.Some? ==> r == Step(w, Some(IndexError))
    ensures forall k :: k in r.well.props.entries <==> k in w.props.entries || (Loadable(las, c) && k == sanitize(PropName(c)))
  {
    if !Loadable(las, c) then Step(w, None)
    else
      var key := sanitize(PropName(c));
      var prop := CurveProperty(las, c, sanitize);
      if key in w.props.entries then
        assert Stored(w.props.entries[key], key);
        var merged := MergeProperty(w.props.entries[key], prop);
        if merged.Err? then Step(w, Some(merged.error))
        else Step(StoreProperty(w, key, merged.value, w.originalNames), None)
      else
        Step(StoreProperty(w, key, prop, w.originalNames[key := PropName(c)]), None)
  }

  /** What one pass stores: every other property keeps its value; a new name
      holds the curve's property and records the curve's name as its
      original name; a name already present holds the merge of the stored
      property with the curve's. */
  lemma LoadCurveValues(w: Well, las: LasTable, c: Curve, sanitize: string -> string)
    requires WellValid(w) && las.depthColumn.Some?
    requires c.data.Some? ==> |c.data.value| == |las.depth|
    ensures forall k :: k in w.props.entries && k != sanitize(PropName(c)) ==>
      LoadCurve(w, las, c, sanitize).well.props.entries[k] == w.props.entries[k]
    ensures Loadable(las, c) && sanitize(PropName(c)) !in w.props.entries ==>
      && LoadCurve(w, las, c, sanitize).well.props.entries[sanitize(PropName(c))] == CurveProperty(las, c, sanitize)
      && LoadCurve(w, las, c, sanitize).well.originalNames[sanitize(PropName(c))] == PropName(c)
    ensures Loadable(las, c) && sanitize(PropName(c)) in w.props.entries && LoadCurve(w, las, c, sanitize).error.None? ==>
      && MergeProperty(w.props.entries[sanitize(PropName(c))], CurveProperty(las, c, sanitize)).Ok?
      && LoadCurve(w, las, c, sanitize).well.props.entries[sanitize(PropName(c))] ==
        MergeProperty(w.props.entries[sanitize(PropName(c))], CurveProperty(las, c, sanitize)).value
  {
    if Loadable(las, c) {
      var key := sanitize(PropName(c));
      if key in w.props.entries {
        assert Stored(w.props.entries[key], key);
      }
    }
  }

  /** The keys of the curves of `curves` that the loader takes. */
  function CurveKeys(las: LasTable, curves: seq<Curve>, sanitize: string -> string): (r: set<string>)
    requires las.depthColumn.Some?
    ensures forall i :: 0 <= i < |curves| && Loadable(las, curves[i]) ==> sanitize(PropName(curves[i])) in r
  {
    set i | 0 <= i < |curves| && Loadable(las, curves[i]) :: sanitize(PropName(curves[i]))
  }

  /** The curve loop over `curves`, in order; the first failed merge ends it
      with the earlier curves loaded. */
  function LoadCurves(w: Well, las: LasTable, curves: seq<Curve>, sanitize: string -> string): (r: Step)
    requires WellValid(w) && las.depthColumn.Some?
    requires forall i :: 0 <= i < |curves| && curves[i].data.Some? ==> |curves[i].data.value| == |las.depth|
    ensures WellValid(r.well)
    ensures r.well == w.(props := r.well.props, originalNames := r.well.originalNames)
    ensures |w.props.keys| <= |r.well.props.keys| && r.well.props.keys[..|w.props.keys|] == w.props.keys
    ensures r.error.Some? ==> r.error == Some(IndexError) && |las.depth| == 0
    decreases |curves|
  {
    if |curves| == 0 then Step(w, None)
    else
      var s1 := LoadCurve(w, las, curves[0], sanitize);
      if s1.error.Some? then s1
      else
        var r := LoadCurves(s1.well, las, curves[1..], sanitize);
        PrefixOfPrefix(w.props.keys, s1.well.props.keys, r.well.props.keys);
        r
  }

  /** After the curve loop the well holds its old properties and only those
      of the curves the loader takes; when no merge failed, all of them. */
  lemma {:induction false} LoadCurvesKeys(w: Well, las: LasTable, curves: seq<Curve>, sanitize: string -> string)
    requires WellValid(w) && las.depthColumn.Some?
    requires forall i :: 0 <= i < |curves| && curves[i].data.Some? ==> |curves[i].data.value| == |las.depth|
    ensures forall k :: k in w.props.entries ==> k in LoadCurves(w, las, curves, sanitize).well.props.entries
    ensures LoadCurves(w, las, curves, sanitize).error.None? ==>
      forall k :: k in CurveKeys(las, curves, sanitize) ==> k in LoadCurves(w, las, curves, sanitize).well.props.entries
    ensures forall k :: k in LoadCurves(w, las, curves, sanitize).well.props.entries ==>
      k in w.props.entries || k in CurveKeys(las, curves, sanitize)
    decreases |curves|
  {
    if |curves| > 0 {
      var s1 := LoadCurve(w, las, curves[0], sanitize);
      if s1.error.None? {
        var w1 := s1.well;
        assert forall i :: 0 <= i < |curves[1..]| ==> curves[1..][i] == curves[i + 1];
        LoadCurvesKeys(w1, las, curves[1..], sanitize);
        CurveKeysSplit(las, curves, sanitize);
        assert LoadCurves(w, las, curves, sanitize) == LoadCurves(w1, las, curves[1..], sanitize);
      }
    }
  }

  lemma CurveKeysSplit(las: LasTable, curves: seq<Curve>, sanitize: string -> string)
    requires las.depthColumn.Some? && |curves| > 0
    ensures CurveKeys(las, curves, sanitize) ==
      CurveKeys(las, curves[1..], sanitize) + (if Loadable(las, curves[0]) then {sanitize(PropName(curves[0]))} else {})
  {
    var a := CurveKeys(las, curves, sanitize);
    var b := CurveKeys(las, curves[1..], sanitize);
    forall k | k in a ensures k in b || (Loadable(las, curves[0]) && k == sanitize(PropName(curves[0]))) {
      var i :| 0 <= i < |curves| && Loadable(las, curves[i]) && k == sanitize(PropName(curves[i]));
      if i > 0 {
        assert curves[1..][i - 1] == curves[i];
      }
    }
    forall k | k in b ensures k in a {
      var i :| 0 <= i < |curves[1..]| && Loadable(las, curves[1..][i]) && k == sanitize(PropName(curves[1..][i]));
      assert curves[i + 1] == curves[1..][i];
    }
  }

  /** load_las: a file for another well is refused and changes nothing; the
      file is recorded as a source before its depth column is checked, and a
      file without one is a WellError; otherwise every curve but the depth
      curve that has a column is loaded, and can then be looked up by the name
      it was loaded under, unless a curve already present and the file both
      hold no sample, whose merge raises IndexError. Properties already
      present keep their places. */
  function LoadLas(w: Well, las: LasTable, sanitize: string -> string): (r: Step)
    requires WellValid(w) && Rectangular(las)
    ensures las.wellName != w.name ==> r == Step(w, Some(WellNameMismatchError))
    ensures las.wellName == w.name ==> r.well.lasSources == w.lasSources + [las.path]
    ensures las.wellName == w.name && las.depthColumn.None? ==>
      r == Step(w.(lasSources := w.lasSources + [las.path]), Some(WellError))
    ensures las.wellName == w.name && las.depthColumn.Some? ==> r.error.None? || r.error == Some(IndexError)
    ensures r.error == Some(IndexError) ==> las.wellName == w.name && las.depthColumn.Some? && |las.depth| == 0
    ensures WellValid(r.well) && r.well.name == w.name && r.well.externalCount == w.externalCount
    ensures r.well.sanitizedName == w.sanitizedName
    ensures |w.props.keys| <= |r.well.props.keys| && r.well.props.keys[..|w.props.keys|] == w.props.keys
    ensures r.error.None? ==> las.depthColumn.Some? && forall i :: 0 <= i < |las.curves| && Loadable(las, las.curves[i]) ==>
      GetProperty(r.well, PropName(las.curves[i]), sanitize).Ok?
    ensures r.error.None? ==> forall k :: k in r.well.props.entries ==>
      k in w.props.entries || k in CurveKeys(las, las.curves, sanitize)
  {
    if las.wellName != w.name then Step(w, Some(WellNameMismatchError))
    else
      var w1 := w.(lasSources := w.lasSources + [las.path]);
      if las.depthColumn.None? then Step(w1, Some(WellError))
      else
        LoadCurvesKeys(w1, las, las.curves, sanitize);
        LoadCurves(w1, las, las.curves, sanitize)
  }

  // ------------------------------------------------------------ DataFrames

  /** The source name of the `i`-th DataFrame added: 'external_df', then 'external_df1', ... */
  function ExternalName(i: nat): (r: string)
    ensures |r| >= 11 && r[..11] == "external_df"
  {
    if i == 0 then "external_df" else "external_df" + NatToString(i)
  }

  /** Distinct DataFrames get distinct source names. */
  lemma ExternalNameInjective(i: nat, j: nat)
    ensures ExternalName(i) == ExternalName(j) ==> i == j
  {
    if i > 0 && j > 0 {
      assert ExternalName(i)[11..] == NatToString(i);
      assert ExternalName(j)[11..] == NatToString(j);
      ParseNatToString(i);
      ParseNatToString(j);
    } else if i > 0 {
      assert |ExternalName(i)| > |ExternalName(j)|;
    } else if j > 0 {
      assert |ExternalName(j)| > |ExternalName(i)|;
    }
  }

  /** add_dataframe: the counter is advanced, the frame is converted into a
      LAS table under the next source name (`frame`, the converter, is left
      uninterpreted) with this well's name, and loaded like a LAS file. */
  function AddDataframe(w: Well, frame: string -> LasTable, sanitize: string -> string): (r: Step)
    requires WellValid(w) && Rectangular(frame(ExternalName(w.externalCount)))
    ensures r.well.externalCount == w.externalCount + 1
    ensures r.well.lasSources == w.lasSources + [frame(ExternalName(w.externalCount)).path]
    ensures r.error.None? || r.error == Some(WellError) || r.error == Some(IndexError)
    ensures WellValid(r.well)
    ensures |w.props.keys| <= |r.well.props.keys| && r.well.props.keys[..|w.props.keys|] == w.props.keys
  {
    var las := frame(ExternalName(w.externalCount)).(wellName := w.name);
    LoadLas(w.(externalCount := w.externalCount + 1), las, sanitize)
  }

  /** `acc` extended by every element of `xs` not yet present, in order. */
  function AppendNew(acc: seq<string>, xs: seq<string>): (r: seq<string>)
    ensures forall x :: x in r <==> x in acc || x in xs
    ensures |acc| <= |r| && r[..|acc|] == acc
    decreases |xs|
  {
    if |xs| == 0 then acc
    else
      var next := if xs[0] in acc then acc else acc + [xs[0]];
      var r := AppendNew(next, xs[1..]);
      PrefixOfPrefix(acc, next, r);
      HeadMembers(xs);
      r
  }

  /** An element of a non-empty sequence is its head or in its tail. */
  lemma HeadMembers(xs: seq<string>)
    requires |xs| > 0
    ensures forall x :: x in xs <==> x == xs[0] || x in xs[1..]
  {
    assert xs == [xs[0]] + xs[1..];
  }

  /** Starting from a list without repeats, the result has none, and nothing
      after the starting list was already in it. */
  lemma {:induction false} AppendNewDistinct(acc: seq<string>, xs: seq<string>)
    requires Distinct(acc)
    ensures Distinct(AppendNew(acc, xs))
    ensures forall i :: |acc| <= i < |AppendNew(acc, xs)| ==> AppendNew(acc, xs)[i] !in acc
    decreases |xs|
  {
    if |xs| > 0 {
      var next := if xs[0] in acc then acc else acc + [xs[0]];
      var r := AppendNew(next, xs[1..]);
      assert AppendNew(acc, xs) == r;
      assert Distinct(next);
      AppendNewDistinct(next, xs[1..]);
      forall i | |acc| <= i < |r| ensures r[i] !in acc {
        if i < |next| {
          assert r[i] == next[i] == xs[0];
        } else {
          assert r[i] !in next;
        }
      }
    }
  }

  function ExternalNames(n: nat): (r: seq<string>)
    ensures |r| == n && forall i :: 0 <= i < n ==> r[i] == ExternalName(i)
  {
    seq(n, i requires 0 <= i < n => ExternalName(i))
  }

  /** The `sources` accessor: every LAS path once, in loading order, then
      every DataFrame source name not already listed. */
  function Sources(w: Well): (r: seq<string>)
    ensures Distinct(r)
    ensures forall x :: x in r <==> x in w.lasSources || x in ExternalNames(w.externalCount)
    ensures forall i :: 0 <= i < w.externalCount ==> ExternalName(i) in r
    ensures forall i, j :: 0 <= i < j < |r| && r[j] in w.lasSources ==> r[i] in w.lasSources
  {
    var las := AppendNew([], w.lasSources);
    var r := AppendNew(las, ExternalNames(w.externalCount));
    AppendNewDistinct([], w.lasSources);
    AppendNewDistinct(las, ExternalNames(w.externalCount));
    assert forall i :: 0 <= i < w.externalCount ==> ExternalNames(w.externalCount)[i] in ExternalNames(w.externalCount);
    forall i, j | 0 <= i < j < |r| && r[j] in w.lasSources ensures r[i] in w.lasSources {
      assert r[j] in las;
      assert j < |las|;
      assert r[i] == las[i];
    }
    r
  }

  /** The position where `x` first occurs in `s`. */
  function FirstIndex(s: seq<string>, x: string): (i: nat)
    requires x in s
    ensures i < |s| && s[i] == x && x !in s[..i]
  {
    if s[0] == x then 0
    else
      var j := FirstIndex(s[1..], x);
      assert s[..j + 1] == [s[0]] + s[1..][..j];
      j + 1
  }

  /** A position holding `x` with no `x` before it is the first occurrence. */
  lemma FirstIndexUnique(s: seq<string>, x: string, i: nat)
    requires i < |s| && s[i] == x && x !in s[..i]
    ensures FirstIndex(s, x) == i
  {
  }

  lemma FirstIndexPrefix(p: seq<string>, q: seq<string>, x: string)
    requires x in p
    ensures FirstIndex(p + q, x) == FirstIndex(p, x)
  {
    var k := FirstIndex(p, x);
    assert (p + q)[..k] == p[..k];
    FirstIndexUnique(p + q, x, k);
  }

  /** The elements of `s`, each once, in the order they first occur: a
      reference definition of a seen-set loop. */
  function Dedup(s: seq<string>): seq<string>
    decreases |s|
  {
    if |s| == 0 then []
    else
      var p := s[..|s| - 1];
      Dedup(p) + (if s[|s| - 1] in p then [] else [s[|s| - 1]])
  }

  /** Dedup lists every element of `s` once, ordered by first occurrence. */
  lemma {:induction false} DedupFirstOccurrence(s: seq<string>)
    ensures forall x :: x in Dedup(s) <==> x in s
    ensures Distinct(Dedup(s))
    ensures forall i, j :: 0 <= i < j < |Dedup(s)| ==> FirstIndex(s, Dedup(s)[i]) < FirstIndex(s, Dedup(s)[j])
    decreases |s|
  {
    var n := |s|;
    if n > 0 {
      var p, last := s[..n - 1], s[n - 1];
      assert s == p + [last];
      DedupFirstOccurrence(p);
      var d := Dedup(p);
      var r := Dedup(s);
      assert r == d + (if last in p then [] else [last]);
      forall x | x in d ensures FirstIndex(s, x) == FirstIndex(p, x) {
        FirstIndexPrefix(p, [last], x);
      }
      if last !in p {
        FirstIndexUnique(s, last, n - 1);
        forall i, j | 0 <= i < j < |r| ensures FirstIndex(s, r[i]) < FirstIndex(s, r[j]) {
          assert r[i] == d[i] && r[i] in d;
          if j < |d| {
            assert r[j] == d[j] && r[j] in d;
          }
        }
      } else {
        forall i, j | 0 <= i < j < |r| ensures FirstIndex(s, r[i]) < FirstIndex(s, r[j]) {
          assert r[i] == d[i] && r[j] == d[j] && r[i] in d && r[j] in d;
        }
      }
    }
  }

  /** An element already seen is skipped wherever it occurs again. */
  lemma {:induction false} DedupSkip(a: seq<string>, x: string, b: seq<string>)
    requires x in a
    ensures Dedup(a + [x] + b) == Dedup(a + b)
    decreases |b|
  {
    if |b| == 0 {
      assert a + [x] + b == a + [x] && a + b == a;
      assert (a + [x])[..|a|] == a;
    } else {
      var b1, y := b[..|b| - 1], b[|b| - 1];
      DedupSkip(a, x, b1);
      assert (a + [x] + b)[..|a + [x] + b| - 1] == a + [x] + b1;
      assert (a + b)[..|a + b| - 1] == a + b1;
      assert (a + [x] + b)[|a + [x] + b| - 1] == y && (a + b)[|a + b| - 1] == y;
      assert y in a + [x] + b1 <==> y in a + b1;
    }
  }

  lemma SplitHead(acc: seq<string>, xs: seq<string>)
    requires |xs| > 0
    ensures acc + [xs[0]] + xs[1..] == acc + xs
  {
    assert xs == [xs[0]] + xs[1..];
  }

  /** A fresh element extends a list without repeats. */
  lemma DedupFresh(acc: seq<string>, x: string)
    requires Dedup(acc) == acc && x !in acc
    ensures Dedup(acc + [x]) == acc + [x]
  {
    assert (acc + [x])[..|acc|] == acc;
  }

  /** Both seen-set loops together are one pass over the concatenation. */
  lemma {:induction false} AppendNewConcat(acc: seq<string>, a: seq<string>, b: seq<string>)
    ensures AppendNew(AppendNew(acc, a), b) == AppendNew(acc, a + b)
    decreases |a|
  {
    if |a| == 0 {
      assert a + b == b;
    } else {
      var next := if a[0] in acc then acc else acc + [a[0]];
      var ab := a + b;
      assert ab[0] == a[0] && ab[1..] == a[1..] + b;
      assert AppendNew(acc, a) == AppendNew(next, a[1..]);
      assert AppendNew(acc, ab) == AppendNew(next, ab[1..]);
      AppendNewConcat(next, a[1..], b);
    }
  }

  /** The seen-set loop from a list without repeats is Dedup of everything. */
  lemma {:induction false} AppendNewIsDedup(acc: seq<string>, xs: seq<string>)
    requires Dedup(acc) == acc
    ensures AppendNew(acc, xs) == Dedup(acc + xs)
    decreases |xs|
  {
    if |xs| == 0 {
      assert acc + xs == acc;
    } else {
      var x, rest := xs[0], xs[1..];
      var next := if x in acc then acc else acc + [x];
      assert AppendNew(acc, xs) == AppendNew(next, rest);
      SplitHead(acc, xs);
      if x in acc {
        AppendNewIsDedup(acc, rest);
        DedupSkip(acc, x, rest);
      } else {
        DedupFresh(acc, x);
        AppendNewIsDedup(next, rest);
      }
    }
  }

  /** Whatever repeats: the sources are the LAS paths followed by the
      DataFrame source names, each listed once where it first occurs. */
  lemma SourcesInLoadingOrder(w: Well)
    ensures Sources(w) == Dedup(w.lasSources + ExternalNames(w.externalCount))
    ensures forall i, j :: 0 <= i < j < |Sources(w)| ==>
      FirstIndex(w.lasSources + ExternalNames(w.externalCount), Sources(w)[i])
        < FirstIndex(w.lasSources + ExternalNames(w.externalCount), Sources(w)[j])
  {
    var las, ext := w.lasSources, ExternalNames(w.externalCount);
    assert [] + las == las && [] + (las + ext) == las + ext;
    AppendNewIsDedup([], las);
    AppendNewConcat([], las, ext);
    AppendNewIsDedup([], las + ext);
    DedupFirstOccurrence(las + ext);
  }

  /** Distinct LAS paths that are not DataFrame source names are listed as
      loaded, followed by the DataFrame sources in order. */
  lemma SourcesWithoutRepeats(w: Well)
    requires Distinct(w.lasSources)
    requires forall x :: x in w.lasSources ==> x !in ExternalNames(w.externalCount)
    ensures Sources(w) == w.lasSources + ExternalNames(w.externalCount)
  {
    AppendNewFresh([], w.lasSources);
    var ext := ExternalNames(w.externalCount);
    assert Distinct(ext) by {
      forall i, j | 0 <= i < j < |ext| ensures ext[i] != ext[j] {
        ExternalNameInjective(i, j);
      }
    }
    AppendNewFresh(w.lasSources, ext);
  }

  /** Appending distinct fresh elements appends all of them. */
  lemma {:induction false} AppendNewFresh(acc: seq<string>, xs: seq<string>)
    requires Distinct(xs) && forall x :: x in xs ==> x !in acc
    ensures AppendNew(acc, xs) == acc + xs
    decreases |xs|
  {
    if |xs| > 0 {
      assert xs[0] !in acc;
      assert Distinct(xs[1..]);
      forall x | x in xs[1..] ensures x !in acc + [xs[0]] {
        assert x in xs;
      }
      AppendNewFresh(acc + [xs[0]], xs[1..]);
      assert AppendNew(acc, xs) == AppendNew(acc + [xs[0]], xs[1..]);
      MoveHead(acc, xs);
    }
  }

  lemma MoveHead(acc: seq<string>, xs: seq<string>)
    requires |xs| > 0
    ensures acc + [xs[0]] + xs[1..] == acc + xs
  {
    assert [xs[0]] + xs[1..] == xs;
  }

  // ------------------------------------------------------------ resampling

  /** One property moved onto `grid`: its values resampled by its kind's method. */
  function ResampleProperty(p: Property, grid: seq<real>, kernel: Kernel): (r: Result<Property>)
    requires |p.depth| == |p.values|
    ensures r.Ok? <==> ResampleToGrid(kernel, p.depth, p.values, grid, MethodFor(p.kind)).Ok?
    ensures r.Ok? ==> r.value == p.(depth := grid, values := r.value.values)
    ensures r.Ok? ==> ResampleToGrid(kernel, p.depth, p.values, grid, MethodFor(p.kind)) == Ok(r.value.values)
    ensures r.Ok? ==> |r.value.values| == |grid|
    ensures r.Err? ==> r.error == DepthAlignmentError
  {
    var v := ResampleToGrid(kernel, p.depth, p.values, grid, MethodFor(p.kind));
    if v.Err? then Err(v.error) else Ok(p.(depth := grid, values := v.value))
  }

  /** The resampling loop over `keys`, in order; an interpolator that cannot be
      built stops it with the properties before it already moved. */
  function ResampleAll(w: Well, keys: seq<string>, grid: seq<real>, kernel: Kernel): (r: Step)
    requires WellValid(w) && Distinct(keys) && forall i :: 0 <= i < |keys| ==> keys[i] in w.props.entries
    ensures WellValid(r.well)
    ensures r.well == w.(props := r.well.props) && r.well.props.keys == w.props.keys
    decreases |keys|
  {
    if |keys| == 0 then Step(w, None)
    else
      var k := keys[0];
      var moved := ResampleProperty(w.props.entries[k], grid, kernel);
      if moved.Err? then Step(w, Some(moved.error))
      else
        var w1 := w.(props := Put(w.props, k, moved.value));
        assert Distinct(keys[1..]);
        assert forall i :: 0 <= i < |keys[1..]| ==> keys[1..][i] == keys[i + 1];
        ResampleAll(w1, keys[1..], grid, kernel)
  }

  /** One turn of the resampling loop: the first key moved, the rest to go. */
  lemma ResampleAllHead(w: Well, keys: seq<string>, grid: seq<real>, kernel: Kernel)
    requires WellValid(w) && Distinct(keys) && forall i :: 0 <= i < |keys| ==> keys[i] in w.props.entries
    requires |keys| > 0 && ResampleProperty(w.props.entries[keys[0]], grid, kernel).Ok?
    ensures
      var w1 := w.(props := Put(w.props, keys[0], ResampleProperty(w.props.entries[keys[0]], grid, kernel).value));
      && WellValid(w1) && Distinct(keys[1..]) && (forall i :: 0 <= i < |keys[1..]| ==> keys[1..][i] in w1.props.entries)
      && keys[0] !in keys[1..] && (forall x :: x in keys <==> x == keys[0] || x in keys[1..])
      && w1.props.entries == w.props.entries[keys[0] := ResampleProperty(w.props.entries[keys[0]], grid, kernel).value]
      && ResampleAll(w, keys, grid, kernel) == ResampleAll(w1, keys[1..], grid, kernel)
  {
    var rest := keys[1..];
    assert Distinct(rest);
    assert forall i :: 0 <= i < |rest| ==> rest[i] == keys[i + 1];
  }

  /** The resampling loop stops only on a DepthAlignmentError. */
  lemma {:induction false} ResampleAllError(w: Well, keys: seq<string>, grid: seq<real>, kernel: Kernel)
    requires WellValid(w) && Distinct(keys) && forall i :: 0 <= i < |keys| ==> keys[i] in w.props.entries
    ensures ResampleAll(w, keys, grid, kernel).error.None? || ResampleAll(w, keys, grid, kernel).error == Some(DepthAlignmentError)
    decreases |keys|
  {
    if |keys| > 0 && ResampleProperty(w.props.entries[keys[0]], grid, kernel).Ok? {
      ResampleAllHead(w, keys, grid, kernel);
      ResampleAllError(w.(props := Put(w.props, keys[0], ResampleProperty(w.props.entries[keys[0]], grid, kernel).value)),
        keys[1..], grid, kernel);
    }
  }

  /** What the resampling loop did to one property: one whose key is not in
      `keys` is untouched; any other is untouched or resampled, and resampled
      when the loop ran to the end. */
  lemma {:induction false} ResampleAllAt(w: Well, keys: seq<string>, grid: seq<real>, kernel: Kernel, x: string)
    requires WellValid(w) && Distinct(keys) && forall i :: 0 <= i < |keys| ==> keys[i] in w.props.entries
    requires x in w.props.entries
    ensures x !in keys ==> ResampleAll(w, keys, grid, kernel).well.props.entries[x] == w.props.entries[x]
    ensures ResampleAll(w, keys, grid, kernel).well.props.entries[x] == w.props.entries[x] ||
      ResampleProperty(w.props.entries[x], grid, kernel) == Ok(ResampleAll(w, keys, grid, kernel).well.props.entries[x])
    ensures ResampleAll(w, keys, grid, kernel).error.None? && x in keys ==>
      ResampleProperty(w.props.entries[x], grid, kernel) == Ok(ResampleAll(w, keys, grid, kernel).well.props.entries[x])
    decreases |keys|
  {
    if |keys| > 0 && ResampleProperty(w.props.entries[keys[0]], grid, kernel).Ok? {
      var k := keys[0];
      var moved := ResampleProperty(w.props.entries[k], grid, kernel).value;
      ResampleAllHead(w, keys, grid, kernel);
      var w1 := w.(props := Put(w.props, k, moved));
      ResampleAllAt(w1, keys[1..], grid, kernel, x);
    }
  }

  /** What the resampling loop did: it stops only on a DepthAlignmentError;
      a property whose key is not in `keys` is untouched, every other one is
      untouched or resampled; without an error all of `keys` are resampled. */
  lemma ResampleAllEffect(w: Well, keys: seq<string>, grid: seq<real>, kernel: Kernel)
    requires WellValid(w) && Distinct(keys) && forall i :: 0 <= i < |keys| ==> keys[i] in w.props.entries
    ensures ResampleAll(w, keys, grid, kernel).error.None? || ResampleAll(w, keys, grid, kernel).error == Some(DepthAlignmentError)
    ensures forall k :: k in w.props.entries && k !in keys ==>
      ResampleAll(w, keys, grid, kernel).well.props.entries[k] == w.props.entries[k]
    ensures forall k :: k in w.props.entries ==>
      (ResampleAll(w, keys, grid, kernel).well.props.entries[k] == w.props.entries[k] ||
       ResampleProperty(w.props.entries[k], grid, kernel) == Ok(ResampleAll(w, keys, grid, kernel).well.props.entries[k]))
    ensures ResampleAll(w, keys, grid, kernel).error.None? ==> forall k :: k in keys ==>
      ResampleProperty(w.props.entries[k], grid, kernel) == Ok(ResampleAll(w, keys, grid, kernel).well.props.entries[k])
  {
    ResampleAllError(w, keys, grid, kernel);
    forall x | x in w.props.entries
      ensures x !in keys ==> ResampleAll(w, keys, grid, kernel).well.props.entries[x] == w.props.entries[x]
      ensures ResampleAll(w, keys, grid, kernel).well.props.entries[x] == w.props.entries[x] ||
        ResampleProperty(w.props.entries[x], grid, kernel) == Ok(ResampleAll(w, keys, grid, kernel).well.props.entries[x])
    {
      ResampleAllAt(w, keys, grid, kernel, x);
    }
    forall x | x in keys
      ensures ResampleAll(w, keys, grid, kernel).error.None? ==>
        ResampleProperty(w.props.entries[x], grid, kernel) == Ok(ResampleAll(w, keys, grid, kernel).well.props.entries[x])
    {
      var i :| 0 <= i < |keys| && keys[i] == x;
      ResampleAllAt(w, keys, grid, kernel, x);
    }
  }

  /** Every property moved onto `grid`, which becomes the well's grid. */
  function ResampleOnto(w: Well, grid: seq<real>, kernel: Kernel): (r: Step)
    requires WellValid(w)
    ensures WellValid(r.well) && r.well.props.keys == w.props.keys
    ensures r.well == w.(props := r.well.props, depthGrid := Some(grid))
  {
    ResampleAll(w.(depthGrid := Some(grid)), w.props.keys, grid, kernel)
  }

  /** A resample onto a grid fails only on a DepthAlignmentError, and when it
      does not fail every property has been resampled onto the grid. */
  lemma ResampleOntoEffect(w: Well, grid: seq<real>, kernel: Kernel)
    requires WellValid(w)
    ensures ResampleOnto(w, grid, kernel).error.None? || ResampleOnto(w, grid, kernel).error == Some(DepthAlignmentError)
    ensures forall k :: k in w.props.entries ==>
      (ResampleOnto(w, grid, kernel).well.props.entries[k] == w.props.entries[k] ||
       ResampleProperty(w.props.entries[k], grid, kernel) == Ok(ResampleOnto(w, grid, kernel).well.props.entries[k]))
    ensures ResampleOnto(w, grid, kernel).error.None? ==> forall k :: k in w.props.entries ==>
      ResampleProperty(w.props.entries[k], grid, kernel) == Ok(ResampleOnto(w, grid, kernel).well.props.entries[k])
  {
    ResampleAllEffect(w.(depthGrid := Some(grid)), w.props.keys, grid, kernel);
  }

  /** After a successful resample onto a grid every property lies on it. */
  lemma ResampleOntoAligns(w: Well, grid: seq<real>, kernel: Kernel)
    requires WellValid(w) && ResampleOnto(w, grid, kernel).error.None?
    ensures forall k :: k in ResampleOnto(w, grid, kernel).well.props.entries ==>
      ResampleOnto(w, grid, kernel).well.props.entries[k].depth == grid
  {
    ResampleOntoEffect(w, grid, kernel);
    var moved := ResampleOnto(w, grid, kernel);
    forall k | k in moved.well.props.entries ensures moved.well.props.entries[k].depth == grid {
      assert k in w.props.entries;
      assert ResampleProperty(w.props.entries[k], grid, kernel) == Ok(moved.well.props.entries[k]);
    }
  }

  /** Every property has at least one depth sample. */
  predicate AllNonEmpty(ps: seq<Property>)
  {
    forall i :: 0 <= i < |ps| ==> |ps[i].depth| > 0
  }

  /** The shallowest sample over all properties: the least of their minimum depths. */
  function LowestDepth(ps: seq<Property>): (r: real)
    requires |ps| > 0 && AllNonEmpty(ps)
    ensures forall i :: 0 <= i < |ps| ==> r <= MinOf(ps[i].depth)
    ensures exists i :: 0 <= i < |ps| && r == MinOf(ps[i].depth)
    decreases |ps|
  {
    var n := |ps|;
    var m := MinOf(ps[n - 1].depth);
    if n == 1 then m
    else
      var rest := LowestDepth(ps[..n - 1]);
      assert forall i :: 0 <= i < n - 1 ==> ps[..n - 1][i] == ps[i];
      if rest <= m then rest else m
  }

  /** The deepest sample over all properties: the greatest of their maximum depths. */
  function HighestDepth(ps: seq<Property>): (r: real)
    requires |ps| > 0 && AllNonEmpty(ps)
    ensures forall i :: 0 <= i < |ps| ==> MaxOf(ps[i].depth) <= r
    ensures exists i :: 0 <= i < |ps| && r == MaxOf(ps[i].depth)
    decreases |ps|
  {
    var n := |ps|;
    var m := MaxOf(ps[n - 1].depth);
    if n == 1 then m
    else
      var rest := HighestDepth(ps[..n - 1]);
      assert forall i :: 0 <= i < n - 1 ==> ps[..n - 1][i] == ps[i];
      if rest >= m then rest else m
  }

  /** The default step of a regular grid. */
  function StepOrDefault(step: Option<real>): real
  {
    if step.Some? then step.value else 0.1
  }

  /** The regular grid from `lo` through `hi`: the grid constructor `arange`
      (np.arange) with the stop extended by half a step so that `hi` is
      reached. */
  function RegularGrid(lo: real, hi: real, step: real, arange: (real, real, real) -> seq<real>): seq<real>
  {
    arange(lo, hi + step / 2.0, step)
  }

  /** When the constructor is numpy's arange, the regular grid starts at `lo`,
      ends within half a step of `hi`, and strictly ascends. */
  lemma RegularGridSpan(lo: real, hi: real, step: real, arange: (real, real, real) -> seq<real>)
    requires step > 0.0 && lo <= hi
    requires arange(lo, hi + step / 2.0, step) == Arange(lo, hi + step / 2.0, step)
    ensures var g := RegularGrid(lo, hi, step, arange);
      && |g| > 0 && g[0] == lo
      && hi - step / 2.0 <= g[|g| - 1] < hi + step / 2.0
      && Statistics.StrictlyAscending(g)
  {
    ArangeHalfStep(lo, hi, step);
  }

  /** The grid resample() moves the properties onto: an explicit grid as
      given; otherwise a regular grid with step 0.1 by default, over the given
      range or from the shallowest to the deepest sample of any property.
      With neither a grid nor a range, a well without properties is a
      WellError and a property without samples a ValueError. */
  function GridFor(w: Well, grid: Option<seq<real>>, step: Option<real>, range: Option<(real, real)>,
    arange: (real, real, real) -> seq<real>): (r: Result<seq<real>>)
    requires WellValid(w)
    ensures grid.Some? ==> r == Ok(grid.value)
    ensures grid.None? && range.Some? ==>
      r == Ok(RegularGrid(range.value.0, range.value.1, StepOrDefault(step), arange))
    ensures grid.None? && range.None? && |w.props.keys| == 0 ==> r == Err(WellError)
    ensures grid.None? && range.None? && |w.props.keys| > 0 && !AllNonEmpty(Values(w.props)) ==> r == Err(ValueError([]))
    ensures grid.None? && range.None? && |w.props.keys| > 0 && AllNonEmpty(Values(w.props)) ==>
      var ps := Values(w.props);
      r == Ok(RegularGrid(LowestDepth(ps), HighestDepth(ps), StepOrDefault(step), arange))
  {
    if grid.Some? then Ok(grid.value)
    else
      var st := StepOrDefault(step);
      if range.Some? then Ok(RegularGrid(range.value.0, range.value.1, st, arange))
      else
        var ps := Values(w.props);
        if |ps| == 0 then Err(WellError)
        else if !AllNonEmpty(ps) then Err(ValueError([]))
        else Ok(RegularGrid(LowestDepth(ps), HighestDepth(ps), st, arange))
  }

  /** resample: a grid that cannot be chosen leaves the well as it is;
      otherwise the grid is recorded and every property moved onto it. */
  function Resample(
    w: Well, grid: Option<seq<real>>, step: Option<real>, range: Option<(real, real)>,
    kernel: Kernel, arange: (real, real, real) -> seq<real>
  ): (r: Step)
    requires WellValid(w)
    ensures WellValid(r.well) && r.well.props.keys == w.props.keys
    ensures GridFor(w, grid, step, range, arange).Err? ==> r == Step(w, Some(GridFor(w, grid, step, range, arange).error))
    ensures GridFor(w, grid, step, range, arange).Ok? ==>
      r.well == w.(props := r.well.props, depthGrid := Some(GridFor(w, grid, step, range, arange).value))
    ensures GridFor(w, grid, step, range, arange).Ok? ==> r == ResampleOnto(w, GridFor(w, grid, step, range, arange).value, kernel)
  {
    var g := GridFor(w, grid, step, range, arange);
    if g.Err? then Step(w, Some(g.error)) else ResampleOnto(w, g.value, kernel)
  }

  /** After a successful resample every property lies on the recorded grid. */
  lemma ResampleAligns(
    w: Well, grid: Option<seq<real>>, step: Option<real>, range: Option<(real, real)>,
    kernel: Kernel, arange: (real, real, real) -> seq<real>)
    requires WellValid(w) && Resample(w, grid, step, range, kernel, arange).error.None?
    ensures Resample(w, grid, step, range, kernel, arange).well.depthGrid.Some?
    ensures forall k :: k in w.props.entries ==>
      ResampleProperty(w.props.entries[k], Resample(w, grid, step, range, kernel, arange).well.depthGrid.value, kernel)
        == Ok(Resample(w, grid, step, range, kernel, arange).well.props.entries[k])
    ensures forall k :: k in Resample(w, grid, step, range, kernel, arange).well.props.entries ==>
      Resample(w, grid, step, range, kernel, arange).well.props.entries[k].depth
        == Resample(w, grid, step, range, kernel, arange).well.depthGrid.value
  {
    var g := GridFor(w, grid, step, range, arange);
    ResampleOntoEffect(w, g.value, kernel);
    var w2 := Resample(w, grid, step, range, kernel, arange).well;
    forall k | k in w2.props.entries ensures w2.props.entries[k].depth == g.value {
      assert k in w.props.entries;
    }
  }

  // ---------------------------------------------------------------- export

  /** The names of `keys`, in order, that are in `names` (`inside`) or not. */
  function KeepWhere(keys: seq<string>, names: seq<string>, inside: bool): (r: seq<string>)
    ensures forall k :: k in r <==> k in keys && (k in names <==> inside)
    ensures Distinct(keys) ==> Distinct(r)
    decreases |keys|
  {
    if |keys| == 0 then []
    else
      var n := |keys|;
      var rest := KeepWhere(keys[..n - 1], names, inside);
      assert forall k :: k in keys <==> k in keys[..n - 1] || k == keys[n - 1];
      if (keys[n - 1] in names) == inside then rest + [keys[n - 1]] else rest
  }

  /** A property's exported column: labels applied when asked for and the
      property has a non-empty label table, the raw values otherwise. */
  function Column(p: Property, discreteLabels: bool): (r: seq<Cell>)
    ensures |r| == |p.values|
    ensures discreteLabels && p.labels.Some? && |p.labels.value| > 0 ==> r == ApplyLabels(p.labels, p.values)
    ensures !(discreteLabels && p.labels.Some? && |p.labels.value| > 0) ==> r == NumberCells(p.values)
  {
    if discreteLabels && p.labels.Some? && |p.labels.value| > 0 then ApplyLabels(p.labels, p.values)
    else NumberCells(p.values)
  }

  /** The name of the depth column. */
  const DepthColumn: string := "DEPT"

  /** The columns of the named properties, in order. */
  function Columns(props: Dict<Property>, names: seq<string>, discreteLabels: bool): (r: seq<seq<Cell>>)
    requires forall i :: 0 <= i < |names| ==> names[i] in props.entries
    ensures |r| == |names| && forall i :: 0 <= i < |names| ==> r[i] == Column(props.entries[names[i]], discreteLabels)
  {
    seq(|names|, i requires 0 <= i < |names| => Column(props.entries[names[i]], discreteLabels))
  }

  /** The export table: a DEPT column of the depths, then one column per
      name, a later name overwriting an earlier column of the same name. */
  function BuildTable(depth: seq<real>, props: Dict<Property>, names: seq<string>, discreteLabels: bool): (r: Dict<seq<Cell>>)
    requires Valid(props) && forall i :: 0 <= i < |names| ==> names[i] in props.entries
    ensures Valid(r)
    ensures forall k :: k in r.entries <==> k == DepthColumn || k in names
    ensures |r.keys| > 0 && r.keys[0] == DepthColumn
  {
    var first := Put(Empty(), DepthColumn, NumberCells(Statistics.AsSamples(depth)));
    PutAllMembers(first, names, Columns(props, names, discreteLabels));
    PutAll(Put(Empty(), DepthColumn, NumberCells(Statistics.AsSamples(depth))), names, Columns(props, names, discreteLabels))
  }

  /** The table holds DEPT, then the names other than DEPT, in order. */
  lemma BuildTableKeys(depth: seq<real>, props: Dict<Property>, names: seq<string>, discreteLabels: bool)
    requires Valid(props) && Distinct(names) && forall i :: 0 <= i < |names| ==> names[i] in props.entries
    ensures BuildTable(depth, props, names, discreteLabels).keys == [DepthColumn] + Fresh(names, [DepthColumn])
  {
    PutAllAfterFirst(DepthColumn, NumberCells(Statistics.AsSamples(depth)), names, Columns(props, names, discreteLabels));
  }

  /** Each name holds its property's column, and DEPT holds the depths unless
      a property of that name replaced them in place. */
  lemma BuildTableEntries(depth: seq<real>, props: Dict<Property>, names: seq<string>, discreteLabels: bool)
    requires Valid(props) && Distinct(names) && forall i :: 0 <= i < |names| ==> names[i] in props.entries
    ensures forall k :: k in BuildTable(depth, props, names, discreteLabels).entries <==> k == DepthColumn || k in names
    ensures forall i :: 0 <= i < |names| ==>
      BuildTable(depth, props, names, discreteLabels).entries[names[i]] == Column(props.entries[names[i]], discreteLabels)
    ensures DepthColumn !in names ==>
      BuildTable(depth, props, names, discreteLabels).entries[DepthColumn] == NumberCells(Statistics.AsSamples(depth))
  {
    var d := Put(Empty(), DepthColumn, NumberCells(Statistics.AsSamples(depth)));
    PutAllEntries(d, names, Columns(props, names, discreteLabels));
  }

  /** Every column has one row per depth when every named property has one value per depth. */
  lemma BuildTableRows(depth: seq<real>, props: Dict<Property>, names: seq<string>, discreteLabels: bool)
    requires Valid(props) && Distinct(names) && forall i :: 0 <= i < |names| ==> names[i] in props.entries
    requires forall i :: 0 <= i < |names| ==> |props.entries[names[i]].values| == |depth|
    ensures forall k :: k in BuildTable(depth, props, names, discreteLabels).entries ==>
      |BuildTable(depth, props, names, discreteLabels).entries[k]| == |depth|
  {
    var t := BuildTable(depth, props, names, discreteLabels);
    BuildTableEntries(depth, props, names, discreteLabels);
    forall k | k in t.entries ensures |t.entries[k]| == |depth| {
      if k in names {
        var i :| 0 <= i < |names| && names[i] == k;
        assert t.entries[names[i]] == Column(props.entries[names[i]], discreteLabels);
      } else {
        assert t.entries[k] == NumberCells(Statistics.AsSamples(depth));
      }
    }
  }

  /** The result of to_dataframe: the well (resampled when asked) and the table or the error. */
  datatype Exported = Exported(well: Well, table: Result<Dict<seq<Cell>>>)

  /** The property names to_dataframe exports, in the well's order. */
  function Selected(w: Well, including: Option<seq<string>>, excluding: Option<seq<string>>): (r: seq<string>)
    requires WellValid(w)
    ensures Distinct(r)
    ensures forall i :: 0 <= i < |r| ==> r[i] in w.props.entries
    ensures including.Some? ==> forall k :: k in r <==> k in w.props.entries && k in including.value
    ensures including.None? && excluding.Some? ==> forall k :: k in r <==> k in w.props.entries && k !in excluding.value
    ensures including.None? && excluding.None? ==> r == w.props.keys
  {
    if including.Some? then KeepWhere(w.props.keys, including.value, true)
    else if excluding.Some? then KeepWhere(w.props.keys, excluding.value, false)
    else w.props.keys
  }

  /** Every name of `names` is a property of the well. */
  predicate AllPresent(w: Well, names: seq<string>)
  {
    forall i :: 0 <= i < |names| ==> names[i] in w.props.entries
  }

  /** Every selected property lies on `depth`. */
  predicate OnGrid(w: Well, names: seq<string>, depth: seq<real>)
    requires forall i :: 0 <= i < |names| ==> names[i] in w.props.entries
  {
    forall i :: 0 <= i < |names| ==> w.props.entries[names[i]].depth == depth
  }

  /** The reference property: the first one stored, or the one named. */
  function Reference(w: Well, reference: Option<string>): (r: Result<Property>)
    requires WellValid(w) && |w.props.keys| > 0
    ensures reference.None? ==> r == Ok(w.props.entries[w.props.keys[0]])
    ensures reference.Some? ==> (r.Ok? <==> reference.value in w.props.entries)
    ensures reference.Some? && r.Ok? ==> r.value == w.props.entries[reference.value]
    ensures r.Err? ==> r.error == PropertyNotFoundError
  {
    if reference.None? then Ok(w.props.entries[w.props.keys[0]])
    else if reference.value in w.props.entries then Ok(w.props.entries[reference.value])
    else Err(PropertyNotFoundError)
  }

  /** The export of an already prepared well: an included name that is not a
      property is a PropertyNotFoundError; without auto-resampling a selected
      property off the reference grid is a WellError. */
  function ExportTable(
    w: Well, depth: seq<real>, including: Option<seq<string>>, excluding: Option<seq<string>>,
    autoResample: bool, discreteLabels: bool
  ): (r: Result<Dict<seq<Cell>>>)
    requires WellValid(w)
    ensures including.Some? && !AllPresent(w, including.value) ==> r == Err(PropertyNotFoundError)
    ensures (including.None? || AllPresent(w, including.value)) && !autoResample ==>
      (r == Err(WellError) <==> !OnGrid(w, Selected(w, including, excluding), depth))
    ensures r.Err? ==> r.error == PropertyNotFoundError || r.error == WellError
    ensures r == Err(PropertyNotFoundError) ==> including.Some? && !AllPresent(w, including.value)
    ensures r.Ok? ==> r.value == BuildTable(depth, w.props, Selected(w, including, excluding), discreteLabels)
  {
    var names := Selected(w, including, excluding);
    if including.Some? && !AllPresent(w, including.value) then Err(PropertyNotFoundError)
    else if !autoResample && !OnGrid(w, names, depth) then Err(WellError)
    else Ok(BuildTable(depth, w.props, names, discreteLabels))
  }

  /** to_dataframe, with the well it leaves behind. An empty well gives an
      empty table; include together with exclude is a ValueError; an unknown
      reference is a PropertyNotFoundError. With auto-resampling every
      property is first moved onto the reference grid, before the names are
      checked, and the well keeps that change whatever follows. */
  function ToDataframe(
    w: Well, reference: Option<string>, including: Option<seq<string>>, excluding: Option<seq<string>>,
    autoResample: bool, discreteLabels: bool, kernel: Kernel
  ): (r: Exported)
    requires WellValid(w)
    ensures |w.props.keys| == 0 ==> r == Exported(w, Ok(Empty()))
    ensures |w.props.keys| > 0 && including.Some? && excluding.Some? ==> r == Exported(w, Err(ValueError([])))
    ensures |w.props.keys| > 0 && !(including.Some? && excluding.Some?) && Reference(w, reference).Err? ==>
      r == Exported(w, Err(PropertyNotFoundError))
    ensures !autoResample ==> r.well == w
    ensures WellValid(r.well) && r.well.props.keys == w.props.keys
    ensures |w.props.keys| > 0 && !(including.Some? && excluding.Some?) && Reference(w, reference).Ok? ==>
      && (autoResample ==> r.well == ResampleOnto(w, Reference(w, reference).value.depth, kernel).well)
      && (r.well.props.keys == w.props.keys)
      && (!autoResample || ResampleOnto(w, Reference(w, reference).value.depth, kernel).error.None? ==>
            r.table == ExportTable(r.well, Reference(w, reference).value.depth, including, excluding, autoResample, discreteLabels))
      && (autoResample && ResampleOnto(w, Reference(w, reference).value.depth, kernel).error.Some? ==>
            r.table == Err(DepthAlignmentError))
    ensures r.table.Err? ==> r.table.error in {ValueError([]), PropertyNotFoundError, WellError, DepthAlignmentError}
  {
    if |w.props.keys| == 0 then Exported(w, Ok(Empty()))
    else if including.Some? && excluding.Some? then Exported(w, Err(ValueError([])))
    else
      var ref := Reference(w, reference);
      if ref.Err? then Exported(w, Err(ref.error))
      else
        var depth := ref.value.depth;
        var moved := if autoResample then ResampleOnto(w, depth, kernel) else Step(w, None);
        ResampleOntoEffect(w, depth, kernel);
        if moved.error.Some? then Exported(moved.well, Err(moved.error.value))
        else Exported(moved.well, ExportTable(moved.well, depth, including, excluding, autoResample, discreteLabels))
  }

  /** A successful export passed the checks on its arguments: the reference
      exists, at most one of include and exclude was given, and every
      included name is a property. */
  lemma ExportChecked(
    w: Well, reference: Option<string>, including: Option<seq<string>>, excluding: Option<seq<string>>,
    autoResample: bool, discreteLabels: bool, kernel: Kernel)
    requires WellValid(w) && |w.props.keys| > 0
    requires ToDataframe(w, reference, including, excluding, autoResample, discreteLabels, kernel).table.Ok?
    ensures Reference(w, reference).Ok? && !(including.Some? && excluding.Some?)
    ensures including.Some? ==> AllPresent(w, including.value)
    ensures ToDataframe(w, reference, including, excluding, autoResample, discreteLabels, kernel).table
      == ExportTable(ToDataframe(w, reference, including, excluding, autoResample, discreteLabels, kernel).well,
           Reference(w, reference).value.depth, including, excluding, autoResample, discreteLabels)
  {
    var r := ToDataframe(w, reference, including, excluding, autoResample, discreteLabels, kernel);
    assert !(including.Some? && excluding.Some?);
    var ref := Reference(w, reference);
    assert ref.Ok?;
    if autoResample {
      assert ResampleOnto(w, ref.value.depth, kernel).error.None?;
    }
    assert r.table == ExportTable(r.well, ref.value.depth, including, excluding, autoResample, discreteLabels);
    assert including.Some? ==> AllPresent(r.well, including.value);
  }

  /** Every property a successful export selects lies on the reference grid,
      and the table is built from the well left behind. */
  lemma ExportSucceeded(
    w: Well, reference: Option<string>, including: Option<seq<string>>, excluding: Option<seq<string>>,
    autoResample: bool, discreteLabels: bool, kernel: Kernel)
    requires WellValid(w) && |w.props.keys| > 0
    requires ToDataframe(w, reference, including, excluding, autoResample, discreteLabels, kernel).table.Ok?
    ensures Reference(w, reference).Ok? && !(including.Some? && excluding.Some?)
    ensures including.Some? ==> AllPresent(w, including.value)
    ensures
      var r := ToDataframe(w, reference, including, excluding, autoResample, discreteLabels, kernel);
      var depth := Reference(w, reference).value.depth;
      && OnGrid(r.well, Selected(r.well, including, excluding), depth)
      && r.table.value == BuildTable(depth, r.well.props, Selected(r.well, including, excluding), discreteLabels)
  {
    ExportChecked(w, reference, including, excluding, autoResample, discreteLabels, kernel);
    var r := ToDataframe(w, reference, including, excluding, autoResample, discreteLabels, kernel);
    var depth := Reference(w, reference).value.depth;
    var names := Selected(r.well, including, excluding);
    if autoResample {
      ResampleOntoAligns(w, depth, kernel);
      assert r.well == ResampleOnto(w, depth, kernel).well;
      forall i | 0 <= i < |names| ensures r.well.props.entries[names[i]].depth == depth {
        assert names[i] in r.well.props.entries;
      }
    } else {
      assert r.well == w;
    }
    assert OnGrid(r.well, names, depth);
    assert r.table.value == BuildTable(depth, r.well.props, names, discreteLabels);
  }

  /** A successful export has DEPT followed by the selected properties in the
      well's order, every included name is a property, and every column has
      one row per reference depth. */
  lemma ToDataframeShape(
    w: Well, reference: Option<string>, including: Option<seq<string>>, excluding: Option<seq<string>>,
    autoResample: bool, discreteLabels: bool, kernel: Kernel)
    requires WellValid(w) && |w.props.keys| > 0
    requires ToDataframe(w, reference, including, excluding, autoResample, discreteLabels, kernel).table.Ok?
    ensures Reference(w, reference).Ok?
    ensures
      var r := ToDataframe(w, reference, including, excluding, autoResample, discreteLabels, kernel);
      && r.table.value.keys == [DepthColumn] + Fresh(Selected(r.well, including, excluding), [DepthColumn])
      && (including.Some? ==> forall k :: k in including.value ==> k in w.props.entries)
      && (forall k :: k in r.table.value.entries ==> |r.table.value.entries[k]| == |Reference(w, reference).value.depth|)
  {
    ExportSucceeded(w, reference, including, excluding, autoResample, discreteLabels, kernel);
    var r := ToDataframe(w, reference, including, excluding, autoResample, discreteLabels, kernel);
    var depth := Reference(w, reference).value.depth;
    var names := Selected(r.well, including, excluding);
    var t := BuildTable(depth, r.well.props, names, discreteLabels);
    assert r.table.value == t;
    BuildTableKeys(depth, r.well.props, names, discreteLabels);
    if including.Some? {
      forall k | k in including.value ensures k in w.props.entries {
        var i :| 0 <= i < |including.value| && including.value[i] == k;
      }
    }
    forall i | 0 <= i < |names| ensures |r.well.props.entries[names[i]].values| == |depth| {
      assert Stored(r.well.props.entries[names[i]], names[i]);
    }
    BuildTableRows(depth, r.well.props, names, discreteLabels);
    assert forall k :: k in t.entries ==> |t.entries[k]| == |depth|;
  }

  /** After a successful resample every property shares the well's grid, so an
      export without auto-resampling, referenced on any property, passes the
      grid check. */
  lemma ResampledWellExports(
    w: Well, grid: Option<seq<real>>, step: Option<real>, range: Option<(real, real)>,
    kernel: Kernel, arange: (real, real, real) -> seq<real>,
    reference: Option<string>, discreteLabels: bool)
    requires WellValid(w) && |w.props.keys| > 0
    requires Resample(w, grid, step, range, kernel, arange).error.None?
    requires reference.None? || reference.value in w.props.entries
    ensures ToDataframe(Resample(w, grid, step, range, kernel, arange).well, reference, None, None, false, discreteLabels, kernel).table.Ok?
  {
    var w2 := Resample(w, grid, step, range, kernel, arange).well;
    ResampleAligns(w, grid, step, range, kernel, arange);
    assert |w2.props.keys| > 0;
    var ref := Reference(w2, reference);
    assert ref.Ok?;
    assert ref.value.depth == w2.depthGrid.value;
    var names := Selected(w2, None, None);
    forall i | 0 <= i < |names| ensures w2.props.entries[names[i]].depth == ref.value.depth {
      assert names[i] in w2.props.entries;
    }
    assert OnGrid(w2, names, ref.value.depth);
    assert ToDataframe(w2, reference, None, None, false, discreteLabels, kernel).table
      == ExportTable(w2, ref.value.depth, None, None, false, discreteLabels);
  }
}
