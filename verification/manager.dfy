/** The well registry (WellDataManager): wells keyed by "well_" followed by
    the sanitized well name, in the order they were added, with a map from
    each original name to its key; and the checks and the surface code table
    that load_tops builds before it touches any well. */
module Manager {
  import opened Common
  import opened Dicts
  import Sorting
  import Wells

  /** The prefix that makes a sanitized well name an attribute name. */
  const Prefix: string := "well_"

  function WellKey(sanitized: string): string
  {
    Prefix + sanitized
  }

  predicate HasPrefix(s: string, p: string)
  {
    |p| <= |s| && s[..|p|] == p
  }

  /** `_wells` and `_name_mapping`. */
  datatype Manager = Manager(wells: Dict<Wells.Well>, names: map<string, string>)

  /** Every well is valid and stored under the key of its own sanitized name,
      and every original name maps to a stored well of that name. */
  ghost predicate ManagerValid(m: Manager)
  {
    && Valid(m.wells)
    && (forall k :: k in m.wells.entries ==>
          Wells.WellValid(m.wells.entries[k]) && k == WellKey(m.wells.entries[k].sanitizedName))
    && (forall n :: n in m.names ==> m.names[n] in m.wells.entries && m.wells.entries[m.names[n]].name == n)
  }

  function NewManager(): (m: Manager)
    ensures ManagerValid(m) && |m.wells.keys| == 0 && |m.names| == 0
  {
    Manager(Empty(), map[])
  }

  // -------------------------------------------------------------- add_well

  /** add_well: the well under the name's key, created empty (and the name
      mapped to the key) when there is none. */
  function AddWell(m: Manager, wellName: string, sanitize: string -> string): (r: (Manager, Wells.Well))
    requires ManagerValid(m)
    ensures ManagerValid(r.0)
    ensures WellKey(sanitize(wellName)) in r.0.wells.entries && r.0.wells.entries[WellKey(sanitize(wellName))] == r.1
    ensures WellKey(sanitize(wellName)) in m.wells.entries ==> r == (m, m.wells.entries[WellKey(sanitize(wellName))])
    ensures WellKey(sanitize(wellName)) !in m.wells.entries ==>
      && r.1 == Wells.NewWell(wellName, sanitize(wellName))
      && r.0.wells.keys == m.wells.keys + [WellKey(sanitize(wellName))]
      && (forall k :: k in m.wells.entries ==> k in r.0.wells.entries && r.0.wells.entries[k] == m.wells.entries[k])
      && r.0.names == m.names[wellName := WellKey(sanitize(wellName))]
  {
    var s := sanitize(wellName);
    var key := WellKey(s);
    if key in m.wells.entries then (m, m.wells.entries[key])
    else
      var w := Wells.NewWell(wellName, s);
      (Manager(Put(m.wells, key, w), m.names[wellName := key]), w)
  }

  /** Adding a name twice is adding it once. */
  lemma AddWellIdempotent(m: Manager, wellName: string, sanitize: string -> string)
    requires ManagerValid(m)
    ensures AddWell(AddWell(m, wellName, sanitize).0, wellName, sanitize) == AddWell(m, wellName, sanitize)
  {
  }

  /** The registry grows by at most one well, and only when the key was new. */
  lemma AddWellCount(m: Manager, wellName: string, sanitize: string -> string)
    requires ManagerValid(m)
    ensures |AddWell(m, wellName, sanitize).0.wells.keys| ==
      |m.wells.keys| + (if WellKey(sanitize(wellName)) in m.wells.entries then 0 else 1)
  {
  }

  // ----------------------------------------------------------------- wells

  /** The `wells` property: the keys, in the order the wells were added. */
  function WellNames(m: Manager): (r: seq<string>)
    requires ManagerValid(m)
    ensures r == m.wells.keys
    ensures Distinct(r) && forall k :: k in r <==> k in m.wells.entries
    ensures forall i :: 0 <= i < |r| ==> HasPrefix(r[i], Prefix)
  {
    forall i | 0 <= i < |m.wells.keys| ensures HasPrefix(m.wells.keys[i], Prefix) {
      var k := m.wells.keys[i];
      assert k == Prefix + m.wells.entries[k].sanitizedName;
    }
    m.wells.keys
  }

  /** A new well is listed last; adding a name already registered leaves the list as it is. */
  lemma WellNamesAfterAdd(m: Manager, wellName: string, sanitize: string -> string)
    requires ManagerValid(m)
    ensures WellNames(AddWell(m, wellName, sanitize).0) ==
      WellNames(m) + (if WellKey(sanitize(wellName)) in m.wells.entries then [] else [WellKey(sanitize(wellName))])
  {
  }

  /** Removing a well drops its key and keeps the others in order. */
  lemma WellNamesAfterRemove(m: Manager, name: string, sanitize: string -> string)
    requires ManagerValid(m) && RemoveWell(m, name, sanitize).Ok?
    ensures WellNames(RemoveWell(m, name, sanitize).value) == Without(WellNames(m), ResolveKey(m, name, sanitize).value)
  {
  }

  // -------------------------------------------------------------- get_well

  /** The key get_well resolves a name to: the name itself, then the name
      with the prefix when it lacks one, then the key of the sanitized name. */
  function ResolveKey(m: Manager, name: string, sanitize: string -> string): (r: Option<string>)
    ensures r.Some? ==> r.value in m.wells.entries
    ensures name in m.wells.entries ==> r == Some(name)
    ensures name !in m.wells.entries && !HasPrefix(name, Prefix) && Prefix + name in m.wells.entries ==>
      r == Some(Prefix + name)
    ensures name !in m.wells.entries && (HasPrefix(name, Prefix) || Prefix + name !in m.wells.entries) ==>
      r == (if WellKey(sanitize(name)) in m.wells.entries then Some(WellKey(sanitize(name))) else None)
  {
    if name in m.wells.entries then Some(name)
    else if !HasPrefix(name, Prefix) && Prefix + name in m.wells.entries then Some(Prefix + name)
    else if WellKey(sanitize(name)) in m.wells.entries then Some(WellKey(sanitize(name)))
    else None
  }

  /** get_well: the well under the resolved key, or a KeyError. */
  function GetWell(m: Manager, name: string, sanitize: string -> string): (r: Result<Wells.Well>)
    ensures r.Err? <==> ResolveKey(m, name, sanitize).None?
    ensures r.Err? ==> r.error == KeyError
    ensures r.Ok? ==> r.value == m.wells.entries[ResolveKey(m, name, sanitize).value]
  {
    var key := ResolveKey(m, name, sanitize);
    if key.None? then Err(KeyError) else Ok(m.wells.entries[key.value])
  }

  /** A name not found is a KeyError exactly when none of the three candidate keys is stored. */
  lemma GetWellNotFound(m: Manager, name: string, sanitize: string -> string)
    ensures GetWell(m, name, sanitize).Err? <==>
      && name !in m.wells.entries
      && (HasPrefix(name, Prefix) || Prefix + name !in m.wells.entries)
      && WellKey(sanitize(name)) !in m.wells.entries
  {
  }

  /** Every stored well is found under its own key. */
  lemma GetWellByKey(m: Manager, key: string, sanitize: string -> string)
    requires key in m.wells.entries
    ensures GetWell(m, key, sanitize) == Ok(m.wells.entries[key])
  {
  }

  /** A name just added resolves to the key it was added under, unless the
      name itself (or the name with the prefix) is the key of another well
      already stored. */
  lemma ResolveAfterAdd(m: Manager, wellName: string, sanitize: string -> string)
    requires ManagerValid(m)
    requires wellName !in m.wells.entries
    requires HasPrefix(wellName, Prefix) || Prefix + wellName !in m.wells.entries
    ensures ResolveKey(AddWell(m, wellName, sanitize).0, wellName, sanitize) == Some(WellKey(sanitize(wellName)))
  {
    var a := AddWell(m, wellName, sanitize).0;
    var key := WellKey(sanitize(wellName));
    assert forall k :: k in a.wells.entries ==> k in m.wells.entries || k == key;
  }

  /** So get_well finds the well add_well returned. */
  lemma GetWellAfterAdd(m: Manager, wellName: string, sanitize: string -> string)
    requires ManagerValid(m)
    requires wellName !in m.wells.entries
    requires HasPrefix(wellName, Prefix) || Prefix + wellName !in m.wells.entries
    ensures GetWell(AddWell(m, wellName, sanitize).0, wellName, sanitize) == Ok(AddWell(m, wellName, sanitize).1)
  {
    ResolveAfterAdd(m, wellName, sanitize);
  }

  // ----------------------------------------------------------- remove_well

  /** remove_well: the well get_well finds is deleted under the key of its
      sanitized name, and its original name is unmapped when mapped; a name
      get_well cannot resolve is its KeyError. */
  function RemoveWell(m: Manager, name: string, sanitize: string -> string): (r: Result<Manager>)
    requires ManagerValid(m)
    ensures r.Err? <==> GetWell(m, name, sanitize).Err?
    ensures r.Err? ==> r.error == KeyError
    ensures r.Ok? ==>
      var key := ResolveKey(m, name, sanitize).value;
      var w := m.wells.entries[key];
      && ManagerValid(r.value)
      && r.value.wells.keys == Without(m.wells.keys, key)
      && key !in r.value.wells.entries
      && (forall k :: k != key ==> (k in r.value.wells.entries <==> k in m.wells.entries))
      && (forall k :: k != key && k in m.wells.entries ==> r.value.wells.entries[k] == m.wells.entries[k])
      && w.name !in r.value.names
      && (forall n :: n != w.name ==> (n in r.value.names <==> n in m.names))
      && (forall n :: n != w.name && n in m.names ==> r.value.names[n] == m.names[n])
  {
    var found := GetWell(m, name, sanitize);
    if found.Err? then Err(found.error)
    else
      var w := found.value;
      var key := WellKey(w.sanitizedName);
      var names := if w.name in m.names then m.names - {w.name} else m.names;
      Ok(Manager(Remove(m.wells, key), names))
  }

  /** Removing a well that was just added under a new key restores the
      registry, and leaves the name unmapped. */
  lemma RemoveAfterAdd(m: Manager, wellName: string, sanitize: string -> string)
    requires ManagerValid(m)
    requires WellKey(sanitize(wellName)) !in m.wells.entries
    requires wellName !in m.wells.entries
    requires HasPrefix(wellName, Prefix) || Prefix + wellName !in m.wells.entries
    ensures RemoveWell(AddWell(m, wellName, sanitize).0, wellName, sanitize)
      == Ok(Manager(m.wells, m.names - {wellName}))
  {
    var key := WellKey(sanitize(wellName));
    var (a, w) := AddWell(m, wellName, sanitize);
    ResolveAfterAdd(m, wellName, sanitize);
    assert w.name == wellName && WellKey(w.sanitizedName) == key && wellName in a.names;
    assert RemoveWell(a, wellName, sanitize) == Ok(Manager(Remove(a.wells, key), a.names - {wellName}));
    assert a.wells == Put(m.wells, key, w);
    RemoveAfterPut(m.wells, key, w);
    assert a.names == m.names[wellName := key];
    UnmapAfterUpdate(m.names, wellName, key);
  }

  // --------------------------------------------------------------- load_las

  /** The manager's load_las for one parsed file: the well of the header's
      name is created when absent, then the file is loaded into it. A file
      whose name sanitizes to the key of a well of another name is refused
      by that well. */
  function LoadLas(m: Manager, las: Wells.LasTable, sanitizeWell: string -> string, sanitize: string -> string): (r: (Manager, Option<Error>))
    requires ManagerValid(m) && Wells.Rectangular(las)
    ensures ManagerValid(r.0)
    ensures WellKey(sanitizeWell(las.wellName)) in r.0.wells.entries
    ensures r.0.wells.keys == AddWell(m, las.wellName, sanitizeWell).0.wells.keys
    ensures |m.wells.keys| <= |r.0.wells.keys| && r.0.wells.keys[..|m.wells.keys|] == m.wells.keys
    ensures r.1 == Wells.LoadLas(AddWell(m, las.wellName, sanitizeWell).1, las, sanitize).error
    ensures r.0.wells.entries[WellKey(sanitizeWell(las.wellName))]
      == Wells.LoadLas(AddWell(m, las.wellName, sanitizeWell).1, las, sanitize).well
    ensures forall k :: k in m.wells.entries && k != WellKey(sanitizeWell(las.wellName)) ==>
      k in r.0.wells.entries && r.0.wells.entries[k] == m.wells.entries[k]
    ensures r.0.names == AddWell(m, las.wellName, sanitizeWell).0.names
  {
    var key := WellKey(sanitizeWell(las.wellName));
    var (m1, w) := AddWell(m, las.wellName, sanitizeWell);
    var loaded := Wells.LoadLas(w, las, sanitize);
    ReplaceWell(m1, key, loaded.well);
    (Manager(Put(m1.wells, key, loaded.well), m1.names), loaded.error)
  }

  /** Storing a changed well under its own key keeps the registry valid. */
  lemma ReplaceWell(m: Manager, key: string, w: Wells.Well)
    requires ManagerValid(m) && key in m.wells.entries && Wells.WellValid(w)
    requires w.name == m.wells.entries[key].name && w.sanitizedName == m.wells.entries[key].sanitizedName
    ensures ManagerValid(Manager(Put(m.wells, key, w), m.names))
  {
  }

  /** A file whose well is new is never refused for its name; a file whose
      name differs from that of the well already under its key always is. */
  lemma LoadLasNameCheck(m: Manager, las: Wells.LasTable, sanitizeWell: string -> string, sanitize: string -> string)
    requires ManagerValid(m) && Wells.Rectangular(las)
    ensures WellKey(sanitizeWell(las.wellName)) !in m.wells.entries ==>
      LoadLas(m, las, sanitizeWell, sanitize).1 != Some(WellNameMismatchError)
    ensures (WellKey(sanitizeWell(las.wellName)) in m.wells.entries
        && m.wells.entries[WellKey(sanitizeWell(las.wellName))].name != las.wellName) ==>
      LoadLas(m, las, sanitizeWell, sanitize) == (m, Some(WellNameMismatchError))
  {
    var key := WellKey(sanitizeWell(las.wellName));
    var (m1, w) := AddWell(m, las.wellName, sanitizeWell);
    if key !in m.wells.entries {
      assert w.name == las.wellName;
    } else if m.wells.entries[key].name != las.wellName {
      assert m1 == m && w == m.wells.entries[key];
      assert Wells.LoadLas(w, las, sanitize) == Wells.Step(w, Some(WellNameMismatchError));
      PutSame(m.wells, key);
    }
  }

  /** The list form of load_las: the files are loaded one after the other,
      and the first error stops the loop with the earlier files loaded. */
  function LoadLasFiles(m: Manager, files: seq<Wells.LasTable>, sanitizeWell: string -> string, sanitize: string -> string): (r: (Manager, Option<Error>))
    requires ManagerValid(m) && forall i :: 0 <= i < |files| ==> Wells.Rectangular(files[i])
    ensures ManagerValid(r.0)
    decreases |files|
  {
    if |files| == 0 then (m, None)
    else
      var first := LoadLas(m, files[0], sanitizeWell, sanitize);
      if first.1.Some? then first
      else LoadLasFiles(first.0, Tail(files), sanitizeWell, sanitize)
  }

  function Tail(files: seq<Wells.LasTable>): (r: seq<Wells.LasTable>)
    requires |files| > 0 && forall i :: 0 <= i < |files| ==> Wells.Rectangular(files[i])
    ensures |r| == |files| - 1 && forall i :: 0 <= i < |r| ==> r[i] == files[i + 1] && Wells.Rectangular(r[i])
  {
    files[1..]
  }

  /** Loading a list keeps every well already registered, in its place; an
      error comes from one of the files; when there is none, every file's
      well is registered. */
  lemma {:induction false} LoadLasFilesKeys(m: Manager, files: seq<Wells.LasTable>, sanitizeWell: string -> string, sanitize: string -> string)
    requires ManagerValid(m) && forall i :: 0 <= i < |files| ==> Wells.Rectangular(files[i])
    ensures
      var r := LoadLasFiles(m, files, sanitizeWell, sanitize);
      && |m.wells.keys| <= |r.0.wells.keys| && r.0.wells.keys[..|m.wells.keys|] == m.wells.keys
      && (r.1.Some? ==> |files| > 0)
      && (r.1.None? ==> forall i :: 0 <= i < |files| ==> WellKey(sanitizeWell(files[i].wellName)) in r.0.wells.entries)
    decreases |files|
  {
    if |files| > 0 {
      var first := LoadLas(m, files[0], sanitizeWell, sanitize);
      if first.1.None? {
        var rest := LoadLasFiles(first.0, Tail(files), sanitizeWell, sanitize);
        LoadLasFilesKeys(first.0, Tail(files), sanitizeWell, sanitize);
        KeepsLoaded(m, first.0, rest.0, WellKey(sanitizeWell(files[0].wellName)));
        if rest.1.None? {
          TailKeys(files, rest.0, sanitizeWell);
        }
      }
    }
  }

  /** The keys of the later files and of the first are the keys of all files. */
  lemma TailKeys(files: seq<Wells.LasTable>, m: Manager, sanitizeWell: string -> string)
    requires |files| > 0 && forall i :: 0 <= i < |files| ==> Wells.Rectangular(files[i])
    requires WellKey(sanitizeWell(files[0].wellName)) in m.wells.entries
    requires forall i :: 0 <= i < |Tail(files)| ==> WellKey(sanitizeWell(Tail(files)[i].wellName)) in m.wells.entries
    ensures forall i :: 0 <= i < |files| ==> WellKey(sanitizeWell(files[i].wellName)) in m.wells.entries
  {
    forall i | 0 < i < |files| ensures WellKey(sanitizeWell(files[i].wellName)) in m.wells.entries {
      assert Tail(files)[i - 1] == files[i];
    }
  }

  /** A key of a registry whose key order is extended stays a key. */
  lemma KeepsLoaded(m: Manager, m1: Manager, m2: Manager, key: string)
    requires ManagerValid(m) && ManagerValid(m1) && ManagerValid(m2)
    requires |m.wells.keys| <= |m1.wells.keys| && m1.wells.keys[..|m.wells.keys|] == m.wells.keys
    requires |m1.wells.keys| <= |m2.wells.keys| && m2.wells.keys[..|m1.wells.keys|] == m1.wells.keys
    requires key in m1.wells.entries
    ensures |m.wells.keys| <= |m2.wells.keys| && m2.wells.keys[..|m.wells.keys|] == m.wells.keys
    ensures key in m2.wells.entries
  {
    PrefixOfPrefix(m.wells.keys, m1.wells.keys, m2.wells.keys);
    var i :| 0 <= i < |m1.wells.keys| && m1.wells.keys[i] == key;
    assert m2.wells.keys[i] == key;
  }

  /** Loading one file alone is the single-file load_las; loading two lists
      one after the other is loading them together, stopping at the first error. */
  lemma {:induction false} LoadLasFilesAppend(m: Manager, a: seq<Wells.LasTable>, b: seq<Wells.LasTable>, sanitizeWell: string -> string, sanitize: string -> string)
    requires ManagerValid(m) && forall i :: 0 <= i < |a + b| ==> Wells.Rectangular((a + b)[i])
    ensures forall i :: 0 <= i < |a| ==> Wells.Rectangular(a[i])
    ensures forall i :: 0 <= i < |b| ==> Wells.Rectangular(b[i])
    ensures
      var ra := LoadLasFiles(m, a, sanitizeWell, sanitize);
      LoadLasFiles(m, a + b, sanitizeWell, sanitize) ==
        if ra.1.Some? then ra else LoadLasFiles(ra.0, b, sanitizeWell, sanitize)
    decreases |a|
  {
    assert forall i :: 0 <= i < |a| ==> a[i] == (a + b)[i];
    assert forall i :: 0 <= i < |b| ==> b[i] == (a + b)[|a| + i];
    if |a| == 0 {
      assert a + b == b;
    } else {
      var first := LoadLas(m, a[0], sanitizeWell, sanitize);
      if first.1.None? {
        assert (a + b)[0] == a[0];
        assert Tail(a + b) == Tail(a) + b;
        LoadLasFilesAppend(first.0, Tail(a), b, sanitizeWell, sanitize);
      }
    }
  }

  lemma LoadLasFilesSingle(m: Manager, las: Wells.LasTable, sanitizeWell: string -> string, sanitize: string -> string)
    requires ManagerValid(m) && Wells.Rectangular(las)
    ensures LoadLasFiles(m, [las], sanitizeWell, sanitize) == LoadLas(m, las, sanitizeWell, sanitize)
  {
    assert Tail([las]) == [];
  }

  // -------------------------------------------------------------- load_tops

  /** The required columns of load_tops absent from the frame, in the order
      well, surface, depth. */
  function MissingColumns(columns: seq<string>, wellCol: string, discreteCol: string, depthCol: string): (r: seq<string>)
    ensures forall c :: c in r <==> c in [wellCol, discreteCol, depthCol] && c !in columns
    ensures |r| == 0 <==> wellCol in columns && discreteCol in columns && depthCol in columns
  {
    var r := Fresh([wellCol, discreteCol, depthCol], columns);
    assert |r| > 0 ==> r[0] in r;
    r
  }

  /** The column check load_tops makes first: a ValueError naming the
      missing columns, raised before any well is created. */
  function CheckTopsColumns(m: Manager, columns: seq<string>, wellCol: string, discreteCol: string, depthCol: string): (r: (Manager, Option<Error>))
    ensures r.0 == m
    ensures r.1.None? <==> wellCol in columns && discreteCol in columns && depthCol in columns
    ensures r.1.Some? ==> r.1.value == ValueError(MissingColumns(columns, wellCol, discreteCol, depthCol))
  {
    var missing := MissingColumns(columns, wellCol, discreteCol, depthCol);
    if |missing| > 0 then (m, Some(ValueError(missing))) else (m, None)
  }

  /** The distinct surface names of the tops frame, in ascending order. */
  function Surfaces(values: seq<string>): (r: seq<string>)
    ensures Sorting.StrictlySorted(r, Sorting.StringLess)
    ensures Distinct(r)
    ensures forall v :: v in r <==> v in values
  {
    Sorting.StringLessIsStrictTotal();
    var r := Sorting.SortedDistinct(values, Sorting.StringLess);
    Sorting.StrictlySortedDistinct(r, Sorting.StringLess);
    r
  }

  /** The position of a member of a sequence without repeats. */
  function IndexOf(s: seq<string>, x: string): (i: nat)
    requires x in s
    ensures i < |s| && s[i] == x
  {
    if s[0] == x then 0 else 1 + IndexOf(s[1..], x)
  }

  lemma IndexOfUnique(s: seq<string>, i: nat)
    requires Distinct(s) && i < |s|
    ensures IndexOf(s, s[i]) == i
  {
    var j := IndexOf(s, s[i]);
    assert s[j] == s[i];
  }

  /** The code table of load_tops: each surface is coded by its position in
      the ascending list of distinct surfaces. */
  function ValueToCode(values: seq<string>): (r: map<string, int>)
    ensures forall v :: v in r <==> v in values
    ensures forall v :: v in r ==> 0 <= r[v] < |Surfaces(values)| && Surfaces(values)[r[v]] == v
  {
    var u := Surfaces(values);
    map v | v in u :: IndexOf(u, v)
  }

  /** The label table of load_tops: the code table read backwards, from each
      code to the surface it stands for. */
  function CodeToValue(values: seq<string>): (r: map<int, string>)
    ensures forall c :: c in r ==> 0 <= c < |Surfaces(values)| && r[c] == Surfaces(values)[c]
    ensures forall v :: v in ValueToCode(values) ==> ValueToCode(values)[v] in r && r[ValueToCode(values)[v]] == v
  {
    var codes := ValueToCode(values);
    CodesInjective(values);
    map v | v in codes :: codes[v] := v
  }

  lemma CodesInjective(values: seq<string>)
    ensures forall a, b :: a in ValueToCode(values) && b in ValueToCode(values) && a != b ==>
      ValueToCode(values)[a] != ValueToCode(values)[b]
  {
    var u := Surfaces(values);
    forall a, b | a in ValueToCode(values) && b in ValueToCode(values) && a != b
      ensures ValueToCode(values)[a] != ValueToCode(values)[b]
    {
      assert u[IndexOf(u, a)] == a && u[IndexOf(u, b)] == b;
    }
  }

  /** The surfaces get the codes 0 to k-1, k being the number of distinct
      surfaces, in ascending order of their names. */
  lemma CodesOrdered(values: seq<string>)
    ensures
      var codes := ValueToCode(values);
      && (forall v :: v in codes ==> 0 <= codes[v] < |Surfaces(values)|)
      && (forall a, b :: a in codes && b in codes ==> (Sorting.StringLess(a, b) <==> codes[a] < codes[b]))
  {
    var u := Surfaces(values);
    var codes := ValueToCode(values);
    forall a, b | a in codes && b in codes ensures Sorting.StringLess(a, b) <==> codes[a] < codes[b] {
      var i, j := IndexOf(u, a), IndexOf(u, b);
      assert codes[a] == i && codes[b] == j;
      Sorting.StringLessIrreflexive(a);
      if i < j {
        assert Sorting.StringLess(u[i], u[j]);
      } else if j < i {
        assert Sorting.StringLess(b, a) by {
          assert Sorting.StringLess(u[j], u[i]);
        }
        if Sorting.StringLess(a, b) {
          Sorting.StringLessTransitive(a, b, a);
        }
      }
    }
  }

  /** The label table maps exactly the codes 0 to k-1 and is the inverse of
      the code table. */
  lemma LabelsInvertCodes(values: seq<string>)
    ensures
      var codes := ValueToCode(values);
      var labels := CodeToValue(values);
      && (forall c :: c in labels <==> 0 <= c < |Surfaces(values)|)
      && (forall v :: v in codes ==> codes[v] in labels && labels[codes[v]] == v)
      && (forall c :: c in labels ==> labels[c] in codes && codes[labels[c]] == c)
  {
    var u := Surfaces(values);
    var codes := ValueToCode(values);
    var labels := CodeToValue(values);
    CodesInjective(values);
    forall c | 0 <= c < |u| ensures c in labels && labels[c] == u[c] {
      IndexOfUnique(u, c);
      assert u[c] in codes && codes[u[c]] == c;
    }
    forall c | c in labels ensures 0 <= c < |u| {
      var v :| v in codes && codes[v] == c;
    }
  }

  /** The surfaces get the codes 0 to k-1 in ascending order of their names,
      k being the number of distinct surfaces; the label table is the exact
      inverse of the code table. */
  lemma CodeMapping(values: seq<string>)
    ensures
      var codes := ValueToCode(values);
      var labels := CodeToValue(values);
      var k := |Surfaces(values)|;
      && (forall v :: v in codes ==> 0 <= codes[v] < k)
      && (forall c :: c in labels <==> 0 <= c < k)
      && (forall v :: v in codes ==> codes[v] in labels && labels[codes[v]] == v)
      && (forall c :: c in labels ==> labels[c] in codes && codes[labels[c]] == c)
      && (forall a, b :: a in codes && b in codes ==> (Sorting.StringLess(a, b) <==> codes[a] < codes[b]))
  {
    CodesOrdered(values);
    LabelsInvertCodes(values);
  }
}
