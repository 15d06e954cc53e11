/** Python's insertion-ordered `dict` with string keys: the registries of
    properties in a well, of wells in a manager, and the column table that a
    DataFrame export builds. Assigning to a present key keeps its position;
    `del` removes the key and keeps the order of the others. */
module Dicts {

  datatype Dict<V> = Dict(keys: seq<string>, entries: map<string, V>)

  ghost predicate Distinct<T>(s: seq<T>)
  {
    forall i, j :: 0 <= i < j < |s| ==> s[i] != s[j]
  }

  /** The order lists every key exactly once. */
  ghost predicate Valid<V>(d: Dict<V>)
  {
    Distinct(d.keys) && forall k :: k in d.entries <==> k in d.keys
  }

  function Empty<V>(): (d: Dict<V>)
    ensures Valid(d) && |d.keys| == 0 && |d.entries| == 0
  {
    Dict([], map[])
  }

  /** Assignment to one key: an existing key keeps its place, a new one goes last. */
  function Put<V>(d: Dict<V>, k: string, v: V): (r: Dict<V>)
    requires Valid(d)
    ensures Valid(r)
    ensures r.entries == d.entries[k := v]
    ensures r.keys == if k in d.entries then d.keys else d.keys + [k]
    ensures |d.keys| <= |r.keys| && r.keys[..|d.keys|] == d.keys
  {
    if k in d.entries then Dict(d.keys, d.entries[k := v])
    else Dict(d.keys + [k], d.entries[k := v])
  }

  /** `s` without the occurrences of `k`, in order. */
  function Without(s: seq<string>, k: string): (r: seq<string>)
    ensures forall j :: j in r <==> j in s && j != k
    ensures |r| <= |s|
  {
    if |s| == 0 then []
    else Without(s[..|s| - 1], k) + (if s[|s| - 1] == k then [] else [s[|s| - 1]])
  }

  lemma {:induction false} WithoutDistinct(s: seq<string>, k: string)
    requires Distinct(s)
    ensures Distinct(Without(s, k))
    decreases |s|
  {
    if |s| > 0 {
      var n := |s|;
      assert Distinct(s[..n - 1]);
      WithoutDistinct(s[..n - 1], k);
      assert s[n - 1] !in s[..n - 1];
    }
  }

  /** Removing a key the list does not hold changes nothing. */
  lemma {:induction false} WithoutAbsent(s: seq<string>, k: string)
    requires k !in s
    ensures Without(s, k) == s
    decreases |s|
  {
    if |s| > 0 {
      WithoutAbsent(s[..|s| - 1], k);
      assert s[..|s| - 1] + [s[|s| - 1]] == s;
    }
  }

  /** `del d[k]` on a present key. */
  function Remove<V>(d: Dict<V>, k: string): (r: Dict<V>)
    requires Valid(d)
    ensures Valid(r)
    ensures k !in r.entries
    ensures forall j :: j != k ==> (j in r.entries <==> j in d.entries)
    ensures forall j :: j != k && j in d.entries ==> r.entries[j] == d.entries[j]
    ensures r.keys == Without(d.keys, k)
    ensures r.entries == d.entries - {k}
  {
    WithoutDistinct(d.keys, k);
    Dict(Without(d.keys, k), d.entries - {k})
  }

  /** Deleting a key just added restores the dict. */
  lemma RemoveAfterPut<V>(d: Dict<V>, k: string, v: V)
    requires Valid(d) && k !in d.entries
    ensures Remove(Put(d, k, v), k) == d
  {
    var p := Put(d, k, v);
    assert p.keys[..|p.keys| - 1] == d.keys;
    WithoutAbsent(d.keys, k);
    assert Remove(p, k).keys == d.keys;
    UnmapAfterUpdate(d.entries, k, v);
    UnmapAbsent(d.entries, k);
  }

  /** Assigning a key the value it holds changes nothing. */
  lemma PutSame<V>(d: Dict<V>, k: string)
    requires Valid(d) && k in d.entries
    ensures Put(d, k, d.entries[k]) == d
  {
    RemapSame(d.entries, k);
  }

  lemma RemapSame<K, V>(m: map<K, V>, k: K)
    requires k in m
    ensures m[k := m[k]] == m
  {
  }

  /** Unmapping a key forgets what it was last mapped to. */
  lemma UnmapAfterUpdate<K, V>(m: map<K, V>, k: K, v: V)
    ensures m[k := v] - {k} == m - {k}
  {
  }

  /** Unmapping a key that is not mapped changes nothing. */
  lemma UnmapAbsent<K, V>(m: map<K, V>, k: K)
    requires k !in m
    ensures m - {k} == m
  {
  }

  /** A prefix of a prefix is a prefix. */
  lemma PrefixOfPrefix<T>(a: seq<T>, b: seq<T>, c: seq<T>)
    requires |a| <= |b| <= |c| && c[..|b|] == b && b[..|a|] == a
    ensures c[..|a|] == a
  {
    assert c[..|a|] == c[..|b|][..|a|];
  }

  /** The values in insertion order (`list(d.values())`). */
  function Values<V>(d: Dict<V>): (r: seq<V>)
    requires Valid(d)
    ensures |r| == |d.keys| && forall i :: 0 <= i < |d.keys| ==> r[i] == d.entries[d.keys[i]]
  {
    seq(|d.keys|, i requires 0 <= i < |d.keys| => d.entries[d.keys[i]])
  }

  /** The elements of `ks` that are not in `present`, in order. */
  function Fresh(ks: seq<string>, present: seq<string>): (r: seq<string>)
    ensures forall k :: k in r <==> k in ks && k !in present
    decreases |ks|
  {
    if |ks| == 0 then []
    else Fresh(ks[..|ks| - 1], present) + (if ks[|ks| - 1] in present then [] else [ks[|ks| - 1]])
  }

  /** Assigning each key of `ks` its value of `vs`, one after the other. */
  function PutAll<V>(d: Dict<V>, ks: seq<string>, vs: seq<V>): (r: Dict<V>)
    requires Valid(d) && |ks| == |vs|
    ensures Valid(r)
    decreases |ks|
  {
    if |ks| == 0 then d
    else
      var n := |ks|;
      Put(PutAll(d, ks[..n - 1], vs[..n - 1]), ks[n - 1], vs[n - 1])
  }

  /** Assigning keys, repeated or not, adds exactly those keys and keeps the
      existing ones in front. */
  lemma PutAllMembers<V>(d: Dict<V>, ks: seq<string>, vs: seq<V>)
    requires Valid(d) && |ks| == |vs|
    ensures forall k :: k in PutAll(d, ks, vs).entries <==> k in d.entries || k in ks
    ensures |d.keys| <= |PutAll(d, ks, vs).keys| && PutAll(d, ks, vs).keys[..|d.keys|] == d.keys
  {
    forall k ensures k in PutAll(d, ks, vs).entries <==> k in d.entries || k in ks {
      PutAllHas(d, ks, vs, k);
    }
    PutAllFront(d, ks, vs);
  }

  lemma {:induction false} PutAllHas<V>(d: Dict<V>, ks: seq<string>, vs: seq<V>, k: string)
    requires Valid(d) && |ks| == |vs|
    ensures k in PutAll(d, ks, vs).entries <==> k in d.entries || k in ks
    decreases |ks|
  {
    if |ks| > 0 {
      var n := |ks|;
      var init, last := ks[..n - 1], ks[n - 1];
      PutAllHas(d, init, vs[..n - 1], k);
      LastMembers(ks);
    }
  }

  lemma LastMembers(ks: seq<string>)
    requires |ks| > 0
    ensures forall k :: k in ks <==> k in ks[..|ks| - 1] || k == ks[|ks| - 1]
  {
    assert ks == ks[..|ks| - 1] + [ks[|ks| - 1]];
  }

  lemma {:induction false} PutAllFront<V>(d: Dict<V>, ks: seq<string>, vs: seq<V>)
    requires Valid(d) && |ks| == |vs|
    ensures |d.keys| <= |PutAll(d, ks, vs).keys| && PutAll(d, ks, vs).keys[..|d.keys|] == d.keys
    decreases |ks|
  {
    if |ks| > 0 {
      var n := |ks|;
      PutAllFront(d, ks[..n - 1], vs[..n - 1]);
      var t := PutAll(d, ks[..n - 1], vs[..n - 1]);
      PrefixOfPrefix(d.keys, t.keys, Put(t, ks[n - 1], vs[n - 1]).keys);
    }
  }

  /** One assignment of a key that is not among the later keys `f`. */
  lemma PutKeysStep<V>(t: Dict<V>, front: seq<string>, f: seq<string>, k: string, v: V)
    requires Valid(t) && t.keys == front + f && k !in f
    ensures Put(t, k, v).keys == front + (f + (if k in front then [] else [k]))
  {
    assert k in t.entries <==> k in front;
    if k !in front {
      assert (front + f) + [k] == front + (f + [k]);
    }
  }

  /** Assigning distinct keys keeps the existing order and appends the new keys in order. */
  lemma {:induction false} PutAllKeys<V>(d: Dict<V>, ks: seq<string>, vs: seq<V>)
    requires Valid(d) && |ks| == |vs| && Distinct(ks)
    ensures PutAll(d, ks, vs).keys == d.keys + Fresh(ks, d.keys)
    decreases |ks|
  {
    if |ks| > 0 {
      var n := |ks|;
      var init, front, last := ks[..|ks| - 1], vs[..n - 1], ks[|ks| - 1];
      assert Distinct(init) && last !in init;
      PutAllKeys(d, init, front);
      PutKeysStep(PutAll(d, init, front), d.keys, Fresh(init, d.keys), last, vs[n - 1]);
      assert PutAll(d, ks, vs) == Put(PutAll(d, init, front), last, vs[n - 1]);
      assert Fresh(ks, d.keys) == Fresh(init, d.keys) + (if last in d.keys then [] else [last]);
    }
  }

  /** Assigning distinct keys after a first one lists the first key, then the
      others that differ from it, in order. */
  lemma PutAllAfterFirst<V>(k: string, v: V, ks: seq<string>, vs: seq<V>)
    requires |ks| == |vs| && Distinct(ks)
    ensures PutAll(Put(Empty(), k, v), ks, vs).keys == [k] + Fresh(ks, [k])
  {
    var d := Put(Empty(), k, v);
    assert d.keys == [k];
    PutAllKeys(d, ks, vs);
  }

  /** After assigning distinct keys each holds its value. */
  lemma {:induction false} PutAllValues<V>(d: Dict<V>, ks: seq<string>, vs: seq<V>)
    requires Valid(d) && |ks| == |vs| && Distinct(ks)
    ensures forall i :: 0 <= i < |ks| ==> ks[i] in PutAll(d, ks, vs).entries && PutAll(d, ks, vs).entries[ks[i]] == vs[i]
    decreases |ks|
  {
    if |ks| > 0 {
      var n := |ks|;
      var init, front := ks[..n - 1], vs[..n - 1];
      assert Distinct(init);
      PutAllValues(d, init, front);
      var r := PutAll(d, ks, vs);
      assert r.entries == PutAll(d, init, front).entries[ks[n - 1] := vs[n - 1]];
      forall i | 0 <= i < n ensures ks[i] in r.entries && r.entries[ks[i]] == vs[i] {
        if i < n - 1 {
          assert ks[i] == init[i] && vs[i] == front[i] && ks[i] != ks[n - 1];
        }
      }
    }
  }

  /** A key not assigned keeps what it held. */
  lemma {:induction false} PutAllKeeps<V>(d: Dict<V>, ks: seq<string>, vs: seq<V>, k: string)
    requires Valid(d) && |ks| == |vs| && k in d.entries && k !in ks
    ensures k in PutAll(d, ks, vs).entries && PutAll(d, ks, vs).entries[k] == d.entries[k]
    decreases |ks|
  {
    if |ks| > 0 {
      var n := |ks|;
      assert k != ks[n - 1] && k !in ks[..n - 1];
      PutAllKeeps(d, ks[..n - 1], vs[..n - 1], k);
    }
  }

  /** After assigning distinct keys the dict holds the old keys and the
      assigned ones; each assigned key holds its value, every other key its own. */
  lemma PutAllEntries<V>(d: Dict<V>, ks: seq<string>, vs: seq<V>)
    requires Valid(d) && |ks| == |vs| && Distinct(ks)
    ensures forall k :: k in PutAll(d, ks, vs).entries <==> k in d.entries || k in ks
    ensures forall i :: 0 <= i < |ks| ==> PutAll(d, ks, vs).entries[ks[i]] == vs[i]
    ensures forall k :: k in d.entries && k !in ks ==> PutAll(d, ks, vs).entries[k] == d.entries[k]
  {
    PutAllKeys(d, ks, vs);
    PutAllValues(d, ks, vs);
    forall k | k in d.entries && k !in ks ensures PutAll(d, ks, vs).entries[k] == d.entries[k] {
      PutAllKeeps(d, ks, vs, k);
    }
  }
}
