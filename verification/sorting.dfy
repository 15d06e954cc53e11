/** Sorting primitives the toolkit borrows from numpy and Python: a key sort
    (argsort, np.sort), distinct sorted values (np.unique, sorted(set)) and the
    lexicographic order Python uses for strings. */
module Sorting {

  /** `s` is ascending under `key`. */
  ghost predicate SortedBy<X>(s: seq<X>, key: X -> real)
  {
    forall i, j :: 0 <= i < j < |s| ==> key(s[i]) <= key(s[j])
  }

  function InsertBy<X(==)>(x: X, s: seq<X>, key: X -> real): (r: seq<X>)
    requires SortedBy(s, key)
    ensures SortedBy(r, key)
    ensures multiset(r) == multiset(s) + multiset{x}
    ensures |r| == |s| + 1
    ensures r[0] == x || (|s| > 0 && r[0] == s[0])
  {
    if |s| == 0 then [x]
    else if key(x) <= key(s[0]) then [x] + s
    else
      var t := InsertBy(x, s[1..], key);
      assert s == [s[0]] + s[1..];
      [s[0]] + t
  }

  /** Ascending permutation of `s` under `key`: an insertion sort that places
      each element before the first one of equal or larger key in the sorted
      rest, so it is stable: equal keys keep their input order. numpy's default
      argsort promises no order among ties; this is one order it may pick. */
  function SortBy<X(==)>(s: seq<X>, key: X -> real): (r: seq<X>)
    ensures SortedBy(r, key)
    ensures multiset(r) == multiset(s)
    ensures |r| == |s|
  {
    if |s| == 0 then []
    else
      assert s == [s[0]] + s[1..];
      InsertBy(s[0], SortBy(s[1..], key), key)
  }

  /** Every element of a sorted copy comes from the original and vice versa. */
  lemma SortByMembers<X>(s: seq<X>, key: X -> real)
    ensures forall y :: y in SortBy(s, key) <==> y in s
  {
    var r := SortBy(s, key);
    forall y ensures y in r <==> y in s {
      assert y in r <==> y in multiset(r);
      assert y in s <==> y in multiset(s);
    }
  }

  /** Every element of the original has a position in the sorted copy. */
  lemma SortedPosition<X>(s: seq<X>, key: X -> real, i: int) returns (k: int)
    requires 0 <= i < |s|
    ensures 0 <= k < |s| && SortBy(s, key)[k] == s[i]
  {
    var r := SortBy(s, key);
    assert s[i] in multiset(s);
    assert s[i] in multiset(r);
    k :| 0 <= k < |r| && r[k] == s[i];
  }

  /** Every element of the sorted copy has a position in the original. */
  lemma SortedOrigin<X>(s: seq<X>, key: X -> real, k: int) returns (i: int)
    requires 0 <= k < |s|
    ensures 0 <= i < |s| && s[i] == SortBy(s, key)[k]
  {
    var r := SortBy(s, key);
    assert r[k] in multiset(r);
    assert r[k] in multiset(s);
    i :| 0 <= i < |s| && s[i] == r[k];
  }

  /** `lt` is irreflexive, transitive and connected. */
  ghost predicate StrictTotal<T(!new)>(lt: (T, T) -> bool)
  {
    && (forall a :: !lt(a, a))
    && (forall a, b, c :: lt(a, b) && lt(b, c) ==> lt(a, c))
    && (forall a, b :: a != b ==> lt(a, b) || lt(b, a))
  }

  ghost predicate StrictlySorted<T>(s: seq<T>, lt: (T, T) -> bool)
  {
    forall i, j :: 0 <= i < j < |s| ==> lt(s[i], s[j])
  }

  function InsertDistinct<T(==,!new)>(x: T, s: seq<T>, lt: (T, T) -> bool): (r: seq<T>)
    requires StrictTotal(lt) && StrictlySorted(s, lt)
    ensures StrictlySorted(r, lt)
    ensures forall y :: y in r <==> y == x || y in s
  {
    if |s| == 0 then [x]
    else if x == s[0] then s
    else if lt(x, s[0]) then [x] + s
    else
      var t := InsertDistinct(x, s[1..], lt);
      assert forall y :: y in s[1..] ==> lt(s[0], y);
      [s[0]] + t
  }

  /** The distinct elements of `s` in strictly ascending order. */
  function SortedDistinct<T(==,!new)>(s: seq<T>, lt: (T, T) -> bool): (r: seq<T>)
    requires StrictTotal(lt)
    ensures StrictlySorted(r, lt)
    ensures forall y :: y in r <==> y in s
  {
    if |s| == 0 then []
    else
      var r := InsertDistinct(s[|s| - 1], SortedDistinct(s[..|s| - 1], lt), lt);
      assert forall y :: y in s <==> y in s[..|s| - 1] || y == s[|s| - 1];
      r
  }

  /** A strictly sorted sequence has no repeated element. */
  lemma StrictlySortedDistinct<T(!new)>(s: seq<T>, lt: (T, T) -> bool)
    requires StrictTotal(lt) && StrictlySorted(s, lt)
    ensures forall i, j :: 0 <= i < j < |s| ==> s[i] != s[j]
  {
  }

  /** Python's ordering of strings: lexicographic by code point. */
  predicate StringLess(a: string, b: string)
    decreases |a|
  {
    if |a| == 0 then |b| > 0
    else if |b| == 0 then false
    else if a[0] == b[0] then StringLess(a[1..], b[1..])
    else a[0] < b[0]
  }

  lemma {:induction false} StringLessIrreflexive(a: string)
    ensures !StringLess(a, a)
    decreases |a|
  {
    if |a| > 0 {
      StringLessIrreflexive(a[1..]);
    }
  }

  lemma {:induction false} StringLessTransitive(a: string, b: string, c: string)
    requires StringLess(a, b) && StringLess(b, c)
    ensures StringLess(a, c)
    decreases |a|
  {
    if |a| > 0 && a[0] == b[0] && b[0] == c[0] {
      StringLessTransitive(a[1..], b[1..], c[1..]);
    }
  }

  lemma {:induction false} StringLessConnected(a: string, b: string)
    requires a != b
    ensures StringLess(a, b) || StringLess(b, a)
    decreases |a|
  {
    if |a| > 0 && |b| > 0 && a[0] == b[0] {
      assert a == [a[0]] + a[1..] && b == [b[0]] + b[1..];
      StringLessConnected(a[1..], b[1..]);
    }
  }

  lemma StringLessIsStrictTotal()
    ensures StrictTotal(StringLess)
  {
    forall a: string ensures !StringLess(a, a) {
      StringLessIrreflexive(a);
    }
    forall a: string, b: string, c: string | StringLess(a, b) && StringLess(b, c)
      ensures StringLess(a, c)
    {
      StringLessTransitive(a, b, c);
    }
    forall a: string, b: string | a != b ensures StringLess(a, b) || StringLess(b, a) {
      StringLessConnected(a, b);
    }
  }

  predicate RealLess(a: real, b: real)
  {
    a < b
  }

  lemma RealLessIsStrictTotal()
    ensures StrictTotal(RealLess)
  {
  }
}
