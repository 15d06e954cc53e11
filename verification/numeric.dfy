/** Real-number and integer helpers shared by the statistics, grouping and naming code. */
module Numeric {

  /** Sum of a sequence, accumulated from the front (np.sum on a NaN-free array). */
  function Sum(s: seq<real>): real
  {
    if |s| == 0 then 0.0 else Sum(s[..|s| - 1]) + s[|s| - 1]
  }

  lemma {:induction false} SumConcat(a: seq<real>, b: seq<real>)
    ensures Sum(a + b) == Sum(a) + Sum(b)
    decreases |b|
  {
    if |b| == 0 {
      assert a + b == a;
    } else {
      assert (a + b)[..|a + b| - 1] == a + b[..|b| - 1];
      SumConcat(a, b[..|b| - 1]);
    }
  }

  function Abs(x: real): (r: real)
    ensures r >= 0.0 && (r == x || r == -x)
  {
    if x < 0.0 then -x else x
  }

  /** Python's `int()` on a float: truncation toward zero. */
  function Trunc(x: real): (r: int)
    ensures x >= 0.0 ==> r as real <= x < r as real + 1.0
    ensures x < 0.0 ==> r as real - 1.0 < x <= r as real
  {
    if x >= 0.0 then x.Floor else -((-x).Floor)
  }

  /** The source's integrality test `val == int(val)`. */
  predicate IsIntegral(x: real)
  {
    Trunc(x) as real == x
  }

  /** Smallest element (np.min on a non-empty NaN-free array). */
  function MinOf(s: seq<real>): (m: real)
    requires |s| > 0
    ensures m in s
    ensures forall x :: x in s ==> m <= x
  {
    if |s| == 1 then s[0]
    else
      var m := MinOf(s[..|s| - 1]);
      assert forall x :: x in s ==> x in s[..|s| - 1] || x == s[|s| - 1];
      if s[|s| - 1] < m then s[|s| - 1] else m
  }

  /** Largest element (np.max on a non-empty NaN-free array). */
  function MaxOf(s: seq<real>): (m: real)
    requires |s| > 0
    ensures m in s
    ensures forall x :: x in s ==> x <= m
  {
    if |s| == 1 then s[0]
    else
      var m := MaxOf(s[..|s| - 1]);
      assert forall x :: x in s ==> x in s[..|s| - 1] || x == s[|s| - 1];
      if s[|s| - 1] > m then s[|s| - 1] else m
  }

  /** An element that lies below every element is the minimum. */
  lemma MinOfUnique(s: seq<real>, x: real)
    requires x in s && forall y :: y in s ==> x <= y
    ensures MinOf(s) == x
  {
  }

  /** An element that lies above every element is the maximum. */
  lemma MaxOfUnique(s: seq<real>, x: real)
    requires x in s && forall y :: y in s ==> y <= x
    ensures MaxOf(s) == x
  {
  }

  predicate IsDigit(c: char)
  {
    '0' <= c <= '9'
  }

  predicate AllDigits(s: string)
  {
    forall i :: 0 <= i < |s| ==> IsDigit(s[i])
  }

  function DigitChar(d: nat): (c: char)
    requires d < 10
    ensures IsDigit(c) && (c as int) - ('0' as int) == d
  {
    (('0' as int) + d) as char
  }

  /** Decimal rendering of a natural number, as Python's `str` writes it. */
  function NatToString(n: nat): (s: string)
    ensures |s| >= 1 && AllDigits(s)
    decreases n
  {
    if n < 10 then [DigitChar(n)] else NatToString(n / 10) + [DigitChar(n % 10)]
  }

  /** Decimal rendering of an integer (`str(int)` / the `{int(val)}` f-string field). */
  function IntToString(i: int): (s: string)
    ensures |s| >= 1
    ensures i >= 0 <==> AllDigits(s)
  {
    if i < 0 then
      var s := "-" + NatToString(-i);
      assert !IsDigit(s[0]);
      s
    else NatToString(i)
  }

  /** Reads a string of decimal digits back as a number. */
  function ParseNat(s: string): nat
    requires AllDigits(s)
  {
    if |s| == 0 then 0 else 10 * ParseNat(s[..|s| - 1]) + ((s[|s| - 1] as int) - ('0' as int))
  }

  lemma {:induction false} ParseNatToString(n: nat)
    ensures ParseNat(NatToString(n)) == n
    decreases n
  {
    var s := NatToString(n);
    if n >= 10 {
      ParseNatToString(n / 10);
      assert s[..|s| - 1] == NatToString(n / 10);
    }
  }

  /** Reads the rendering of an integer back. */
  function ParseInt(s: string): int
    requires |s| >= 1 && (AllDigits(s) || (s[0] == '-' && AllDigits(s[1..])))
  {
    if AllDigits(s) then ParseNat(s) else -(ParseNat(s[1..]) as int)
  }

  lemma ParseIntToString(i: int)
    ensures ParseInt(IntToString(i)) == i
  {
    if i < 0 {
      var s := IntToString(i);
      assert !IsDigit(s[0]);
      assert s[1..] == NatToString(-i);
      ParseNatToString(-i);
    } else {
      ParseNatToString(i);
    }
  }

  /** Distinct integers render to distinct strings. */
  lemma IntToStringInjective(a: int, b: int)
    requires IntToString(a) == IntToString(b)
    ensures a == b
  {
    ParseIntToString(a);
    ParseIntToString(b);
  }

  /** The smallest natural number at least `q`; 0 when `q` is not positive. */
  function Ceil(q: real): (n: nat)
    ensures q <= 0.0 ==> n == 0
    ensures q > 0.0 ==> q <= n as real < q + 1.0
  {
    if q <= 0.0 then 0
    else
      var f := q.Floor;
      if f as real == q then f else f + 1
  }

  lemma MulLess(a: real, b: real, step: real)
    requires a < b && step > 0.0
    ensures a * step < b * step
  {
  }

  lemma MulAtMost(a: real, b: real, step: real)
    requires a <= b && step > 0.0
    ensures a * step <= b * step
  {
  }

  /** The `i`-th value of a regular grid from `start`. */
  function ArangePoint(start: real, step: real, i: int): real
  {
    start + (i as real) * step
  }

  lemma ArangePointLess(start: real, step: real, i: int, j: int)
    requires step > 0.0 && i < j
    ensures ArangePoint(start, step, i) < ArangePoint(start, step, j)
  {
    MulLess(i as real, j as real, step);
  }

  /** np.arange with a positive step: start, start + step, start + 2 step, ...,
      ceil((stop - start) / step) values. Each lies below `stop`, there is at
      least one when start < stop, and one more step would reach `stop`. */
  function Arange(start: real, stop: real, step: real): (r: seq<real>)
    requires step > 0.0
    ensures forall i :: 0 <= i < |r| ==> r[i] == ArangePoint(start, step, i)
    ensures forall i :: 0 <= i < |r| ==> r[i] < stop
    ensures start < stop <==> |r| > 0
    ensures |r| > 0 ==> stop <= ArangePoint(start, step, |r|)
  {
    var n := Ceil((stop - start) / step);
    ArangeLength(start, stop, step);
    seq(n, i requires 0 <= i < n => ArangePoint(start, step, i))
  }

  /** The count ceil((stop - start) / step) stops just before `stop`. */
  lemma ArangeLength(start: real, stop: real, step: real)
    requires step > 0.0
    ensures var n := Ceil((stop - start) / step);
      && (start < stop <==> n > 0)
      && (forall i :: 0 <= i < n ==> ArangePoint(start, step, i) < stop)
      && (n > 0 ==> stop <= ArangePoint(start, step, n))
  {
    var q := (stop - start) / step;
    var n := Ceil(q);
    assert q * step == stop - start;
    if q > 0.0 {
      MulLess(0.0, q, step);
    } else {
      MulAtMost(q, 0.0, step);
    }
    if n > 0 {
      MulLess((n - 1) as real, q, step);
      MulAtMost(q, n as real, step);
      forall i | 0 <= i < n ensures ArangePoint(start, step, i) < stop {
        if i < n - 1 {
          ArangePointLess(start, step, i, n - 1);
        }
      }
    }
  }

  /** The grid np.arange(lo, hi + step / 2, step) builds from lo to hi: it
      starts at lo, ends within half a step of hi, and strictly ascends. */
  lemma ArangeHalfStep(lo: real, hi: real, step: real)
    requires step > 0.0 && lo <= hi
    ensures var g := Arange(lo, hi + step / 2.0, step);
      && |g| > 0 && g[0] == lo
      && hi - step / 2.0 <= g[|g| - 1] < hi + step / 2.0
      && forall i :: 0 < i < |g| ==> g[i - 1] < g[i]
  {
    var g := Arange(lo, hi + step / 2.0, step);
    var n := |g|;
    assert g[0] == ArangePoint(lo, step, 0);
    assert ArangePoint(lo, step, n - 1) == ArangePoint(lo, step, n) - step;
    forall i | 0 < i < n ensures g[i - 1] < g[i] {
      ArangePointLess(lo, step, i - 1, i);
    }
  }
}
