/** Numeric helpers shared by every scorer: decimal rounding, sums and means,
    sample variance, sorting, and numpy's "midpoint" percentile. */
module Numeric {
  import opened Wrappers

  function Pow10(p: nat): (r: nat)
    ensures r >= 1
  {
    if p == 0 then 1 else 10 * Pow10(p - 1)
  }

  /** Nearest integer, halves going up. */
  function RoundHalfUp(v: real): int {
    (v + 0.5).Floor
  }

  /** Rounds to the grid of multiples of `1 / k`. */
  function RoundScaled(x: real, k: real): real
    requires k > 0.0
  {
    RoundHalfUp(x * k) as real / k
  }

  /** Rounds to `p` decimal places, halves going up. */
  function RoundTo(x: real, p: nat): real {
    RoundScaled(x, Pow10(p) as real)
  }

  /** Rounding to 2 places is rounding to whole hundredths. */
  lemma RoundToHundredths(x: real)
    ensures Pow10(2) == 100
    ensures RoundTo(x, 2) == RoundHalfUp(x * 100.0) as real / 100.0
  {
    assert Pow10(1) == 10;
  }

  lemma RealMulMonotone(a: real, b: real, k: real)
    requires a <= b && k > 0.0
    ensures a * k <= b * k
  {
    assert b * k - a * k == (b - a) * k;
  }

  lemma RealDivMonotone(a: real, b: real, k: real)
    requires a <= b && k > 0.0
    ensures a / k <= b / k
  {
    assert b / k - a / k == (b - a) / k;
  }

  /** A part of at most `k` times a positive whole, as a percentage of it,
      lies in 0 .. 100k and gives the part back. */
  lemma PercentOfWhole(w: real, t: real, k: real)
    requires t > 0.0 && 0.0 <= w <= k * t
    ensures 0.0 <= w / t * 100.0 <= k * 100.0
    ensures (w / t * 100.0) * t == w * 100.0
  {
    RealDivMonotone(0.0, w, t);
    RealDivMonotone(w, k * t, t);
    assert (k * t) / t == k;
    assert (w / t) * t == w;
  }

  /** Equal multiples of a positive number have equal factors. */
  lemma CancelPositive(x: real, y: real, t: real)
    requires t > 0.0 && x * t == y * t
    ensures x == y
  {
    assert (x - y) * t == 0.0;
  }

  lemma MulNonnegative(a: real, b: real)
    requires 0.0 <= a && 0.0 <= b
    ensures 0.0 <= a * b
  {
  }

  lemma RealDivStrict(a: real, b: real, k: real)
    requires a < b && k > 0.0
    ensures a / k < b / k
  {
    assert b / k - a / k == (b - a) / k;
  }

  lemma RoundScaledMonotone(x: real, y: real, k: real)
    requires x <= y && k > 0.0
    ensures RoundScaled(x, k) <= RoundScaled(y, k)
  {
    RealMulMonotone(x, y, k);
    var a := RoundHalfUp(x * k);
    var b := RoundHalfUp(y * k);
    assert a <= b;
    RealDivMonotone(a as real, b as real, k);
  }

  /** Rounding never reverses the order of two values. */
  lemma RoundToMonotone(x: real, y: real, p: nat)
    requires x <= y
    ensures RoundTo(x, p) <= RoundTo(y, p)
  {
    RoundScaledMonotone(x, y, Pow10(p) as real);
  }

  lemma RoundScaledClose(x: real, k: real)
    requires k > 0.0
    ensures RoundScaled(x, k) - 0.5 / k <= x < RoundScaled(x, k) + 0.5 / k
  {
    var f := RoundHalfUp(x * k) as real;
    assert f - 0.5 <= x * k < f + 0.5;
    RealDivMonotone(f - 0.5, x * k, k);
    RealDivStrict(x * k, f + 0.5, k);
    assert x * k / k == x;
    assert (f - 0.5) / k == f / k - 0.5 / k;
    assert (f + 0.5) / k == f / k + 0.5 / k;
  }

  /** Rounding moves a value by at most half a unit in the last place. */
  lemma RoundToClose(x: real, p: nat)
    ensures RoundTo(x, p) - 0.5 / Pow10(p) as real <= x < RoundTo(x, p) + 0.5 / Pow10(p) as real
  {
    RoundScaledClose(x, Pow10(p) as real);
  }

  lemma IntProductAsReal(n: int, k: int)
    ensures (n as real) * (k as real) == (n * k) as real
  {
  }

  lemma HalfUpInteger(m: int)
    ensures RoundHalfUp(m as real) == m
  {
  }

  lemma ScaleBack(x: real, k: real)
    requires k > 0.0
    ensures x * k / k == x
  {
  }

  /** Whole numbers are already rounded, to any number of places. */
  lemma RoundToInteger(n: int, p: nat)
    ensures RoundTo(n as real, p) == n as real
  {
    var k := Pow10(p);
    var kr := k as real;
    var nr := n as real;
    IntProductAsReal(n, k);
    HalfUpInteger(n * k);
    assert RoundHalfUp(nr * kr) == n * k;
    ScaleBack(nr, kr);
    assert RoundScaled(nr, kr) == (nr * kr) / kr;
  }

  /** Rounding a non-negative value gives a non-negative value. */
  lemma RoundToNonnegative(x: real, p: nat)
    requires x >= 0.0
    ensures RoundTo(x, p) >= 0.0
  {
    RoundToInteger(0, p);
    RoundToMonotone(0.0, x, p);
  }

  /** A ratio `m = t / e` of a positive `e` is below (above) 1 exactly when
      `t` is below (above) `e`. */
  lemma RatioAgainstOne(m: real, e: real, t: real)
    requires e > 0.0 && m * e == t
    ensures m < 1.0 <==> t < e
    ensures m > 1.0 <==> t > e
  {
    assert (1.0 - m) * e == e - t;
    if m < 1.0 { assert (1.0 - m) * e > 0.0; }
    if m > 1.0 { assert (m - 1.0) * e > 0.0; }
    if m == 1.0 { assert t == e; }
  }

  /** Rounding keeps a value between two whole numbers that bound it. */
  lemma RoundToBetween(x: real, lo: int, hi: int, p: nat)
    requires lo as real <= x <= hi as real
    ensures lo as real <= RoundTo(x, p) <= hi as real
  {
    RoundToInteger(lo, p);
    RoundToInteger(hi, p);
    RoundToMonotone(lo as real, x, p);
    RoundToMonotone(x, hi as real, p);
  }

  /** numpy's rounding to a whole number (`round()`, `round(0)`): to the
      nearest integer, halves going to the even one. */
  function RoundHalfEven(x: real): (r: int)
    ensures x - 0.5 <= r as real <= x + 0.5
    ensures r as real == x - 0.5 || r as real == x + 0.5 ==> r % 2 == 0
  {
    var f := x.Floor;
    var d := x - f as real;
    if d < 0.5 then f
    else if d > 0.5 then f + 1
    else if f % 2 == 0 then f
    else f + 1
  }

  /** The whole-number rounding as a value of the rounded column. */
  function RoundWhole(x: real): real {
    RoundHalfEven(x) as real
  }

  /** Whole numbers round to themselves. */
  lemma RoundWholeInteger(n: int)
    ensures RoundWhole(n as real) == n as real
  {
  }

  /** Rounding to a whole number never reverses the order of two values. */
  lemma RoundWholeMonotone(x: real, y: real)
    requires x <= y
    ensures RoundWhole(x) <= RoundWhole(y)
  {
    var a := RoundHalfEven(x);
    var b := RoundHalfEven(y);
    if a > b {
      assert a as real >= b as real + 1.0;
      assert x == y;
    }
  }

  /** Rounding keeps a value between two whole numbers that bound it. */
  lemma RoundWholeBetween(x: real, lo: int, hi: int)
    requires lo as real <= x <= hi as real
    ensures lo as real <= RoundWhole(x) <= hi as real
  {
    RoundWholeInteger(lo);
    RoundWholeInteger(hi);
    RoundWholeMonotone(lo as real, x);
    RoundWholeMonotone(x, hi as real);
  }

  /** Rounding to a whole number reaches `n` from just above `n - 0.5`, and
      at `n - 0.5` itself only for an even `n`. */
  lemma RoundWholeAtLeast(x: real, n: int)
    ensures RoundHalfEven(x) >= n <==> x > n as real - 0.5 || (x == n as real - 0.5 && n % 2 == 0)
  {
    var r := RoundHalfEven(x);
    if x == n as real - 0.5 {
      assert r == n - 1 || r == n;
    }
  }

  /** A part of a positive whole, as a percentage, lies in 0..100: 0 for
      no part and 100 for the whole. */
  lemma PercentOfPart(part: real, whole: real)
    requires 0.0 <= part <= whole && 0.0 < whole
    ensures 0.0 <= part * 100.0 / whole <= 100.0
    ensures part == 0.0 ==> part * 100.0 / whole == 0.0
    ensures part == whole ==> part * 100.0 / whole == 100.0
  {
    RealDivMonotone(0.0, part * 100.0, whole);
    RealDivMonotone(part * 100.0, whole * 100.0, whole);
    assert whole * 100.0 / whole == 100.0;
  }

  /** Whole-number percentage `round(part * 100 / whole)` of a part of a whole. */
  function WholePercent(part: nat, whole: nat): (pct: real)
    requires 0 < whole && part <= whole
    ensures 0.0 <= pct <= 100.0
    ensures part == 0 ==> pct == 0.0
    ensures part == whole ==> pct == 100.0
  {
    var x := part as real * 100.0 / whole as real;
    PercentOfPart(part as real, whole as real);
    RoundWholeBetween(x, 0, 100);
    RoundWholeInteger(0);
    RoundWholeInteger(100);
    RoundWhole(x)
  }

  function Sum(s: seq<real>): real {
    if |s| == 0 then 0.0 else s[0] + Sum(s[1..])
  }

  lemma SumPair(a: real, b: real)
    ensures Sum([a, b]) == a + b
  {
    assert [a, b][1..] == [b] && [b][1..] == [];
    assert Sum([b]) == b + Sum([]);
  }

  /** Arithmetic mean; none for an empty sample (pandas gives NaN). */
  function Mean(s: seq<real>): Option<real> {
    if |s| == 0 then None else Some(Sum(s) / |s| as real)
  }

  lemma MeanPair(a: real, b: real)
    ensures Mean([a, b]) == Some((a + b) / 2.0)
  {
    SumPair(a, b);
  }

  lemma {:induction false} SumUniform(s: seq<real>, v: real)
    requires forall i :: 0 <= i < |s| ==> s[i] == v
    ensures Sum(s) == |s| as real * v
  {
    if |s| > 0 {
      SumUniform(s[1..], v);
    }
  }

  /** The mean of a sample whose values are all `v` is `v`. */
  lemma MeanUniform(s: seq<real>, v: real)
    requires |s| > 0 && forall i :: 0 <= i < |s| ==> s[i] == v
    ensures Mean(s) == Some(v)
  {
    SumUniform(s, v);
    ScaleBack(v, |s| as real);
    assert Sum(s) == v * |s| as real;
    var n := |s| as real;
    assert Sum(s) / n == v;
    assert Mean(s) == Some(Sum(s) / n);
  }

  function SumSquaredDeviations(s: seq<real>, m: real): real {
    if |s| == 0 then 0.0 else (s[0] - m) * (s[0] - m) + SumSquaredDeviations(s[1..], m)
  }

  /** Sample variance (one degree of freedom), none for fewer than two values. */
  function SampleVariance(s: seq<real>): Option<real> {
    if |s| < 2 then None
    else Some(SumSquaredDeviations(s, Sum(s) / |s| as real) / (|s| - 1) as real)
  }

  predicate AllWithin(s: seq<real>, lo: real, hi: real) {
    forall i :: 0 <= i < |s| ==> lo <= s[i] <= hi
  }

  lemma {:induction false} SumWithin(s: seq<real>, lo: real, hi: real)
    requires AllWithin(s, lo, hi)
    ensures lo * |s| as real <= Sum(s) <= hi * |s| as real
  {
    if |s| > 0 {
      assert AllWithin(s[1..], lo, hi) by {
        forall i | 0 <= i < |s[1..]| ensures lo <= s[1..][i] <= hi {
          assert s[1..][i] == s[i + 1];
        }
      }
      SumWithin(s[1..], lo, hi);
    }
  }

  /** The mean of a sample lies between any bounds of its values. */
  lemma MeanWithin(s: seq<real>, lo: real, hi: real)
    requires |s| > 0 && AllWithin(s, lo, hi)
    ensures Mean(s).Some? && lo <= Mean(s).value <= hi
  {
    SumWithin(s, lo, hi);
    var n := |s| as real;
    assert lo * n / n <= Sum(s) / n <= hi * n / n;
  }

  lemma SquareNonnegative(d: real)
    ensures d * d >= 0.0
  {
    if d < 0.0 {
      assert d * d == (-d) * (-d);
    }
  }

  lemma {:induction false} SumSquaredDeviationsNonnegative(s: seq<real>, m: real)
    ensures SumSquaredDeviations(s, m) >= 0.0
  {
    if |s| > 0 {
      SquareNonnegative(s[0] - m);
      SumSquaredDeviationsNonnegative(s[1..], m);
    }
  }

  /** A sample variance is never negative, and exists exactly from two values up. */
  lemma SampleVarianceNonnegative(s: seq<real>)
    ensures SampleVariance(s).Some? <==> |s| >= 2
    ensures SampleVariance(s).Some? ==> SampleVariance(s).value >= 0.0
  {
    if |s| >= 2 {
      SumSquaredDeviationsNonnegative(s, Sum(s) / |s| as real);
    }
  }

  predicate Sorted(s: seq<real>) {
    forall i, j :: 0 <= i < j < |s| ==> s[i] <= s[j]
  }

  function Insert(x: real, s: seq<real>): (r: seq<real>)
    requires Sorted(s)
    ensures Sorted(r)
    ensures multiset(r) == multiset(s) + multiset{x}
    ensures |r| == |s| + 1
    ensures |s| > 0 ==> r[0] == (if x <= s[0] then x else s[0])
  {
    if |s| == 0 then [x]
    else if x <= s[0] then [x] + s
    else
      assert s == [s[0]] + s[1..];
      [s[0]] + Insert(x, s[1..])
  }

  /** Insertion sort: an ascending permutation of its input. */
  function Sort(s: seq<real>): (r: seq<real>)
    ensures Sorted(r)
    ensures multiset(r) == multiset(s)
    ensures |r| == |s|
  {
    if |s| == 0 then []
    else
      assert s == [s[0]] + s[1..];
      Insert(s[0], Sort(s[1..]))
  }

  /** The two sample positions numpy's "midpoint" percentile averages for a
      sample of `m + 1` values: the floor and the ceiling of `p * m / 100`. */
  function PercentileLow(m: nat, p: nat): nat {
    p * m / 100
  }

  function PercentileHigh(m: nat, p: nat): nat {
    if p * m % 100 == 0 then PercentileLow(m, p) else PercentileLow(m, p) + 1
  }

  lemma MulMonotone(a: nat, b: nat, c: nat)
    requires a <= b
    ensures a * c <= b * c
  {
    assert b * c - a * c == (b - a) * c;
  }

  lemma PercentileIndices(m: nat, p: nat)
    requires p <= 100
    ensures PercentileLow(m, p) <= PercentileHigh(m, p) <= m
    ensures 100 * PercentileLow(m, p) <= p * m <= 100 * PercentileHigh(m, p)
  {
    MulMonotone(p, 100, m);
    var lo := p * m / 100;
    assert 100 * lo <= p * m < 100 * lo + 100;
    if 100 * lo == p * m {
      assert p * m % 100 == 0;
    } else {
      assert p * m % 100 != 0;
      assert 100 * lo < 100 * m;
    }
  }

  /** numpy `percentile(s, p, interpolation="midpoint")` of a sorted sample. */
  function Percentile(s: seq<real>, p: nat): (r: real)
    requires Sorted(s) && |s| > 0 && p <= 100
    ensures s[0] <= r <= s[|s| - 1]
  {
    PercentileIndices(|s| - 1, p);
    var lo := PercentileLow(|s| - 1, p);
    var hi := PercentileHigh(|s| - 1, p);
    (s[lo] + s[hi]) / 2.0
  }

  /** The percentile splits a sorted sample: every value up to the lower
      position is at most the percentile, every value from the upper
      position on is at least it. */
  lemma PercentileSplits(s: seq<real>, p: nat)
    requires Sorted(s) && |s| > 0 && p <= 100
    ensures forall k :: 0 <= k < |s| && k <= PercentileLow(|s| - 1, p) ==> s[k] <= Percentile(s, p)
    ensures forall k :: PercentileHigh(|s| - 1, p) <= k < |s| ==> Percentile(s, p) <= s[k]
  {
    PercentileIndices(|s| - 1, p);
    var lo, hi := PercentileLow(|s| - 1, p), PercentileHigh(|s| - 1, p);
    assert Percentile(s, p) == (s[lo] + s[hi]) / 2.0;
    MidpointSplits(s, lo, hi);
  }

  /** The midpoint of two positions of a sorted sample is at least every
      value up to the first and at most every value from the second on. */
  lemma MidpointSplits(s: seq<real>, lo: nat, hi: nat)
    requires Sorted(s) && lo <= hi < |s|
    ensures forall k :: 0 <= k <= lo ==> s[k] <= (s[lo] + s[hi]) / 2.0
    ensures forall k :: hi <= k < |s| ==> (s[lo] + s[hi]) / 2.0 <= s[k]
  {
    assert s[lo] <= s[hi];
    forall k | 0 <= k <= lo ensures s[k] <= s[lo] {
      if k < lo { assert s[k] <= s[lo]; }
    }
    forall k | hi <= k < |s| ensures s[hi] <= s[k] {
      if hi < k { assert s[hi] <= s[k]; }
    }
  }

  lemma PercentileIndicesMonotone(m: nat, p: nat, q: nat)
    requires p <= q <= 100
    ensures PercentileLow(m, p) <= PercentileLow(m, q)
    ensures PercentileHigh(m, p) <= PercentileHigh(m, q)
  {
    PercentileIndices(m, p);
    PercentileIndices(m, q);
    MulMonotone(p, q, m);
    var lp, lq := PercentileLow(m, p), PercentileLow(m, q);
    assert 100 * lp <= p * m <= q * m < 100 * lq + 100;
    assert lp <= lq;
    if p * m % 100 != 0 {
      assert 100 * lp < q * m <= 100 * PercentileHigh(m, q);
    }
  }

  /** A higher percentile is never smaller: in particular Q1 <= median <= Q3. */
  lemma PercentileMonotone(s: seq<real>, p: nat, q: nat)
    requires Sorted(s) && |s| > 0 && p <= q <= 100
    ensures Percentile(s, p) <= Percentile(s, q)
  {
    PercentileIndices(|s| - 1, p);
    PercentileIndices(|s| - 1, q);
    PercentileIndicesMonotone(|s| - 1, p, q);
  }

  /** The textbook median: the middle value, or the mean of the two middle values. */
  function Median(s: seq<real>): real
    requires |s| > 0
  {
    if |s| % 2 == 1 then s[|s| / 2] else (s[|s| / 2 - 1] + s[|s| / 2]) / 2.0
  }

  /** The 50th midpoint percentile is the median (pandas `median`). */
  lemma PercentileFiftyIsMedian(s: seq<real>)
    requires Sorted(s) && |s| > 0
    ensures Percentile(s, 50) == Median(s)
  {
    var n := |s|;
    var m := n - 1;
    var h := n / 2;
    if n % 2 == 1 {
      assert m == 2 * h;
      assert 50 * m == 100 * h;
      assert PercentileLow(m, 50) == h;
      assert PercentileHigh(m, 50) == h;
    } else {
      assert m == 2 * h - 1;
      assert 50 * m == 100 * (h - 1) + 50;
      assert PercentileLow(m, 50) == h - 1;
      assert PercentileHigh(m, 50) == h;
    }
  }

  /** Position of a smallest value of a non-empty sample. */
  function MinIndex(s: seq<real>): (k: nat)
    requires |s| > 0
    ensures k < |s| && forall j :: 0 <= j < |s| ==> s[k] <= s[j]
  {
    if |s| == 1 then 0
    else
      var k := MinIndex(s[1..]);
      assert forall j :: 1 <= j < |s| ==> s[j] == s[1..][j - 1];
      if s[0] <= s[k + 1] then 0 else k + 1
  }

  /** Position of a largest value of a non-empty sample. */
  function MaxIndex(s: seq<real>): (k: nat)
    requires |s| > 0
    ensures k < |s| && forall j :: 0 <= j < |s| ==> s[j] <= s[k]
  {
    if |s| == 1 then 0
    else
      var k := MaxIndex(s[1..]);
      assert forall j :: 1 <= j < |s| ==> s[j] == s[1..][j - 1];
      if s[0] >= s[k + 1] then 0 else k + 1
  }

  lemma {:induction false} SumAtLeast(s: seq<real>, lo: real)
    requires forall i :: 0 <= i < |s| ==> s[i] >= lo
    ensures Sum(s) >= |s| as real * lo
  {
    if |s| > 0 {
      assert forall i :: 0 <= i < |s[1..]| ==> s[1..][i] == s[i + 1];
      SumAtLeast(s[1..], lo);
    }
  }

  lemma {:induction false} SumAtMost(s: seq<real>, hi: real)
    requires forall i :: 0 <= i < |s| ==> s[i] <= hi
    ensures Sum(s) <= |s| as real * hi
  {
    if |s| > 0 {
      assert forall i :: 0 <= i < |s[1..]| ==> s[1..][i] == s[i + 1];
      SumAtMost(s[1..], hi);
    }
  }

  /** Some value of a sample, its smallest, is at most its mean. */
  lemma SomeAtMostMean(s: seq<real>)
    requires |s| > 0
    ensures exists i :: 0 <= i < |s| && s[i] <= Mean(s).value
  {
    var k := MinIndex(s);
    var n := |s| as real;
    SumAtLeast(s, s[k]);
    RealDivMonotone(n * s[k], Sum(s), n);
    assert (n * s[k]) / n == s[k];
  }

  /** Some value of a sample, its largest, is at least its mean. */
  lemma SomeAtLeastMean(s: seq<real>)
    requires |s| > 0
    ensures exists i :: 0 <= i < |s| && s[i] >= Mean(s).value
  {
    var k := MaxIndex(s);
    var n := |s| as real;
    SumAtMost(s, s[k]);
    RealDivMonotone(Sum(s), n * s[k], n);
    assert (n * s[k]) / n == s[k];
  }

  lemma RoundScaledGrid(y: real, k: real, n: int)
    requires k > 0.0 && y * k == n as real
    ensures RoundScaled(y, k) == y
  {
    assert RoundHalfUp(y * k) == n;
    assert n as real / k == y;
  }

  /** Rounding an already rounded value changes nothing. */
  lemma RoundToIdempotent(x: real, p: nat)
    ensures RoundTo(RoundTo(x, p), p) == RoundTo(x, p)
  {
    var k := Pow10(p) as real;
    var n := RoundHalfUp(x * k);
    var y := RoundScaled(x, k);
    assert y * k == n as real;
    RoundScaledGrid(y, k, n);
  }

  /** A part of a positive whole reaches `bound` percent of it exactly when
      100 times the part reaches `bound` times the whole. */
  lemma PercentAtLeast(part: real, whole: real, bound: real)
    requires whole > 0.0
    ensures part * 100.0 / whole >= bound <==> part * 100.0 >= bound * whole
  {
    var x := part * 100.0 / whole;
    assert x * whole == part * 100.0;
    ScaledCompare(x, whole, part * 100.0, bound);
  }

  /** A value `x` with `x * e == y` for a positive `e` compares with `c`
      as `y` compares with `c * e`. */
  lemma ScaledCompare(x: real, e: real, y: real, c: real)
    requires e > 0.0 && x * e == y
    ensures x >= c <==> y >= c * e
    ensures x > c <==> y > c * e
  {
    assert (x - c) * e == y - c * e;
    if x > c { assert (x - c) * e > 0.0; }
    if x < c { assert (c - x) * e > 0.0; }
  }
}
