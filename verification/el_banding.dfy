/** The statewide reference distribution and the 0-5 point bands shared by the
    federal and the state English-learner (EL) indicators.

    For each EL model the statewide reference sample holds the positive rates
    of the schools that meet the N-count. Its quartiles (numpy "midpoint"
    percentiles) give the fence `[Q1 - 1.5 IQR, Q3 + 1.5 IQR]`; the mean and
    the sample standard deviation of the values inside the fence set the cuts
    `mean`, `mean - 0.5 sd`, `mean - sd`, `mean - 2 sd` and `mean - 3 sd`.
    The federal variant keeps fence values inclusively, the state variant
    strictly. */
module ElBanding {
  import opened Wrappers
  import opened Numeric
  import Seqs

  /** One school's rate for an EL model (none when it could not be computed)
      and the count the N-count is checked against. */
  datatype SchoolRate = SchoolRate(rate: Option<real>, count: nat)

  predicate InReference(s: SchoolRate, nCount: nat) {
    s.rate.Some? && s.rate.value > 0.0 && s.count >= nCount
  }

  /** The schools in the reference, in school order: each such school as
      often as it appears, no other school. */
  function ReferenceSchools(schools: seq<SchoolRate>, nCount: nat): (rs: seq<SchoolRate>)
    ensures forall j :: 0 <= j < |rs| ==> InReference(rs[j], nCount) && rs[j] in schools
    ensures forall s :: multiset(rs)[s] == if InReference(s, nCount) then multiset(schools)[s] else 0
  {
    var keep := (s: SchoolRate) => InReference(s, nCount);
    Seqs.FilterCounts(keep, schools);
    Seqs.Filter(keep, schools)
  }

  /** The reference distribution: the positive rates of schools meeting the
      N-count, one per such school, in school order. */
  function ReferenceSample(schools: seq<SchoolRate>, nCount: nat): (dist: seq<real>)
    ensures |dist| == |ReferenceSchools(schools, nCount)|
    ensures forall k :: 0 <= k < |dist| ==> Some(dist[k]) == ReferenceSchools(schools, nCount)[k].rate
    ensures forall i :: 0 <= i < |dist| ==> dist[i] > 0.0
  {
    var rs := ReferenceSchools(schools, nCount);
    seq(|rs|, k requires 0 <= k < |rs| => rs[k].rate.value)
  }

  /** Every school in the reference contributes its rate, and every value of
      the distribution is the rate of a school in the reference. */
  lemma ReferenceSampleMembers(schools: seq<SchoolRate>, nCount: nat)
    ensures forall j :: 0 <= j < |schools| && InReference(schools[j], nCount) ==>
              schools[j].rate.value in ReferenceSample(schools, nCount)
    ensures forall x :: x in ReferenceSample(schools, nCount) ==>
              exists j :: 0 <= j < |schools| && InReference(schools[j], nCount) && schools[j].rate == Some(x)
  {
    var rs := ReferenceSchools(schools, nCount);
    var dist := ReferenceSample(schools, nCount);
    forall j | 0 <= j < |schools| && InReference(schools[j], nCount)
      ensures schools[j].rate.value in dist
    {
      assert multiset(rs)[schools[j]] == multiset(schools)[schools[j]] > 0;
      var k :| 0 <= k < |rs| && rs[k] == schools[j];
      assert dist[k] == schools[j].rate.value;
    }
    forall x | x in dist
      ensures exists j :: 0 <= j < |schools| && InReference(schools[j], nCount) && schools[j].rate == Some(x)
    {
      var k :| 0 <= k < |dist| && dist[k] == x;
      assert rs[k] in schools;
      var j :| 0 <= j < |schools| && schools[j] == rs[k];
      assert schools[j].rate == Some(x);
    }
  }

  /** The outlier fence around the quartiles. */
  datatype Fence = Fence(lo: real, hi: real)

  function IqrFence(sorted: seq<real>): (f: Fence)
    requires Sorted(sorted) && |sorted| > 0
    ensures f.lo <= Percentile(sorted, 25) <= Percentile(sorted, 75) <= f.hi
  {
    PercentileMonotone(sorted, 25, 75);
    var q1 := Percentile(sorted, 25);
    var q3 := Percentile(sorted, 75);
    var spread := (q3 - q1) * 1.5;
    Fence(q1 - spread, q3 + spread)
  }

  /** Whether a value survives the fence: inclusively (federal) or strictly (state). */
  predicate Inside(x: real, f: Fence, strict: bool) {
    if strict then f.lo < x < f.hi else f.lo <= x <= f.hi
  }

  /** The values of `dist` inside the fence, in order. */
  function Trim(dist: seq<real>, f: Fence, strict: bool): (kept: seq<real>)
    ensures |kept| <= |dist|
    ensures forall i :: 0 <= i < |kept| ==> Inside(kept[i], f, strict) && kept[i] in dist
    ensures forall i :: 0 <= i < |dist| && Inside(dist[i], f, strict) ==> dist[i] in kept
  {
    if |dist| == 0 then []
    else
      var rest := Trim(dist[1..], f, strict);
      assert forall i :: 1 <= i < |dist| ==> dist[i] == dist[1..][i - 1];
      if Inside(dist[0], f, strict) then [dist[0]] + rest else rest
  }

  /** Each value inside the fence is kept as often as it occurs, and no
      other value is kept. */
  lemma {:induction false} TrimCounts(dist: seq<real>, f: Fence, strict: bool)
    ensures forall x :: multiset(Trim(dist, f, strict))[x] == if Inside(x, f, strict) then multiset(dist)[x] else 0
  {
    if |dist| > 0 {
      TrimCounts(dist[1..], f, strict);
      assert dist == [dist[0]] + dist[1..];
      assert multiset(dist) == multiset{dist[0]} + multiset(dist[1..]);
    }
  }

  /** Every value the strict fence keeps, the inclusive fence keeps too. */
  lemma StrictTrimWithinInclusive(dist: seq<real>, f: Fence)
    ensures forall x :: x in Trim(dist, f, true) ==> x in Trim(dist, f, false)
  {
    forall x | x in Trim(dist, f, true) ensures x in Trim(dist, f, false) {
      var i :| 0 <= i < |dist| && dist[i] == x;
    }
  }

  /** With no spread between the quartiles the strict fence keeps nothing: a
      state reference sample whose quartiles coincide has no mean. */
  lemma StrictTrimEmptyWithoutSpread(sorted: seq<real>)
    requires Sorted(sorted) && |sorted| > 0
    requires Percentile(sorted, 25) == Percentile(sorted, 75)
    ensures Trim(sorted, IqrFence(sorted), true) == []
  {
    var f := IqrFence(sorted);
    assert f.lo == f.hi;
    var kept := Trim(sorted, f, true);
    assert forall i :: 0 <= i < |kept| ==> !Inside(kept[i], f, true);
  }

  /** The element the inclusive fence always keeps: the upper neighbour of
      Q1, which lies between Q1 and Q3 unless the sample has exactly two
      values. */
  lemma {:induction false} InclusiveTrimNonempty(sorted: seq<real>)
    requires Sorted(sorted) && |sorted| > 0 && |sorted| != 2
    ensures |Trim(sorted, IqrFence(sorted), false)| > 0
  {
    var m := |sorted| - 1;
    PercentileIndices(m, 25);
    PercentileIndices(m, 75);
    var b := PercentileHigh(m, 25);
    var c := PercentileLow(m, 75);
    assert b <= c by {
      if m == 0 {
      } else {
        assert 100 * b < 25 * m + 100;
        assert 75 * m < 100 * c + 100;
      }
    }
    var q1 := Percentile(sorted, 25);
    var q3 := Percentile(sorted, 75);
    assert sorted[PercentileLow(m, 25)] <= sorted[b];
    assert q1 <= sorted[b];
    assert sorted[b] <= sorted[c] <= sorted[PercentileHigh(m, 75)];
    assert sorted[b] <= q3;
    var f := IqrFence(sorted);
    assert Inside(sorted[b], f, false);
  }

  /** A reference sample of two different values keeps nothing, even
      inclusively: both quartiles are their midpoint and the IQR is 0. */
  lemma TwoDistinctValuesTrimEmpty(a: real, b: real)
    requires a < b
    ensures Trim([a, b], IqrFence([a, b]), false) == []
  {
    var s := [a, b];
    assert PercentileLow(1, 25) == 0 && PercentileHigh(1, 25) == 1;
    assert PercentileLow(1, 75) == 0 && PercentileHigh(1, 75) == 1;
    var f := IqrFence(s);
    assert f.lo == (a + b) / 2.0 == f.hi;
  }

  /** Mean and sample standard deviation of the trimmed reference sample. */
  datatype RefStats = RefStats(mean: Option<real>, std: Option<real>)

  /** The standard deviation from the sample variance; the square root is a
      parameter of the model. */
  function SampleStd(s: seq<real>, sqrt: real -> real): (sd: Option<real>)
    ensures sd.Some? <==> |s| >= 2
  {
    match SampleVariance(s)
    case None => None
    case Some(v) => Some(sqrt(v))
  }

  /** The standard deviation is the square root of the squared deviations
      from the mean over one less than the sample size. */
  lemma SampleStdValue(s: seq<real>, sqrt: real -> real)
    requires |s| >= 2
    ensures SampleStd(s, sqrt) == Some(sqrt(SumSquaredDeviations(s, Mean(s).value) / (|s| - 1) as real))
  {
  }

  /** The values of the reference sample that enter the statistics. */
  function Trimmed(dist: seq<real>, strict: bool): (kept: seq<real>)
    ensures |kept| <= |dist|
    ensures forall i :: 0 <= i < |kept| ==> kept[i] in dist
  {
    if |dist| == 0 then [] else Trim(dist, IqrFence(Sort(dist)), strict)
  }

  /** Reference statistics. An empty sample (no school qualifies, or
      everything trimmed) has neither mean nor standard deviation. */
  function ReferenceStats(dist: seq<real>, strict: bool, sqrt: real -> real): (st: RefStats)
    ensures st.mean.Some? <==> |Trimmed(dist, strict)| > 0
    ensures st.std.Some? <==> |Trimmed(dist, strict)| >= 2
    ensures st.mean.Some? ==> st.mean.value == Sum(Trimmed(dist, strict)) / |Trimmed(dist, strict)| as real
    ensures st.std.Some? ==> st.std.value == sqrt(SumSquaredDeviations(Trimmed(dist, strict), st.mean.value)
                                               / (|Trimmed(dist, strict)| - 1) as real)
  {
    var kept := Trimmed(dist, strict);
    if |kept| > 0 then
      if |kept| >= 2 then SampleStdValue(kept, sqrt); RefStats(Mean(kept), SampleStd(kept, sqrt))
      else RefStats(Mean(kept), None)
    else RefStats(None, None)
  }

  /** The reference mean is inside the fence, hence between the quartiles
      widened by 1.5 IQR. */
  lemma ReferenceMeanInsideFence(dist: seq<real>, strict: bool, sqrt: real -> real)
    requires |dist| > 0
    ensures ReferenceStats(dist, strict, sqrt).mean.Some? ==>
              IqrFence(Sort(dist)).lo <= ReferenceStats(dist, strict, sqrt).mean.value <= IqrFence(Sort(dist)).hi
  {
    var f := IqrFence(Sort(dist));
    var kept := Trimmed(dist, strict);
    if |kept| > 0 {
      assert AllWithin(kept, f.lo, f.hi) by {
        forall i | 0 <= i < |kept| ensures f.lo <= kept[i] <= f.hi {
          assert Inside(kept[i], f, strict);
        }
      }
      MeanWithin(kept, f.lo, f.hi);
    }
  }

  /** A non-empty federal reference sample (inclusive fence) of any size but
      two always has a mean. */
  lemma FederalReferenceHasMean(dist: seq<real>, sqrt: real -> real)
    requires |dist| > 0 && |dist| != 2
    ensures ReferenceStats(dist, false, sqrt).mean.Some?
  {
    var s := Sort(dist);
    InclusiveTrimNonempty(s);
    var f := IqrFence(s);
    var t := Trim(s, f, false);
    assert t[0] in s;
    assert t[0] in multiset(s);
    assert t[0] in dist;
    var i :| 0 <= i < |dist| && dist[i] == t[0];
    assert Inside(dist[i], f, false);
    assert dist[i] in Trim(dist, f, false);
  }

  /** The five cuts; a missing cut is never met. */
  datatype Cuts = Cuts(c5: Option<real>, c4: Option<real>, c3: Option<real>, c2: Option<real>, c1: Option<real>)

  predicate Meets(x: real, c: Option<real>) {
    c.Some? && x >= c.value
  }

  /** The EL band rule: 5 at or above the mean; otherwise 0 for a zero rate;
      otherwise 4, 3, 2 or 1 for the highest lower cut met; none below them. */
  function Band(x: real, cuts: Cuts): (points: Option<nat>)
    ensures points.Some? ==> points.value <= 5
    ensures points == Some(5) <==> Meets(x, cuts.c5)
    ensures points.None? ==> x != 0.0 && !Meets(x, cuts.c1)
  {
    if Meets(x, cuts.c5) then Some(5)
    else if x == 0.0 then Some(0)
    else if Meets(x, cuts.c4) then Some(4)
    else if Meets(x, cuts.c3) then Some(3)
    else if Meets(x, cuts.c2) then Some(2)
    else if Meets(x, cuts.c1) then Some(1)
    else None
  }

  predicate Complete(cuts: Cuts) {
    cuts.c5.Some? && cuts.c4.Some? && cuts.c3.Some? && cuts.c2.Some? && cuts.c1.Some?
  }

  predicate Descending(cuts: Cuts) {
    Complete(cuts) && cuts.c5.value >= cuts.c4.value >= cuts.c3.value >= cuts.c2.value >= cuts.c1.value
  }

  /** How many of the five cuts a rate meets. */
  function MetCount(x: real, cuts: Cuts): nat {
    (if Meets(x, cuts.c5) then 1 else 0) + (if Meets(x, cuts.c4) then 1 else 0)
    + (if Meets(x, cuts.c3) then 1 else 0) + (if Meets(x, cuts.c2) then 1 else 0)
    + (if Meets(x, cuts.c1) then 1 else 0)
  }

  /** With five descending cuts, a non-zero rate earns as many points as the
      cuts it meets, and none when it meets none. */
  lemma BandIsCutsMet(x: real, cuts: Cuts)
    requires Descending(cuts) && x != 0.0
    ensures Band(x, cuts) == if MetCount(x, cuts) == 0 then None else Some(MetCount(x, cuts))
  {
  }

  /** Points as an order in which "no value" sits below 0. */
  function Rank(p: Option<nat>): int {
    if p.None? then -1 else p.value
  }

  /** A higher non-zero rate never earns fewer points. */
  lemma BandMonotone(x: real, y: real, cuts: Cuts)
    requires Descending(cuts) && 0.0 < x <= y
    ensures Rank(Band(x, cuts)) <= Rank(Band(y, cuts))
  {
    BandIsCutsMet(x, cuts);
    BandIsCutsMet(y, cuts);
  }

  /** Federal cuts: the (rounded) mean and mean - {0.5, 1, 2, 3} sd, compared
      with the raw rate. Without a standard deviation only the top cut exists. */
  function FederalCuts(st: RefStats): (cuts: Cuts)
    ensures cuts.c5 == st.mean
    ensures st.mean.Some? && st.std.Some? && st.std.value >= 0.0 ==> Descending(cuts)
    ensures st.std.None? ==> cuts.c4.None? && cuts.c1.None?
  {
    if st.mean.Some? && st.std.Some? then
      var m, sd := st.mean.value, st.std.value;
      Cuts(st.mean, Some(m - sd * 0.5), Some(m - sd), Some(m - sd * 2.0), Some(m - sd * 3.0))
    else Cuts(st.mean, None, None, None, None)
  }

  /** Federal statistics are the reference statistics rounded to 2 places. */
  function FederalStats(dist: seq<real>, sqrt: real -> real): (st: RefStats)
    ensures st.mean.Some? <==> ReferenceStats(dist, false, sqrt).mean.Some?
    ensures st.std.Some? <==> ReferenceStats(dist, false, sqrt).std.Some?
  {
    var raw := ReferenceStats(dist, false, sqrt);
    RefStats(if raw.mean.Some? then Some(RoundTo(raw.mean.value, 2)) else None,
             if raw.std.Some? then Some(RoundTo(raw.std.value, 2)) else None)
  }

  /** A school's federal EL points for one model. */
  function FederalPoints(rate: real, st: RefStats): (points: Option<nat>)
    ensures points.Some? ==> points.value <= 5
    ensures st.mean.None? ==> points == (if rate == 0.0 then Some(0) else None)
  {
    Band(rate, FederalCuts(st))
  }

  /** `round(x, p)` applied to an optional value. */
  function RoundOpt(x: Option<real>, p: nat): Option<real> {
    if x.Some? then Some(RoundTo(x.value, p)) else None
  }

  /** State cuts: each cut is computed from the unrounded statistics and then
      rounded to `p` places (4 for proficiency, 2 for growth). */
  function StateCuts(st: RefStats, p: nat): (cuts: Cuts)
    ensures cuts.c5 == RoundOpt(st.mean, p)
    ensures st.std.None? ==> cuts.c4.None? && cuts.c1.None?
  {
    if st.mean.Some? && st.std.Some? then
      var m, sd := st.mean.value, st.std.value;
      Cuts(RoundOpt(st.mean, p), Some(RoundTo(m - sd * 0.5, p)), Some(RoundTo(m - sd, p)),
           Some(RoundTo(m - sd * 2.0, p)), Some(RoundTo(m - sd * 3.0, p)))
    else Cuts(RoundOpt(st.mean, p), None, None, None, None)
  }

  /** Rounding keeps the state cuts in descending order. */
  lemma StateCutsDescending(st: RefStats, p: nat)
    requires st.mean.Some? && st.std.Some? && st.std.value >= 0.0
    ensures Descending(StateCuts(st, p))
  {
    var m, sd := st.mean.value, st.std.value;
    RoundToMonotone(m - sd * 0.5, m, p);
    RoundToMonotone(m - sd, m - sd * 0.5, p);
    RoundToMonotone(m - sd * 2.0, m - sd, p);
    RoundToMonotone(m - sd * 3.0, m - sd * 2.0, p);
  }

  /** A school's state EL points for one model: the rate rounded to `p`
      places is banded against the state cuts, and only schools whose count
      meets the N-count get points. */
  function StatePoints(rate: Option<real>, count: nat, nCount: nat, st: RefStats, p: nat): (points: Option<nat>)
    ensures points.Some? ==> count >= nCount && rate.Some? && points.value <= 5
    ensures count >= nCount && rate.Some? && RoundTo(rate.value, p) == 0.0 ==> points.Some?
  {
    if count >= nCount && rate.Some? then Band(RoundTo(rate.value, p), StateCuts(st, p)) else None
  }

  /** For state rates, a higher rate never earns fewer points: the rounding
      of rate and cuts preserves the band order. */
  lemma StatePointsMonotone(x: real, y: real, count: nat, nCount: nat, st: RefStats, p: nat)
    requires count >= nCount && st.mean.Some? && st.std.Some? && st.std.value >= 0.0
    requires 0.0 < RoundTo(x, p) && x <= y
    ensures Rank(StatePoints(Some(x), count, nCount, st, p)) <= Rank(StatePoints(Some(y), count, nCount, st, p))
  {
    StateCutsDescending(st, p);
    RoundToMonotone(x, y, p);
    BandMonotone(RoundTo(x, p), RoundTo(y, p), StateCuts(st, p));
  }
}
