/** The state bonus points: SPED enrollment (k-8 and 9-12), science
    proficiency (k-8 and 9-12), ACT Aspire participation (9-12 and Alt 9-12)
    and the alternative schools' five-year subgroup graduation rates, and
    the bonus total of a school's grade model. Band conditions are pandas
    comparisons, false whenever a side is missing, assigned with numpy's
    first-wins `select`. */
module StateBonus {
  import opened Wrappers
  import opened Nullable
  import opened Rules
  import Numeric
  import Seqs
  import StateConfig

  /** Comparisons of nullable cells: false when either side is missing. */
  predicate Ge(a: Option<real>, b: Option<real>) { a.Some? && b.Some? && a.value >= b.value }
  predicate Gt(a: Option<real>, b: Option<real>) { a.Some? && b.Some? && a.value > b.value }
  predicate Lt(a: Option<real>, b: Option<real>) { a.Some? && b.Some? && a.value < b.value }

  function Scale(k: real, a: Option<real>): Option<real> {
    if a.Some? then Some(k * a.value) else None
  }

  function R2(x: real): real { Numeric.RoundTo(x, 2) }

  // ---------------------------------------------------------------------
  // SPED enrollment

  /** The grade model a grade counts toward for SPED enrollment. */
  function SpedModel(grade: int): (m: Option<StateConfig.StateModel>)
    ensures m.Some? <==> grade in StateConfig.ModelGrades(StateConfig.K8) + StateConfig.ModelGrades(StateConfig.HS)
    ensures m.Some? ==> m.value != StateConfig.AltHS && grade in StateConfig.ModelGrades(m.value)
  {
    if grade in StateConfig.ModelGrades(StateConfig.K8) then Some(StateConfig.K8)
    else if grade in StateConfig.ModelGrades(StateConfig.HS) then Some(StateConfig.HS)
    else None
  }

  /** Distinct SPED students and distinct FAY students of one school's
      traditional grade model. */
  datatype SpedEnrollment = SpedEnrollment(numSped: nat, numFay: nat)

  /** The SPED enrollment percent, capped at 100; none without FAY students. */
  function SpedPercent(e: SpedEnrollment): (p: Option<real>)
    ensures p.None? <==> e.numFay == 0
    ensures p.Some? ==> 0.0 <= p.value <= 100.0
    ensures p.Some? ==> (p.value == 100.0 <==> e.numSped >= e.numFay)
    ensures p.Some? && e.numSped < e.numFay ==> p.value * e.numFay as real == e.numSped as real * 100.0
  {
    if e.numFay == 0 then None
    else
      var f := e.numFay as real;
      var m := e.numSped as real / f;
      assert m * f == e.numSped as real;
      Numeric.RatioAgainstOne(m, f, e.numSped as real);
      Numeric.RealDivMonotone(0.0, e.numSped as real, f);
      var x := m * 100.0;
      assert x * f == e.numSped as real * 100.0;
      Some(if x < 100.0 then x else 100.0)
  }

  /** A school counts toward the statewide average from the N-count up. */
  predicate Counted(e: SpedEnrollment, nCount: nat) {
    e.numSped >= nCount && e.numFay > 0
  }

  /** The schools counted toward the average, in table order: each counted
      school as often as it appears, no other school. */
  function CountedSchools(es: seq<SpedEnrollment>, nCount: nat): (cs: seq<SpedEnrollment>)
    ensures forall j :: 0 <= j < |cs| ==> Counted(cs[j], nCount) && cs[j] in es
    ensures forall e :: multiset(cs)[e] == if Counted(e, nCount) then multiset(es)[e] else 0
  {
    var counted := (e: SpedEnrollment) => Counted(e, nCount);
    Seqs.FilterCounts(counted, es);
    Seqs.Filter(counted, es)
  }

  /** There is a counted school exactly when some school is counted. */
  lemma CountedNonempty(es: seq<SpedEnrollment>, nCount: nat)
    ensures |CountedSchools(es, nCount)| > 0 <==> exists i :: 0 <= i < |es| && Counted(es[i], nCount)
  {
    var cs := CountedSchools(es, nCount);
    if i :| 0 <= i < |es| && Counted(es[i], nCount) {
      assert multiset(cs)[es[i]] == multiset(es)[es[i]] > 0;
    }
  }

  /** The SPED percents of the counted schools, one per counted school. */
  function CountedPercents(es: seq<SpedEnrollment>, nCount: nat): (ps: seq<real>)
    ensures |ps| == |CountedSchools(es, nCount)|
    ensures forall j :: 0 <= j < |ps| ==> Some(ps[j]) == SpedPercent(CountedSchools(es, nCount)[j])
    ensures Numeric.AllWithin(ps, 0.0, 100.0)
  {
    var cs := CountedSchools(es, nCount);
    seq(|cs|, j requires 0 <= j < |cs| => SpedPercent(cs[j]).value)
  }

  /** The statewide average SPED percent of a grade model: the mean over
      the counted schools, none when no school is counted. */
  function SpedAverage(es: seq<SpedEnrollment>, nCount: nat): (sa: Option<real>)
    ensures sa.Some? <==> exists i :: 0 <= i < |es| && Counted(es[i], nCount)
    ensures sa.Some? ==> sa.value == Numeric.Sum(CountedPercents(es, nCount)) / |CountedSchools(es, nCount)| as real
    ensures sa.Some? ==> 0.0 <= sa.value <= 100.0
  {
    var ps := CountedPercents(es, nCount);
    CountedNonempty(es, nCount);
    if |ps| == 0 then None
    else
      Numeric.MeanWithin(ps, 0.0, 100.0);
      Numeric.Mean(ps)
  }

  /** When every counted school has the same SPED percent, that percent is
      the statewide average. */
  lemma UniformSpedAverage(es: seq<SpedEnrollment>, nCount: nat, p: real)
    requires exists i :: 0 <= i < |es| && Counted(es[i], nCount)
    requires forall i :: 0 <= i < |es| && Counted(es[i], nCount) ==> SpedPercent(es[i]) == Some(p)
    ensures SpedAverage(es, nCount) == Some(p)
  {
    var cs := CountedSchools(es, nCount);
    var ps := CountedPercents(es, nCount);
    CountedNonempty(es, nCount);
    forall j | 0 <= j < |ps| ensures ps[j] == p {
      assert cs[j] in es;
    }
    Numeric.MeanUniform(ps, p);
  }

  /** The SPED bands: 2 from 80% of the average, 1.5 from 70%, 1 from 60%,
      0 below; missing when the percent or the average is. */
  function SpedBand(p: Option<real>, sa: Option<real>): (r: Option<real>)
    ensures r.None? <==> p.None? || sa.None?
  {
    var rules := [
      Rule(2.0, Ge(p, Scale(0.8, sa))),
      Rule(1.5, Ge(p, Scale(0.7, sa)) && Lt(p, Scale(0.8, sa))),
      Rule(1.0, Ge(p, Scale(0.6, sa)) && Lt(p, Scale(0.7, sa))),
      Rule(0.0, Lt(p, Scale(0.6, sa)))];
    assert p.Some? && sa.Some? ==> rules[0].holds || rules[1].holds || rules[2].holds || rules[3].holds;
    Select(rules, None)
  }

  /** How many of 60%, 70% and 80% of the average a percent reaches. */
  function FractionsReached(p: real, sa: real): nat {
    (if p >= 0.6 * sa then 1 else 0) + (if p >= 0.7 * sa then 1 else 0) + (if p >= 0.8 * sa then 1 else 0)
  }

  /** Reference reading of the SPED bands: the points are 0, 1, 1.5 or 2 as
      a percent reaches none, one, two or all of 60%, 70% and 80% of a
      non-negative average. */
  lemma SpedBandCountsFractions(p: real, sa: real)
    requires sa >= 0.0
    ensures SpedBand(Some(p), Some(sa)) == Some([0.0, 1.0, 1.5, 2.0][FractionsReached(p, sa)])
  {
    var k := FractionsReached(p, sa);
    if p >= 0.8 * sa { assert k == 3; }
    else if p >= 0.7 * sa { assert k == 2; }
    else if p >= 0.6 * sa { assert k == 1; }
    else { assert k == 0; }
  }

  /** A higher SPED percent never earns fewer points. */
  lemma SpedBandMonotone(p: real, q: real, sa: real)
    requires sa >= 0.0 && p <= q
    ensures SpedBand(Some(p), Some(sa)).value <= SpedBand(Some(q), Some(sa)).value
  {
    SpedBandCountsFractions(p, sa);
    SpedBandCountsFractions(q, sa);
    assert FractionsReached(p, sa) <= FractionsReached(q, sa);
  }

  /** The SPED enrollment bonus: the band of the school's percent, none for
      a school with at most N SPED students or no FAY students. */
  function SpedBonus(e: SpedEnrollment, sa: Option<real>, nCount: nat): (r: Option<real>)
    ensures r.Some? <==> e.numSped > nCount && e.numFay > 0 && sa.Some?
  {
    if e.numSped <= nCount || e.numFay == 0 then None
    else SpedBand(SpedPercent(e), sa)
  }

  /** A school with exactly N SPED students is in the statewide average but
      earns no SPED bonus. */
  lemma ExactlyNCountsButEarnsNothing(e: SpedEnrollment, sa: Option<real>, nCount: nat)
    requires e.numSped == nCount && e.numFay > 0
    ensures Counted(e, nCount) && SpedBonus(e, sa, nCount).None?
  {
  }

  /** Some counted school, one with the largest percent, is at or above the
      statewide average, and earns the full 2 points when it has more than N
      SPED students. */
  lemma TopCountedSchoolEarnsFull(es: seq<SpedEnrollment>, nCount: nat)
    requires exists i :: 0 <= i < |es| && Counted(es[i], nCount)
    ensures exists i :: 0 <= i < |es| && Counted(es[i], nCount) && SpedPercent(es[i]).value >= SpedAverage(es, nCount).value
              && (es[i].numSped > nCount ==> SpedBonus(es[i], SpedAverage(es, nCount), nCount) == Some(2.0))
  {
    var cs := CountedSchools(es, nCount);
    var ps := CountedPercents(es, nCount);
    CountedNonempty(es, nCount);
    Numeric.SomeAtLeastMean(ps);
    var j :| 0 <= j < |ps| && ps[j] >= Numeric.Mean(ps).value;
    assert cs[j] in es;
    var i :| 0 <= i < |es| && es[i] == cs[j];
    var sa := SpedAverage(es, nCount).value;
    assert sa == Numeric.Mean(ps).value;
    SpedBandCountsFractions(ps[j], sa);
    assert FractionsReached(ps[j], sa) == 3;
  }

  // ---------------------------------------------------------------------
  // Science proficiency

  /** The grade model a grade counts toward for science proficiency. */
  function ScienceModel(grade: int): (m: Option<StateConfig.StateModel>)
    ensures m.Some? <==> grade in {5, 8, 11}
    ensures m.Some? ==> m.value != StateConfig.AltHS
  {
    if grade == 5 || grade == 8 then Some(StateConfig.K8)
    else if grade == 11 then Some(StateConfig.HS)
    else None
  }

  /** FAY science test takers per performance level. */
  datatype ScienceLevels = ScienceLevels(p1: nat, p2: nat, p3: nat, p4: nat) {
    function Total(): nat { p1 + p2 + p3 + p4 }
  }

  /** Percent of FAY takers at levels 3 and 4; none without FAY takers. */
  function ScienceProficient(l: ScienceLevels): (p: Option<real>)
    ensures p.None? <==> l.Total() == 0
    ensures p.Some? ==> 0.0 <= p.value <= 100.0
    ensures p.Some? ==> p.value * l.Total() as real == (l.p3 + l.p4) as real * 100.0
  {
    if l.Total() == 0 then None
    else
      var t := l.Total() as real;
      var x := (l.p3 + l.p4) as real / t * 100.0;
      assert x * t == (l.p3 + l.p4) as real * 100.0;
      Numeric.ScaledCompare(x, t, (l.p3 + l.p4) as real * 100.0, 100.0);
      Numeric.ScaledCompare(x, t, (l.p3 + l.p4) as real * 100.0, 0.0);
      Some(x)
  }

  /** One school's science counts: distinct students enrolled in the
      science window, distinct students with a science result, and FAY
      takers by level. */
  datatype ScienceSchool = ScienceSchool(enrolled: nat, tested: nat, levels: ScienceLevels)

  /** Percent tested; missing when either count has no students (an outer
      merge of two group counts). */
  function PercentTested(s: ScienceSchool): (pt: Option<real>)
    ensures pt.None? <==> s.enrolled == 0 || s.tested == 0
    ensures pt.Some? ==> pt.value * s.enrolled as real == s.tested as real * 100.0
  {
    if s.enrolled == 0 || s.tested == 0 then None
    else
      var x := s.tested as real / s.enrolled as real * 100.0;
      assert x * s.enrolled as real == s.tested as real * 100.0;
      Some(x)
  }

  /** Eligible when the percent tested, rounded to a whole number, is at
      least the expected 95 (a missing percent counts 0). */
  predicate ScienceEligible(s: ScienceSchool) {
    Numeric.RoundWhole(PercentTested(s).GetOr(0.0)) >= StateConfig.PercentTestedExpected
  }

  /** In whole students: eligible exactly when more than 94.5% of the
      enrolled students were tested (94.5 itself rounds to the even 94). */
  lemma ScienceEligibleIff(s: ScienceSchool)
    ensures ScienceEligible(s) <==> s.enrolled > 0 && 200 * s.tested > 189 * s.enrolled
  {
    var x := PercentTested(s).GetOr(0.0);
    Numeric.RoundWholeAtLeast(x, 95);
    if s.enrolled > 0 && s.tested > 0 {
      Numeric.ScaledCompare(x, s.enrolled as real, s.tested as real * 100.0, 94.5);
    }
  }

  /** An eligible school with FAY science takers: its percent proficient
      is in the statewide sample. */
  predicate InScienceSample(s: ScienceSchool) {
    ScienceEligible(s) && s.levels.Total() > 0
  }

  /** The schools whose percents make up the sample, in table order: each
      as often as it appears, no other school. */
  function ScienceSchools(ss: seq<ScienceSchool>): (es: seq<ScienceSchool>)
    ensures forall j :: 0 <= j < |es| ==> InScienceSample(es[j]) && es[j] in ss
    ensures forall s :: multiset(es)[s] == if InScienceSample(s) then multiset(ss)[s] else 0
  {
    Seqs.FilterCounts(InScienceSample, ss);
    Seqs.Filter(InScienceSample, ss)
  }

  /** There is a school in the sample exactly when some school is eligible
      and has FAY takers. */
  lemma ScienceSchoolsNonempty(ss: seq<ScienceSchool>)
    ensures |ScienceSchools(ss)| > 0 <==> exists i :: 0 <= i < |ss| && InScienceSample(ss[i])
  {
    var es := ScienceSchools(ss);
    if i :| 0 <= i < |ss| && InScienceSample(ss[i]) {
      assert multiset(es)[ss[i]] == multiset(ss)[ss[i]] > 0;
    }
  }

  /** The proficient percents of the sampled schools, one per school. */
  function ScienceSample(ss: seq<ScienceSchool>): (ps: seq<real>)
    ensures |ps| == |ScienceSchools(ss)|
    ensures forall j :: 0 <= j < |ps| ==> Some(ps[j]) == ScienceProficient(ScienceSchools(ss)[j].levels)
    ensures Numeric.AllWithin(ps, 0.0, 100.0)
  {
    var es := ScienceSchools(ss);
    seq(|es|, j requires 0 <= j < |es| => ScienceProficient(es[j].levels).value)
  }

  /** The statewide average science percent proficient: the mean over the
      eligible schools; none when no eligible school has FAY takers. */
  function ScienceAverage(ss: seq<ScienceSchool>): (sa: Option<real>)
    ensures sa.Some? <==> exists i :: 0 <= i < |ss| && ScienceEligible(ss[i]) && ss[i].levels.Total() > 0
    ensures sa.Some? ==> sa.value == Numeric.Sum(ScienceSample(ss)) / |ScienceSchools(ss)| as real
    ensures sa.Some? ==> 0.0 <= sa.value <= 100.0
  {
    var ps := ScienceSample(ss);
    ScienceSchoolsNonempty(ss);
    if |ps| == 0 then None
    else
      Numeric.MeanWithin(ps, 0.0, 100.0);
      Numeric.Mean(ps)
  }

  /** When every sampled school has the same percent proficient, that
      percent is the statewide average. */
  lemma UniformScienceAverage(ss: seq<ScienceSchool>, p: real)
    requires exists i :: 0 <= i < |ss| && InScienceSample(ss[i])
    requires forall i :: 0 <= i < |ss| && InScienceSample(ss[i]) ==> ScienceProficient(ss[i].levels) == Some(p)
    ensures ScienceAverage(ss) == Some(p)
  {
    var es := ScienceSchools(ss);
    var ps := ScienceSample(ss);
    ScienceSchoolsNonempty(ss);
    forall j | 0 <= j < |ps| ensures ps[j] == p {
      assert es[j] in ss;
    }
    Numeric.MeanUniform(ps, p);
  }

  /** The sample variance of the same percents; the statewide standard
      deviation is its square root. */
  function ScienceVariance(ss: seq<ScienceSchool>): (v: Option<real>)
    ensures v.Some? ==> v.value >= 0.0
    ensures v.Some? ==> ScienceAverage(ss).Some?
  {
    var ps := ScienceSample(ss);
    Numeric.SampleVarianceNonnegative(ps);
    Numeric.SampleVariance(ps)
  }

  /** The science bands: 3 from the average plus one standard deviation,
      1.5 strictly between the average and that, 0 below the average, and
      0 by default (at the average, or with anything missing). */
  function ScienceBand(p: Option<real>, sa: Option<real>, sd: Option<real>): (r: real)
    ensures r == 0.0 || r == 1.5 || r == 3.0
  {
    Select(ScienceRules(p, sa, sd), Some(0.0)).value
  }

  function ScienceRules(p: Option<real>, sa: Option<real>, sd: Option<real>): seq<Rule> {
    var upper := AddStrict(sa, sd);
    [Rule(3.0, Ge(p, upper)), Rule(1.5, Gt(p, sa) && Lt(p, upper)), Rule(0.0, Lt(p, sa))]
  }

  /** Reference reading of the science bands for present values: 3 from
      average plus deviation, 1.5 strictly above the average below that,
      else 0. */
  lemma ScienceBandCases(p: real, sa: real, sd: real)
    ensures ScienceBand(Some(p), Some(sa), Some(sd)) == 3.0 <==> p >= sa + sd
    ensures ScienceBand(Some(p), Some(sa), Some(sd)) == 1.5 <==> sa < p < sa + sd
  {
    var rules := ScienceRules(Some(p), Some(sa), Some(sd));
    if p >= sa + sd {
      assert rules[0].holds;
    } else if sa < p {
      assert !rules[0].holds && rules[1].holds;
    } else {
      assert !rules[0].holds && !rules[1].holds;
    }
  }

  /** A school exactly at the average earns 0 when the schools spread out,
      and the full 3 when every eligible school has the same percent. */
  lemma ScienceAtAverage(sa: real, sd: real)
    requires sd >= 0.0
    ensures sd > 0.0 ==> ScienceBand(Some(sa), Some(sa), Some(sd)) == 0.0
    ensures sd == 0.0 ==> ScienceBand(Some(sa), Some(sa), Some(sd)) == 3.0
  {
    ScienceBandCases(sa, sa, sd);
  }

  /** Without a standard deviation (a single eligible school) or without an
      average, no school earns more than 0. */
  lemma ScienceMissingStatistics(p: Option<real>, sa: Option<real>, sd: Option<real>)
    requires sa.None? || sd.None? || p.None?
    ensures ScienceBand(p, sa, sd) == 0.0
  {
  }

  /** A higher percent proficient never earns fewer points. */
  lemma ScienceBandMonotone(p: real, q: real, sa: real, sd: real)
    requires sd >= 0.0 && p <= q
    ensures ScienceBand(Some(p), Some(sa), Some(sd)) <= ScienceBand(Some(q), Some(sa), Some(sd))
  {
    ScienceBandCases(p, sa, sd);
    ScienceBandCases(q, sa, sd);
  }

  /** The science bonus: the band, none for a school that is not eligible. */
  function ScienceBonus(s: ScienceSchool, sa: Option<real>, sd: Option<real>): (r: Option<real>)
    ensures r.Some? <==> ScienceEligible(s)
    ensures r.Some? ==> r.value == 0.0 || r.value == 1.5 || r.value == 3.0
  {
    if !ScienceEligible(s) then None
    else Some(ScienceBand(ScienceProficient(s.levels), sa, sd))
  }

  // ---------------------------------------------------------------------
  // ACT Aspire participation

  /** One 9th-grade (by cohort) student of a school: enrolled in the
      Math/ELA window, and with a Math and an ELA ACT Aspire scale score in
      the window. */
  datatype AspireStudent = AspireStudent(inWindow: bool, math: bool, ela: bool)

  predicate AspireTakes(s: AspireStudent) { s.inWindow && s.math && s.ela }

  function AspireEnrolled(ss: seq<AspireStudent>): nat {
    if |ss| == 0 then 0 else (if ss[0].inWindow then 1 else 0) + AspireEnrolled(ss[1..])
  }

  function AspireTested(ss: seq<AspireStudent>): nat {
    if |ss| == 0 then 0 else (if AspireTakes(ss[0]) then 1 else 0) + AspireTested(ss[1..])
  }

  /** Only window students count as tested, so at most all are. */
  lemma {:induction false} AspireTestedWithin(ss: seq<AspireStudent>)
    ensures AspireTested(ss) <= AspireEnrolled(ss)
    ensures (forall i :: 0 <= i < |ss| && ss[i].inWindow ==> AspireTakes(ss[i])) ==> AspireTested(ss) == AspireEnrolled(ss)
  {
    if |ss| > 0 {
      assert forall i :: 1 <= i < |ss| ==> ss[i] == ss[1..][i - 1];
      AspireTestedWithin(ss[1..]);
    }
  }

  /** ACT Aspire points from the counts: 3 from 95% tested, 1.5 from 90%,
      else 0; none when nobody was enrolled in the window. */
  function AspirePoints(enrolled: nat, tested: nat): (r: Option<real>)
    ensures r.None? <==> enrolled == 0
    ensures r.Some? ==> (r.value == 3.0 <==> 100 * tested >= 95 * enrolled)
    ensures r.Some? ==> (r.value == 1.5 <==> 90 * enrolled <= 100 * tested < 95 * enrolled)
    ensures r.Some? ==> (r.value == 0.0 <==> 100 * tested < 90 * enrolled)
  {
    if enrolled < 1 then None
    else
      var e := enrolled as real;
      var pct := tested as real / e * 100.0;
      assert pct * e == tested as real * 100.0;
      Numeric.ScaledCompare(pct, e, tested as real * 100.0, 95.0);
      Numeric.ScaledCompare(pct, e, tested as real * 100.0, 90.0);
      var rules := [Rule(3.0, pct >= 95.0), Rule(1.5, pct < 95.0 && pct >= 90.0)];
      if pct >= 95.0 then
        assert rules[0].holds;
        Select(rules, Some(0.0))
      else if pct >= 90.0 then
        assert !rules[0].holds && rules[1].holds;
        Select(rules, Some(0.0))
      else Select(rules, Some(0.0))
  }

  /** A school's ACT Aspire bonus. */
  function AspireBonus(ss: seq<AspireStudent>): (r: Option<real>)
    ensures r.None? <==> AspireEnrolled(ss) == 0
  {
    AspirePoints(AspireEnrolled(ss), AspireTested(ss))
  }

  /** When every window student took both tests the school earns the full 3. */
  lemma EveryoneTestedEarnsFull(ss: seq<AspireStudent>)
    requires forall i :: 0 <= i < |ss| && ss[i].inWindow ==> AspireTakes(ss[i])
    requires AspireEnrolled(ss) > 0
    ensures AspireBonus(ss) == Some(3.0)
  {
    AspireTestedWithin(ss);
  }

  // ---------------------------------------------------------------------
  // Five-year subgroup graduation rates (Alt 9-12)

  datatype GradCohort = HomelessCohort | FosterCareCohort | SpedCohort

  /** A graduation-rate row of the results database, with whether the
      school is listed as alternative in the school-type file. */
  datatype FiveYearRate = FiveYearRate(school: int, cohort: GradCohort, cohortYear: int, fiveYear: bool,
                                       numCohort: nat, rate: real, alternative: bool)

  /** Minimum five-year cohort size, fixed in the query. */
  const FiveYearMinCohort: nat := 10

  /** The rows the query keeps: an alternative school's five-year rate of
      the cohort of two years before, with a cohort of at least 10. */
  predicate FiveYearSelected(r: FiveYearRate, fiscalYear: int) {
    r.alternative && r.cohortYear == fiscalYear - 2 && r.fiveYear && r.numCohort >= FiveYearMinCohort
  }

  /** The selected rows of one subgroup cohort, in table order: each as
      often as it appears, no other row. */
  function CohortRows(rows: seq<FiveYearRate>, c: GradCohort, fiscalYear: int): (out: seq<FiveYearRate>)
    ensures forall j :: 0 <= j < |out| ==> FiveYearSelected(out[j], fiscalYear) && out[j].cohort == c && out[j] in rows
    ensures forall r :: multiset(out)[r] == if FiveYearSelected(r, fiscalYear) && r.cohort == c then multiset(rows)[r] else 0
  {
    var keep := (r: FiveYearRate) => FiveYearSelected(r, fiscalYear) && r.cohort == c;
    Seqs.FilterCounts(keep, rows);
    Seqs.Filter(keep, rows)
  }

  /** There is a selected row of the cohort exactly when some row is one. */
  lemma CohortRowsNonempty(rows: seq<FiveYearRate>, c: GradCohort, fiscalYear: int)
    ensures |CohortRows(rows, c, fiscalYear)| > 0 <==>
            exists i :: 0 <= i < |rows| && FiveYearSelected(rows[i], fiscalYear) && rows[i].cohort == c
  {
    var out := CohortRows(rows, c, fiscalYear);
    if i :| 0 <= i < |rows| && FiveYearSelected(rows[i], fiscalYear) && rows[i].cohort == c {
      assert multiset(out)[rows[i]] == multiset(rows)[rows[i]] > 0;
    }
  }

  /** The rates of the selected rows of one subgroup cohort, one per row. */
  function CohortRates(rows: seq<FiveYearRate>, c: GradCohort, fiscalYear: int): (rs: seq<real>)
    ensures |rs| == |CohortRows(rows, c, fiscalYear)|
    ensures forall j :: 0 <= j < |rs| ==> rs[j] == CohortRows(rows, c, fiscalYear)[j].rate
  {
    var out := CohortRows(rows, c, fiscalYear);
    seq(|out|, j requires 0 <= j < |out| => out[j].rate)
  }

  /** The statewide average of a subgroup, rounded to 2 places. */
  function FiveYearAverage(rows: seq<FiveYearRate>, c: GradCohort, fiscalYear: int): (sa: Option<real>)
    ensures sa.Some? <==> exists i :: 0 <= i < |rows| && FiveYearSelected(rows[i], fiscalYear) && rows[i].cohort == c
    ensures sa.Some? ==> sa.value == R2(Numeric.Sum(CohortRates(rows, c, fiscalYear)) / |CohortRows(rows, c, fiscalYear)| as real)
  {
    var rs := CohortRates(rows, c, fiscalYear);
    CohortRowsNonempty(rows, c, fiscalYear);
    if |rs| == 0 then None
    else Some(R2(Numeric.Mean(rs).value))
  }

  /** When every selected row of the cohort has the same rate, the average
      is that rate at 2 places. */
  lemma UniformFiveYearAverage(rows: seq<FiveYearRate>, c: GradCohort, fiscalYear: int, rate: real)
    requires exists i :: 0 <= i < |rows| && FiveYearSelected(rows[i], fiscalYear) && rows[i].cohort == c
    requires forall i :: 0 <= i < |rows| && FiveYearSelected(rows[i], fiscalYear) && rows[i].cohort == c ==> rows[i].rate == rate
    ensures FiveYearAverage(rows, c, fiscalYear) == Some(R2(rate))
  {
    var out := CohortRows(rows, c, fiscalYear);
    var rs := CohortRates(rows, c, fiscalYear);
    CohortRowsNonempty(rows, c, fiscalYear);
    forall j | 0 <= j < |rs| ensures rs[j] == rate {
      assert out[j] in rows;
    }
    Numeric.MeanUniform(rs, rate);
  }

  /** The bonus threshold: 80% of the (rounded) average, rounded to 2 places. */
  function FiveYearThreshold(sa: real): real { R2(0.8 * sa) }

  /** The five-year bonus of one subgroup: 2 from the threshold, else 0. */
  function FiveYearPoints(rate: real, sa: real): (p: real)
    ensures p == 0.0 || p == 2.0
  {
    Select([Rule(2.0, rate >= FiveYearThreshold(sa))], Some(0.0)).value
  }

  /** The threshold is 80% of the average up to half a hundredth: a rate
      half a hundredth above 80% earns 2, one half a hundredth below earns 0. */
  lemma FiveYearNearEightyPercent(rate: real, sa: real)
    ensures rate >= 0.8 * sa + 0.005 ==> FiveYearPoints(rate, sa) == 2.0
    ensures rate < 0.8 * sa - 0.005 ==> FiveYearPoints(rate, sa) == 0.0
  {
    Numeric.RoundToClose(0.8 * sa, 2);
    assert Numeric.Pow10(2) == 100;
  }

  /** A school at or above a non-negative rounded average earns the bonus. */
  lemma FiveYearAtAverageEarns(rate: real, m: real)
    requires m >= 0.0 && rate >= R2(m)
    ensures FiveYearPoints(rate, R2(m)) == 2.0
  {
    Numeric.RoundToNonnegative(m, 2);
    Numeric.RoundToMonotone(0.8 * R2(m), R2(m), 2);
    Numeric.RoundToIdempotent(m, 2);
  }

  predicate SchoolRow(r: FiveYearRate, school: int, c: GradCohort, fiscalYear: int) {
    FiveYearSelected(r, fiscalYear) && r.cohort == c && r.school == school
  }

  /** The school's selected row of a subgroup cohort, the first if several. */
  function FindSchoolRow(rows: seq<FiveYearRate>, school: int, c: GradCohort, fiscalYear: int): (r: Option<FiveYearRate>)
    ensures r.None? <==> forall i :: 0 <= i < |rows| ==> !SchoolRow(rows[i], school, c, fiscalYear)
    ensures r.Some? ==> r.value in rows && SchoolRow(r.value, school, c, fiscalYear)
  {
    if |rows| == 0 then None
    else if SchoolRow(rows[0], school, c, fiscalYear) then Some(rows[0])
    else
      assert forall i :: 1 <= i < |rows| ==> rows[i] == rows[1..][i - 1];
      FindSchoolRow(rows[1..], school, c, fiscalYear)
  }

  /** A school's bonus for one subgroup: none unless it has a selected row,
      so none for a school that is not alternative. */
  function SchoolFiveYear(rows: seq<FiveYearRate>, school: int, c: GradCohort, fiscalYear: int): (p: Option<real>)
    ensures p.None? <==> forall i :: 0 <= i < |rows| ==> !SchoolRow(rows[i], school, c, fiscalYear)
    ensures (forall i :: 0 <= i < |rows| && rows[i].school == school ==> !rows[i].alternative) ==> p.None?
    ensures p.Some? ==> p.value == 0.0 || p.value == 2.0
  {
    var r := FindSchoolRow(rows, school, c, fiscalYear);
    if r.None? then None
    else
      var sa := FiveYearAverage(rows, c, fiscalYear);
      assert sa.Some?;
      Some(FiveYearPoints(r.value.rate, sa.value))
  }

  // ---------------------------------------------------------------------
  // Total

  /** The eight bonus columns of a school-model row; the 9-12 SPED and
      science results sit in their own columns. */
  datatype BonusColumns = BonusColumns(spbp: Option<real>, spbpPoints: Option<real>,
                                       scbp: Option<real>, scbpPoints: Option<real>,
                                       actAspire: Option<real>, grFosterCare: Option<real>,
                                       grMckinneyVento: Option<real>, grSped: Option<real>)

  predicate AllMissing(b: BonusColumns) {
    b.spbp.None? && b.spbpPoints.None? && b.scbp.None? && b.scbpPoints.None?
    && b.actAspire.None? && b.grFosterCare.None? && b.grMckinneyVento.None? && b.grSped.None?
  }

  /** The bonus total: missing when every column is, else the sum with
      missing columns as 0. */
  function TotalBonus(b: BonusColumns): (t: Option<real>)
    ensures t.None? <==> AllMissing(b)
  {
    if AllMissing(b) then None
    else Some(b.spbp.GetOr(0.0) + b.spbpPoints.GetOr(0.0) + b.scbp.GetOr(0.0) + b.scbpPoints.GetOr(0.0)
              + b.actAspire.GetOr(0.0) + b.grFosterCare.GetOr(0.0) + b.grMckinneyVento.GetOr(0.0) + b.grSped.GetOr(0.0))
  }

  /** A school's bonus results before they are placed in columns. */
  datatype SchoolBonuses = SchoolBonuses(sped: Option<real>, science: Option<real>, aspire: Option<real>,
                                         fosterCare: Option<real>, homeless: Option<real>, spedGrad: Option<real>)

  /** The row kept for the school's own state model: k-8 reports SPED and
      science, 9-12 SPED, science and ACT Aspire, Alt 9-12 ACT Aspire and
      the three subgroup graduation bonuses. */
  function Placed(m: StateConfig.StateModel, s: SchoolBonuses): BonusColumns {
    match m
    case K8 => BonusColumns(s.sped, None, s.science, None, None, None, None, None)
    case HS => BonusColumns(None, s.sped, None, s.science, s.aspire, None, None, None)
    case AltHS => BonusColumns(None, None, None, None, s.aspire, s.fosterCare, s.homeless, s.spedGrad)
  }

  /** The bonuses a model scores. */
  function ModelBonuses(m: StateConfig.StateModel, s: SchoolBonuses): seq<Option<real>> {
    match m
    case K8 => [s.sped, s.science]
    case HS => [s.sped, s.science, s.aspire]
    case AltHS => [s.aspire, s.fosterCare, s.homeless, s.spedGrad]
  }

  /** Most bonus points of each model: 5 for k-8, 8 for 9-12, 9 for Alt 9-12. */
  function MaxBonus(m: StateConfig.StateModel): real {
    match m
    case K8 => 2.0 + 3.0
    case HS => 2.0 + 3.0 + 3.0
    case AltHS => 3.0 + 2.0 + 2.0 + 2.0
  }

  /** The bonus scale of each result: SPED 2, science and ACT Aspire 3,
      each subgroup graduation bonus 2. */
  predicate WithinScale(s: SchoolBonuses) {
    PresentWithin([s.sped], 2.0) && PresentWithin([s.science], 3.0) && PresentWithin([s.aspire], 3.0)
    && PresentWithin([s.fosterCare, s.homeless, s.spedGrad], 2.0)
  }

  /** A model's bonus total is missing exactly when all of the model's own
      bonuses are, and is otherwise their sum with missing as 0, at most the
      model's maximum. */
  lemma ModelBonusTotal(m: StateConfig.StateModel, s: SchoolBonuses)
    requires WithinScale(s)
    ensures TotalBonus(Placed(m, s)).None? <==> AllNull(ModelBonuses(m, s))
    ensures TotalBonus(Placed(m, s)).Some? ==> TotalBonus(Placed(m, s)).value == SumSkipNull(ModelBonuses(m, s))
    ensures TotalBonus(Placed(m, s)).Some? ==> 0.0 <= TotalBonus(Placed(m, s)).value <= MaxBonus(m)
  {
    ScaleBounds(s);
    match m
    case K8 => K8Total(s);
    case HS => HSTotal(s);
    case AltHS => AltHSTotal(s);
  }

  /** The k-8 row holds the SPED and science bonuses. */
  lemma K8Total(s: SchoolBonuses)
    ensures TotalBonus(Placed(StateConfig.K8, s)) ==
            if s.sped.None? && s.science.None? then None else Some(s.sped.GetOr(0.0) + s.science.GetOr(0.0))
    ensures AllNull(ModelBonuses(StateConfig.K8, s)) <==> s.sped.None? && s.science.None?
    ensures SumSkipNull(ModelBonuses(StateConfig.K8, s)) == s.sped.GetOr(0.0) + s.science.GetOr(0.0)
  {
    var xs := ModelBonuses(StateConfig.K8, s);
    assert xs[0] == s.sped && xs[1] == s.science;
    SumSkipNullPair(s.sped, s.science);
  }

  /** The 9-12 row holds the SPED, science and ACT Aspire bonuses. */
  lemma HSTotal(s: SchoolBonuses)
    ensures TotalBonus(Placed(StateConfig.HS, s)) ==
            if s.sped.None? && s.science.None? && s.aspire.None? then None
            else Some(s.sped.GetOr(0.0) + s.science.GetOr(0.0) + s.aspire.GetOr(0.0))
    ensures AllNull(ModelBonuses(StateConfig.HS, s)) <==> s.sped.None? && s.science.None? && s.aspire.None?
    ensures SumSkipNull(ModelBonuses(StateConfig.HS, s)) == s.sped.GetOr(0.0) + s.science.GetOr(0.0) + s.aspire.GetOr(0.0)
  {
    var xs := ModelBonuses(StateConfig.HS, s);
    assert xs[0] == s.sped && xs[1] == s.science && xs[2] == s.aspire;
    assert xs[1..] == [s.science, s.aspire];
    SumSkipNullPair(s.science, s.aspire);
  }

  /** The Alt 9-12 row holds ACT Aspire and the three graduation bonuses. */
  lemma AltHSTotal(s: SchoolBonuses)
    ensures TotalBonus(Placed(StateConfig.AltHS, s)) ==
            if s.aspire.None? && s.fosterCare.None? && s.homeless.None? && s.spedGrad.None? then None
            else Some(s.aspire.GetOr(0.0) + s.fosterCare.GetOr(0.0) + s.homeless.GetOr(0.0) + s.spedGrad.GetOr(0.0))
    ensures AllNull(ModelBonuses(StateConfig.AltHS, s)) <==>
            s.aspire.None? && s.fosterCare.None? && s.homeless.None? && s.spedGrad.None?
    ensures SumSkipNull(ModelBonuses(StateConfig.AltHS, s)) ==
            s.aspire.GetOr(0.0) + s.fosterCare.GetOr(0.0) + s.homeless.GetOr(0.0) + s.spedGrad.GetOr(0.0)
  {
    var xs := ModelBonuses(StateConfig.AltHS, s);
    assert xs[0] == s.aspire && xs[1] == s.fosterCare && xs[2] == s.homeless && xs[3] == s.spedGrad;
    assert xs[1..] == [s.fosterCare, s.homeless, s.spedGrad];
    assert xs[1..][1..] == [s.homeless, s.spedGrad];
    SumSkipNullPair(s.homeless, s.spedGrad);
  }

  /** The bonus scale of each result, one result at a time. */
  lemma ScaleBounds(s: SchoolBonuses)
    requires WithinScale(s)
    ensures s.sped.Some? ==> 0.0 <= s.sped.value <= 2.0
    ensures s.science.Some? ==> 0.0 <= s.science.value <= 3.0
    ensures s.aspire.Some? ==> 0.0 <= s.aspire.value <= 3.0
    ensures s.fosterCare.Some? ==> 0.0 <= s.fosterCare.value <= 2.0
    ensures s.homeless.Some? ==> 0.0 <= s.homeless.value <= 2.0
    ensures s.spedGrad.Some? ==> 0.0 <= s.spedGrad.value <= 2.0
  {
    assert [s.sped][0] == s.sped;
    assert [s.science][0] == s.science;
    assert [s.aspire][0] == s.aspire;
    var gs := [s.fosterCare, s.homeless, s.spedGrad];
    assert gs[0] == s.fosterCare && gs[1] == s.homeless && gs[2] == s.spedGrad;
  }

  /** The total of a school that earns every bonus of its model in full is
      the model's maximum. */
  lemma FullBonusesReachMaximum(m: StateConfig.StateModel)
    ensures TotalBonus(Placed(m, SchoolBonuses(Some(2.0), Some(3.0), Some(3.0), Some(2.0), Some(2.0), Some(2.0)))) == Some(MaxBonus(m))
  {
  }
}
