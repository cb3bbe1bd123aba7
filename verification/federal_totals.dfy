/** Federal CSI and ATSI totals and CSI low-achievement identification. A
    school's earned points are its component scores with missing ones as 0;
    its eligible points are its model's weights of the components it was
    scored on; the total is earned over eligible, out of 100. In an
    identification year the Title I schools below the 5th percentile of the
    totals are identified; in other years an identified school stays
    identified while it stays below the previous year's threshold. */
module FederalTotals {
  import opened Wrappers
  import opened Nullable
  import Numeric
  import FederalConfig

  type Scores = map<FederalConfig.Component, real>

  /** Earned points: the scores of the used components, missing as 0. */
  function Earned(cs: seq<FederalConfig.Component>, scores: Scores): real {
    if |cs| == 0 then 0.0
    else (if cs[0] in scores then scores[cs[0]] else 0.0) + Earned(cs[1..], scores)
  }

  /** Eligible points: the model's weights of the used components that have
      a score; a component outside the model weighs 0. */
  function Eligible(m: FederalConfig.FedModel, cs: seq<FederalConfig.Component>, scores: Scores): real {
    if |cs| == 0 then 0.0
    else (if cs[0] in scores then FederalConfig.Weight(m, cs[0]).GetOr(0.0) else 0.0) + Eligible(m, cs[1..], scores)
  }

  /** The normalised total: earned over eligible times 100; none when no
      points were eligible. */
  function TotalPointsEarned(m: FederalConfig.FedModel, cs: seq<FederalConfig.Component>, scores: Scores): (t: Option<real>)
    ensures t.None? <==> Eligible(m, cs, scores) == 0.0
    ensures t.Some? ==> t.value * Eligible(m, cs, scores) == Earned(cs, scores) * 100.0
  {
    var e := Eligible(m, cs, scores);
    if e == 0.0 then None
    else
      var t := Earned(cs, scores) / e * 100.0;
      assert t * e == Earned(cs, scores) * 100.0;
      Some(t)
  }

  /** Every score of a component lies between 0 and the model's weight. */
  predicate ScoresWithinWeights(m: FederalConfig.FedModel, scores: Scores) {
    forall c :: c in scores ==> 0.0 <= scores[c] <= FederalConfig.Weight(m, c).GetOr(0.0)
  }

  /** Earned points never exceed eligible points. */
  lemma {:induction false} EarnedWithinEligible(m: FederalConfig.FedModel, cs: seq<FederalConfig.Component>, scores: Scores)
    requires ScoresWithinWeights(m, scores)
    ensures 0.0 <= Earned(cs, scores) <= Eligible(m, cs, scores)
  {
    if |cs| > 0 {
      FederalConfig.WeightsNonnegative(m, cs[0]);
      EarnedWithinEligible(m, cs[1..], scores);
    }
  }

  /** A ratio of a part to a positive whole, times 100, is a percentage. */
  lemma RatioIsPercentage(part: real, whole: real, t: real)
    requires 0.0 <= part <= whole && whole > 0.0 && t * whole == part * 100.0
    ensures 0.0 <= t <= 100.0
    ensures part == whole ==> t == 100.0
  {
    Numeric.ScaledCompare(t, whole, part * 100.0, 100.0);
    Numeric.ScaledCompare(t, whole, part * 100.0, 0.0);
    if part == whole {
      assert (t - 100.0) * whole == 0.0;
    }
  }

  /** With scores within their weights the total is a percentage. */
  lemma TotalIsPercentage(m: FederalConfig.FedModel, cs: seq<FederalConfig.Component>, scores: Scores)
    requires ScoresWithinWeights(m, scores)
    ensures TotalPointsEarned(m, cs, scores).Some? ==> 0.0 <= TotalPointsEarned(m, cs, scores).value <= 100.0
  {
    EarnedWithinEligible(m, cs, scores);
    EligibleNonnegative(m, cs, scores);
    var t := TotalPointsEarned(m, cs, scores);
    if t.Some? {
      RatioIsPercentage(Earned(cs, scores), Eligible(m, cs, scores), t.value);
    }
  }

  /** Earning every scored component's full weight earns all eligible points. */
  lemma {:induction false} FullScoresEarnEligible(m: FederalConfig.FedModel, cs: seq<FederalConfig.Component>, scores: Scores)
    requires forall c :: c in scores ==> scores[c] == FederalConfig.Weight(m, c).GetOr(0.0)
    ensures Earned(cs, scores) == Eligible(m, cs, scores)
  {
    if |cs| > 0 {
      FullScoresEarnEligible(m, cs[1..], scores);
    }
  }

  /** A school earning every scored component's full weight totals 100. */
  lemma FullScoresTotal100(m: FederalConfig.FedModel, cs: seq<FederalConfig.Component>, scores: Scores)
    requires forall c :: c in scores ==> scores[c] == FederalConfig.Weight(m, c).GetOr(0.0)
    requires TotalPointsEarned(m, cs, scores).Some?
    ensures TotalPointsEarned(m, cs, scores) == Some(100.0)
  {
    FullScoresEarnEligible(m, cs, scores);
    EligibleNonnegative(m, cs, scores);
    RatioIsPercentage(Earned(cs, scores), Eligible(m, cs, scores), TotalPointsEarned(m, cs, scores).value);
  }

  /** Every weight a model has is positive. */
  lemma WeightPositive(m: FederalConfig.FedModel, c: FederalConfig.Component)
    requires FederalConfig.Weight(m, c).Some?
    ensures FederalConfig.Weight(m, c).value > 0.0
  {
  }

  /** No points are eligible exactly when no used component of the model
      was scored. */
  lemma {:induction false} EligibleZeroIffUnscored(m: FederalConfig.FedModel, cs: seq<FederalConfig.Component>, scores: Scores)
    ensures Eligible(m, cs, scores) == 0.0 <==>
              forall i :: 0 <= i < |cs| ==> cs[i] !in scores || FederalConfig.Weight(m, cs[i]).None?
    ensures Eligible(m, cs, scores) >= 0.0
  {
    if |cs| > 0 {
      FederalConfig.WeightsNonnegative(m, cs[0]);
      if FederalConfig.Weight(m, cs[0]).Some? {
        WeightPositive(m, cs[0]);
      }
      assert forall i :: 1 <= i < |cs| ==> cs[i] == cs[1..][i - 1];
      EligibleZeroIffUnscored(m, cs[1..], scores);
    }
  }

  /** A school scored on a used component of its model has a total. */
  lemma {:induction false} ScoredComponentGivesTotal(m: FederalConfig.FedModel, cs: seq<FederalConfig.Component>, scores: Scores, c: FederalConfig.Component)
    requires c in cs && c in scores && FederalConfig.Weight(m, c).Some?
    ensures Eligible(m, cs, scores) >= FederalConfig.Weight(m, c).value
    ensures TotalPointsEarned(m, cs, scores).Some?
  {
    FederalConfig.WeightsNonnegative(m, cs[0]);
    WeightPositive(m, c);
    if cs[0] != c {
      ScoredComponentGivesTotal(m, cs[1..], scores, c);
    } else {
      EligibleNonnegative(m, cs[1..], scores);
    }
  }

  lemma {:induction false} EligibleNonnegative(m: FederalConfig.FedModel, cs: seq<FederalConfig.Component>, scores: Scores)
    ensures Eligible(m, cs, scores) >= 0.0
  {
    if |cs| > 0 {
      FederalConfig.WeightsNonnegative(m, cs[0]);
      EligibleNonnegative(m, cs[1..], scores);
    }
  }

  /** One ATSI row: a school, its model and one subgroup's component scores. */
  datatype AtsiRow = AtsiRow(model: FederalConfig.FedModel, subgroup: string, scores: Scores)

  /** An ATSI subgroup total, by the CSI rule applied to the subgroup's own
      scores: none exactly when the subgroup was scored on no used component
      of the model. */
  function AtsiTotal(cs: seq<FederalConfig.Component>, row: AtsiRow): (t: Option<real>)
    ensures t.None? <==> forall i :: 0 <= i < |cs| ==> cs[i] !in row.scores || FederalConfig.Weight(row.model, cs[i]).None?
    ensures ScoresWithinWeights(row.model, row.scores) && t.Some? ==> 0.0 <= t.value <= 100.0
  {
    EligibleZeroIffUnscored(row.model, cs, row.scores);
    var t := TotalPointsEarned(row.model, cs, row.scores);
    assert ScoresWithinWeights(row.model, row.scores) && t.Some? ==> 0.0 <= t.value <= 100.0 by {
      if ScoresWithinWeights(row.model, row.scores) {
        TotalIsPercentage(row.model, cs, row.scores);
      }
    }
    t
  }

  // ---------------------------------------------------------------------
  // CSI low-achievement identification

  /** A school of the CSI summary. */
  datatype CsiSchool = CsiSchool(model: FederalConfig.FedModel, scores: Scores, title1: bool, previouslyIdentified: bool)

  function SchoolTotal(cs: seq<FederalConfig.Component>, s: CsiSchool): Option<real> {
    TotalPointsEarned(s.model, cs, s.scores)
  }

  /** The schools the threshold is taken over: Title I schools scored on
      Proficiency. */
  predicate InThresholdSample(s: CsiSchool) {
    s.title1 && FederalConfig.Proficiency in s.scores
  }

  /** The total of each school in the threshold sample, none for the others. */
  function SampleColumn(cs: seq<FederalConfig.Component>, schools: seq<CsiSchool>): seq<Option<real>> {
    seq(|schools|, i requires 0 <= i < |schools| =>
          if InThresholdSample(schools[i]) then SchoolTotal(cs, schools[i]) else None)
  }

  /** The 5th percentile (numpy "midpoint") of a column's present values;
      none for a column with none. */
  function Threshold(col: seq<Option<real>>): (t: Option<real>)
    ensures t.None? <==> AllNull(col)
    ensures t.Some? ==> exists i :: 0 <= i < |col| && col[i].Some? && col[i].value <= t.value
    ensures t.Some? ==> exists i :: 0 <= i < |col| && col[i].Some? && t.value <= col[i].value
    ensures t.Some? ==> t.value == Numeric.Percentile(Numeric.Sort(PresentValues(col)), 5)
  {
    var vs := PresentValues(col);
    if |vs| == 0 then None
    else
      var sorted := Numeric.Sort(vs);
      assert sorted[0] in multiset(vs) && sorted[|sorted| - 1] in multiset(vs);
      var lo :| 0 <= lo < |vs| && vs[lo] == sorted[0];
      var hi :| 0 <= hi < |vs| && vs[hi] == sorted[|sorted| - 1];
      var i :| 0 <= i < |col| && col[i] == Some(vs[lo]);
      var j :| 0 <= j < |col| && col[j] == Some(vs[hi]);
      Some(Numeric.Percentile(sorted, 5))
  }

  /** The CSI threshold over the threshold sample. */
  function CsiThreshold(cs: seq<FederalConfig.Component>, schools: seq<CsiSchool>): Option<real> {
    Threshold(SampleColumn(cs, schools))
  }

  datatype Identified = Yes | No

  /** Below a threshold; false for a missing total (a NaN comparison). */
  predicate Below(total: Option<real>, threshold: real) {
    total.Some? && total.value < threshold
  }

  /** The identification of a school: none for a school that is not Title I;
      in an identification year "Yes" exactly when strictly below this year's
      threshold; in other years "Yes" exactly when previously identified and
      still below the threshold, which is then last year's. */
  function Identify(s: CsiSchool, total: Option<real>, threshold: real, identificationYear: bool): (r: Option<Identified>)
    ensures r.None? <==> !s.title1
    ensures s.title1 && identificationYear ==> (r == Some(Yes) <==> Below(total, threshold))
    ensures s.title1 && !identificationYear ==> (r == Some(Yes) <==> s.previouslyIdentified && Below(total, threshold))
  {
    if !s.title1 then None
    else if identificationYear then (if Below(total, threshold) then Some(Yes) else Some(No))
    else if s.previouslyIdentified && Below(total, threshold) then Some(Yes)
    else Some(No)
  }

  /** Historical CSI thresholds by fiscal year. */
  const CsiThresholds: map<int, real> := map[2022 := 21.99]

  /** Last year's threshold; none (a missing key) for a year not recorded. */
  function PriorThreshold(fiscalYear: int): (t: Option<real>)
    ensures t.Some? <==> fiscalYear == 2023
    ensures t.Some? ==> t.value == 21.99
  {
    if fiscalYear - 1 in CsiThresholds then Some(CsiThresholds[fiscalYear - 1]) else None
  }

  /** In an identification year the best-scoring school of the threshold
      sample is never identified, so the identification never takes every
      school. */
  lemma TopSampleSchoolNotIdentified(cs: seq<FederalConfig.Component>, schools: seq<CsiSchool>)
    requires CsiThreshold(cs, schools).Some?
    ensures exists i :: 0 <= i < |schools| && InThresholdSample(schools[i])
              && Identify(schools[i], SchoolTotal(cs, schools[i]), CsiThreshold(cs, schools).value, true) == Some(No)
  {
    var col := SampleColumn(cs, schools);
    var t := Threshold(col).value;
    var i :| 0 <= i < |col| && col[i].Some? && t <= col[i].value;
    assert InThresholdSample(schools[i]) && col[i] == SchoolTotal(cs, schools[i]);
    assert !Below(SchoolTotal(cs, schools[i]), t);
  }

  /** Every school of the threshold sample whose model weighs the used
      components has a total, so none is left out of the sample. */
  lemma SampleSchoolsHaveTotals(cs: seq<FederalConfig.Component>, s: CsiSchool)
    requires InThresholdSample(s) && FederalConfig.Proficiency in cs
    ensures SchoolTotal(cs, s).Some?
  {
    FederalConfig.ComponentPresence(s.model);
    ScoredComponentGivesTotal(s.model, cs, s.scores, FederalConfig.Proficiency);
  }
}
