/** The state Graduation Rate and Graduation Rate Improvement indicators.
    Traditional schools earn the weighted sum of their 4- to 7-year rates,
    capped at the model weight and reported only when all four cohorts meet
    the N-count; alternative schools earn their highest rate among the
    cohorts that meet it; traditional schools also earn improvement points
    from their current and prior 4-year rates by ordered rules. */
module StateGraduation {
  import opened Wrappers
  import opened Nullable
  import Numeric
  import StateConfig
  import opened Rules

  /** One graduation-rate row joined with the school-type table. */
  datatype GradRow = GradRow(
    school: int, subgroup: string, schoolType: int, alternative: bool,
    rateType: int, cohort: int, numCohort: nat, rate: real)

  /** The cohort size and rate of one (school, rate type) cell. */
  datatype CohortRate = CohortRate(numCohort: nat, rate: real)

  /** The graduation cohort each rate type reports this year: the 4-year rate
      the latest cohort, the 7-year rate the cohort three years older. */
  function RateTypeCohort(rateType: int, fiscalYear: int): (cohort: Option<int>)
    ensures cohort.Some? <==> 4 <= rateType <= 7
  {
    if 4 <= rateType <= 7 then Some(StateConfig.CyGradCohort(fiscalYear) - (rateType - 4)) else None
  }

  /** The rate type whose rate a cohort is reported under this year. */
  function CohortRateType(cohort: int, fiscalYear: int): Option<int> {
    var k := StateConfig.CyGradCohort(fiscalYear) - cohort;
    if 0 <= k <= 3 then Some(4 + k) else None
  }

  /** The rate-type map is a bijection between rate types 4..7 and the four
      latest graduation cohorts: each inverts the other. */
  lemma RateTypeCohortInverse(rateType: int, cohort: int, fiscalYear: int)
    ensures RateTypeCohort(rateType, fiscalYear) == Some(cohort) <==> CohortRateType(cohort, fiscalYear) == Some(rateType)
    ensures RateTypeCohort(4, fiscalYear) == Some(fiscalYear - 1)
    ensures RateTypeCohort(7, fiscalYear) == Some(fiscalYear - 4)
  {
  }

  /** School types 3 and 4 are the ones with high-school grades. */
  predicate HighSchoolType(t: int) {
    t == 3 || t == 4
  }

  /** Rows the indicator reads: the all-students subgroup of a high-school
      type, at the cohort its rate type reports this year. */
  predicate Selected(r: GradRow, fiscalYear: int) {
    r.subgroup == "All" && HighSchoolType(r.schoolType)
    && RateTypeCohort(r.rateType, fiscalYear) == Some(r.cohort)
  }

  /** The first selected row of a school and rate type, if there is one. */
  function Lookup(rows: seq<GradRow>, school: int, rateType: int, fiscalYear: int): (c: Option<CohortRate>)
    ensures c.None? <==> forall i :: 0 <= i < |rows| ==> !(Selected(rows[i], fiscalYear) && rows[i].school == school && rows[i].rateType == rateType)
    ensures c.Some? ==> exists i :: 0 <= i < |rows| && Selected(rows[i], fiscalYear) && rows[i].school == school
                         && rows[i].rateType == rateType && c.value == CohortRate(rows[i].numCohort, rows[i].rate)
  {
    if |rows| == 0 then None
    else if Selected(rows[0], fiscalYear) && rows[0].school == school && rows[0].rateType == rateType then
      Some(CohortRate(rows[0].numCohort, rows[0].rate))
    else
      var c := Lookup(rows[1..], school, rateType, fiscalYear);
      assert forall i :: 1 <= i < |rows| ==> rows[i] == rows[1..][i - 1];
      if c.Some? then
        var j :| 0 <= j < |rows[1..]| && Selected(rows[1..][j], fiscalYear) && rows[1..][j].school == school
                 && rows[1..][j].rateType == rateType && c.value == CohortRate(rows[1..][j].numCohort, rows[1..][j].rate);
        assert rows[j + 1] == rows[1..][j];
        c
      else c
  }

  /** A traditional school's four rate cells, one per rate type 4..7. */
  datatype TradRates = TradRates(y4: Option<CohortRate>, y5: Option<CohortRate>,
                                 y6: Option<CohortRate>, y7: Option<CohortRate>)

  function TradRatesOf(rows: seq<GradRow>, school: int, fiscalYear: int): TradRates {
    TradRates(Lookup(rows, school, 4, fiscalYear), Lookup(rows, school, 5, fiscalYear),
              Lookup(rows, school, 6, fiscalYear), Lookup(rows, school, 7, fiscalYear))
  }

  /** A cell is eligible when it exists and its cohort meets the N-count. */
  predicate Meets(c: Option<CohortRate>, nCount: nat) {
    c.Some? && c.value.numCohort >= nCount
  }

  /** Points of one rate cell: the rate type's weight over 100 times the
      rate, none when the cell is missing or its cohort is under N. */
  function RatePoints(c: Option<CohortRate>, rateType: int, nCount: nat): (p: Option<real>)
    requires 4 <= rateType <= 7
    ensures p.Some? <==> Meets(c, nCount)
    ensures p.Some? && c.value.rate >= 0.0 ==> p.value >= 0.0
    ensures p.Some? && c.value.rate <= 100.0 ==> p.value <= StateConfig.TradGradRateWeight(rateType).value
  {
    if Meets(c, nCount) then
      var w := StateConfig.TradGradRateWeight(rateType).value;
      assert c.value.rate <= 100.0 ==> w / 100.0 * c.value.rate <= w by {
        if c.value.rate <= 100.0 {
          Numeric.RealMulMonotone(c.value.rate, 100.0, w / 100.0);
        }
      }
      Some(w / 100.0 * c.value.rate)
    else None
  }

  function TradPointCells(t: TradRates, nCount: nat): seq<Option<real>> {
    [RatePoints(t.y4, 4, nCount), RatePoints(t.y5, 5, nCount), RatePoints(t.y6, 6, nCount), RatePoints(t.y7, 7, nCount)]
  }

  /** Number of eligible cells (the `Eligible` column summed per school). */
  function EligibleCells(t: TradRates, nCount: nat): (k: nat)
    ensures k <= 4
  {
    (if Meets(t.y4, nCount) then 1 else 0) + (if Meets(t.y5, nCount) then 1 else 0)
    + (if Meets(t.y6, nCount) then 1 else 0) + (if Meets(t.y7, nCount) then 1 else 0)
  }

  /** The traditional-school Graduation Rate points: the eligible cells'
      points summed (nulls as 0), capped at the model weight, and none
      unless all four cohorts meet the N-count. */
  function TradPoints(t: TradRates, nCount: nat): (p: Option<real>)
    ensures p.Some? <==> Meets(t.y4, nCount) && Meets(t.y5, nCount) && Meets(t.y6, nCount) && Meets(t.y7, nCount)
    ensures p.Some? ==> p.value <= StateConfig.WeightOrZero(StateConfig.HS, StateConfig.GraduationRate)
  {
    var cap := StateConfig.WeightOrZero(StateConfig.HS, StateConfig.GraduationRate);
    if EligibleCells(t, nCount) != 4 then None
    else CapAt(Some(SumSkipNull(TradPointCells(t, nCount))), cap)
  }

  /** The rate of a cell, 0 for a missing one. */
  function Rate(c: Option<CohortRate>): real {
    if c.Some? then c.value.rate else 0.0
  }

  /** The weighted rate sum behind the traditional points, written over the
      rates: 5%, 4%, 2.5% and 0.5% of the 4- to 7-year rates. */
  function WeightedRates(t: TradRates): real {
    0.05 * Rate(t.y4) + 0.04 * Rate(t.y5) + 0.025 * Rate(t.y6) + 0.005 * Rate(t.y7)
  }

  lemma TradCellsSum(t: TradRates, nCount: nat)
    requires EligibleCells(t, nCount) == 4
    ensures SumSkipNull(TradPointCells(t, nCount)) == WeightedRates(t)
  {
    var cs := TradPointCells(t, nCount);
    assert cs[3..][1..] == [];
    assert SumSkipNull(cs[3..]) == 0.005 * Rate(t.y7);
    assert cs[2..][1..] == cs[3..];
    assert SumSkipNull(cs[2..]) == 0.025 * Rate(t.y6) + 0.005 * Rate(t.y7);
    assert cs[1..][1..] == cs[2..];
    assert SumSkipNull(cs[1..]) == 0.04 * Rate(t.y5) + 0.025 * Rate(t.y6) + 0.005 * Rate(t.y7);
  }

  /** An eligible traditional school earns its weighted rate sum, up to the
      10-point Graduation Rate weight; it reaches the cap exactly when that
      sum does. */
  lemma TradPointsValue(t: TradRates, nCount: nat)
    requires TradPoints(t, nCount).Some?
    ensures TradPoints(t, nCount).value == (if WeightedRates(t) > 10.0 then 10.0 else WeightedRates(t))
    ensures TradPoints(t, nCount).value == 10.0 <==> WeightedRates(t) >= 10.0
  {
    TradCellsSum(t, nCount);
  }

  /** A school graduating `r` percent of every cohort earns 0.12 r points,
      capped at 10: it needs 83 1/3 percent for the full weight. */
  lemma UniformRates(t: TradRates, nCount: nat, r: real)
    requires TradPoints(t, nCount).Some?
    requires Rate(t.y4) == r && Rate(t.y5) == r && Rate(t.y6) == r && Rate(t.y7) == r
    ensures TradPoints(t, nCount).value == (if 0.12 * r > 10.0 then 10.0 else 0.12 * r)
  {
    TradPointsValue(t, nCount);
  }

  /** Raising rates never lowers the traditional points. */
  lemma TradPointsMonotone(t: TradRates, u: TradRates, nCount: nat)
    requires TradPoints(t, nCount).Some? && TradPoints(u, nCount).Some?
    requires Rate(t.y4) <= Rate(u.y4) && Rate(t.y5) <= Rate(u.y5) && Rate(t.y6) <= Rate(u.y6) && Rate(t.y7) <= Rate(u.y7)
    ensures TradPoints(t, nCount).value <= TradPoints(u, nCount).value
  {
    TradPointsValue(t, nCount);
    TradPointsValue(u, nCount);
  }

  /** Rates in [0, 100] give points in [0, 10]. */
  lemma TradPointsWithin(t: TradRates, nCount: nat)
    requires TradPoints(t, nCount).Some?
    requires 0.0 <= Rate(t.y4) && 0.0 <= Rate(t.y5) && 0.0 <= Rate(t.y6) && 0.0 <= Rate(t.y7)
    ensures 0.0 <= TradPoints(t, nCount).value <= 10.0
  {
    TradPointsValue(t, nCount);
  }

  /** The highest rate among the cells whose cohort meets the N-count. */
  function MaxEligibleRate(cs: seq<CohortRate>, nCount: nat): (m: Option<real>)
    ensures m.Some? <==> exists i :: 0 <= i < |cs| && cs[i].numCohort >= nCount
    ensures m.Some? ==> forall i :: 0 <= i < |cs| && cs[i].numCohort >= nCount ==> cs[i].rate <= m.value
    ensures m.Some? ==> exists i :: 0 <= i < |cs| && cs[i].numCohort >= nCount && cs[i].rate == m.value
  {
    if |cs| == 0 then None
    else
      var rest := MaxEligibleRate(cs[1..], nCount);
      assert forall i :: 1 <= i < |cs| ==> cs[i] == cs[1..][i - 1];
      if cs[0].numCohort < nCount then rest
      else if rest.Some? && rest.value > cs[0].rate then rest
      else Some(cs[0].rate)
  }

  /** The alternative-school Graduation Rate points: the cells under the
      N-count are dropped, the highest remaining rate times the weight over
      100, capped at the weight; none when no cell remains. */
  function AltPoints(cs: seq<CohortRate>, nCount: nat): (p: Option<real>)
    ensures p.Some? <==> exists i :: 0 <= i < |cs| && cs[i].numCohort >= nCount
    ensures p.Some? ==> p.value <= StateConfig.WeightOrZero(StateConfig.AltHS, StateConfig.GraduationRate)
  {
    var w := StateConfig.WeightOrZero(StateConfig.AltHS, StateConfig.GraduationRate) / 100.0;
    var m := MaxEligibleRate(cs, nCount);
    if m.None? then None else CapAt(Some(m.value * w), w * 100.0)
  }

  /** An alternative school is scored on its best eligible cohort: every
      eligible rate earns at most the school's points (up to the cap), and
      one of them earns exactly those points. */
  lemma AltPointsBestCohort(cs: seq<CohortRate>, nCount: nat)
    requires AltPoints(cs, nCount).Some?
    ensures forall i :: 0 <= i < |cs| && cs[i].numCohort >= nCount ==>
              (if 0.1 * cs[i].rate > 10.0 then 10.0 else 0.1 * cs[i].rate) <= AltPoints(cs, nCount).value
    ensures exists i :: 0 <= i < |cs| && cs[i].numCohort >= nCount &&
              AltPoints(cs, nCount).value == (if 0.1 * cs[i].rate > 10.0 then 10.0 else 0.1 * cs[i].rate)
  {
    var m := MaxEligibleRate(cs, nCount).value;
    forall i | 0 <= i < |cs| && cs[i].numCohort >= nCount
      ensures (if 0.1 * cs[i].rate > 10.0 then 10.0 else 0.1 * cs[i].rate) <= AltPoints(cs, nCount).value
    {
      Numeric.RealMulMonotone(cs[i].rate, m, 0.1);
    }
  }

  /** The cells of one alternative school that the source pivots. */
  function AltCells(rows: seq<GradRow>, school: int, fiscalYear: int): seq<CohortRate> {
    var t := TradRatesOf(rows, school, fiscalYear);
    (if t.y4.Some? then [t.y4.value] else []) + (if t.y5.Some? then [t.y5.value] else [])
    + (if t.y6.Some? then [t.y6.value] else []) + (if t.y7.Some? then [t.y7.value] else [])
  }

  /** A rate rounded to two places; none stays none. */
  function Round2(x: Option<real>): Option<real> {
    if x.Some? then Some(Numeric.RoundTo(x.value, 2)) else None
  }

  /** The improvement rules on the rounded current (`cy`) and prior (`py`)
      4-year rates, in the order they are assigned; a comparison with a
      missing rate is false. */
  function ImprovementRules(cy: Option<real>, py: Option<real>, weight: real): seq<Rule> {
    var both := cy.Some? && py.Some?;
    [ Rule(0.0, both && cy.value < py.value - 2.0),
      Rule(weight / 2.0, both && cy.value <= py.value + 2.0 && cy.value >= py.value - 2.0),
      Rule(weight, (both && cy.value > py.value + 2.0) || (cy.Some? && cy.value >= 90.0)) ]
  }

  /** Graduation Rate Improvement points of a school from the current and
      prior 4-year rate cells: alternative schools and cells under the
      N-count take no part; the rules apply to the rates rounded to 2 places. */
  function ImprovementPoints(alternative: bool, cy: Option<CohortRate>, py: Option<CohortRate>, nCount: nat): (p: Option<real>)
    ensures alternative ==> p.None?
    ensures p.Some? ==> Meets(cy, nCount)
  {
    if alternative then None
    else
      var w := StateConfig.WeightOrZero(StateConfig.HS, StateConfig.GradRateImprovement);
      ApplyRules(ImprovementRules(EligibleRate(cy, nCount), EligibleRate(py, nCount), w), None)
  }

  /** The improvement decision stated directly: full weight (10) for a
      current rate of 90 or more or a gain of more than 2 points, half (5)
      for a change of at most 2 points, nothing for a drop of more than 2,
      and no value without a current rate, or without a prior rate below 90. */
  function IntendedImprovement(cy: Option<real>, py: Option<real>): Option<real> {
    if cy.None? then None
    else if cy.value >= 90.0 then Some(10.0)
    else if py.None? then None
    else if cy.value > py.value + 2.0 then Some(10.0)
    else if cy.value >= py.value - 2.0 then Some(5.0)
    else Some(0.0)
  }

  /** The ordered rule assignment computes the direct decision: a later rule
      wins over an earlier one, and the three rules cover every pair of
      rates. */
  lemma ImprovementIsIntended(cy: Option<real>, py: Option<real>)
    ensures ApplyRules(ImprovementRules(cy, py, 10.0), None) == IntendedImprovement(cy, py)
  {
    var rs := ImprovementRules(cy, py, 10.0);
    if rs[2].holds {
      assert ApplyRules(rs, None) == Some(10.0);
    } else if rs[1].holds {
      assert ApplyRules(rs, None) == Some(5.0);
    } else if rs[0].holds {
      assert ApplyRules(rs, None) == Some(0.0);
    } else {
      assert ApplyRules(rs, None) == None;
    }
  }

  /** The rate of an eligible cell rounded to 2 places; none otherwise. */
  function EligibleRate(c: Option<CohortRate>, nCount: nat): Option<real> {
    if Meets(c, nCount) then Round2(Some(c.value.rate)) else None
  }

  /** A traditional school's improvement points are the direct decision on
      its eligible rates rounded to 2 places. */
  lemma ImprovementPointsIntended(cy: Option<CohortRate>, py: Option<CohortRate>, nCount: nat)
    ensures ImprovementPoints(false, cy, py, nCount) == IntendedImprovement(EligibleRate(cy, nCount), EligibleRate(py, nCount))
  {
    ImprovementIsIntended(EligibleRate(cy, nCount), EligibleRate(py, nCount));
  }

  /** A traditional school with both rates eligible always gets improvement
      points, and they are 0, 5 or 10. */
  lemma ImprovementAlwaysScored(cy: CohortRate, py: CohortRate, nCount: nat)
    requires cy.numCohort >= nCount && py.numCohort >= nCount
    ensures ImprovementPoints(false, Some(cy), Some(py), nCount).Some?
    ensures ImprovementPoints(false, Some(cy), Some(py), nCount).value in {0.0, 5.0, 10.0}
  {
    ImprovementIsIntended(Round2(Some(cy.rate)), Round2(Some(py.rate)));
  }

  /** A current rate of 90 earns the full weight even when the prior rate
      is missing or under the N-count. */
  lemma HighRateWithoutPriorYear(cy: CohortRate, nCount: nat)
    requires cy.numCohort >= nCount && cy.rate == 90.0
    ensures ImprovementPoints(false, Some(cy), None, nCount) == Some(10.0)
  {
    Numeric.RoundToInteger(90, 2);
    ImprovementIsIntended(Some(90.0), None);
  }
}
