/** The federal Graduation Rate indicator. The input is the published
    graduation-rate table, one row per school, subgroup, rate type and cohort;
    only 4-year rates of the cohort that graduated last fiscal year count, and
    a school scores `round(rate * weight / 100, 2)`, with the rate suppressed
    when the cohort has fewer than N students. */
module FederalGraduation {
  import opened Wrappers
  import opened Numeric
  import opened Nullable
  import FederalConfig

  /** The graduation-rate type scored: the 4-year rate. */
  const GradRateType: int := 4

  datatype GradRow = GradRow(
    gradRateType: int, cohortYear: int, school: int, schoolType: FederalConfig.FedModel,
    subgroup: Option<string>, numCohort: nat, rate: Option<real>)

  /** Rows scored: 4-year rates of the cohort of the previous fiscal year,
      with a labelled subgroup, at schools whose model has Graduation Rate. */
  predicate Scored(row: GradRow, fiscalYear: int) {
    row.gradRateType == GradRateType && row.cohortYear == fiscalYear - 1 && row.subgroup.Some?
    && FederalConfig.WeightFraction(row.schoolType, FederalConfig.GraduationRate).Some?
  }

  /** Only 9-12 and k-12 schools are scored on graduation. */
  lemma ScoredModels(row: GradRow, fiscalYear: int)
    requires Scored(row, fiscalYear)
    ensures row.schoolType == FederalConfig.HS || row.schoolType == FederalConfig.K12
  {
    FederalConfig.ComponentPresence(row.schoolType);
  }

  /** Points of a row: none when the rate is missing or the cohort has fewer
      than `nCount` students. */
  function Points(row: GradRow, nCount: nat): (points: Option<real>)
    requires FederalConfig.Weight(row.schoolType, FederalConfig.GraduationRate).Some?
    requires row.rate.Some? ==> 0.0 <= row.rate.value <= 100.0
    ensures points.None? <==> row.rate.None? || row.numCohort < nCount
    ensures points.Some? ==> 0.0 <= points.value <= FederalConfig.Weight(row.schoolType, FederalConfig.GraduationRate).value
    ensures points.Some? && row.rate == Some(100.0) ==>
              points.value == FederalConfig.Weight(row.schoolType, FederalConfig.GraduationRate).value
  {
    var w := FederalConfig.WeightFraction(row.schoolType, FederalConfig.GraduationRate).value;
    var weight := FederalConfig.Weight(row.schoolType, FederalConfig.GraduationRate).value;
    var rate := Suppress(row.rate, row.numCohort, nCount);
    if rate.None? then None
    else
      var x := w * rate.value;
      FederalConfig.WeightsWhole(row.schoolType, FederalConfig.GraduationRate);
      assert 0.0 <= x <= weight by {
        assert weight - x == w * (100.0 - rate.value);
      }
      RoundToBetween(x, 0, weight.Floor, 2);
      RoundToInteger(weight.Floor, 2);
      Some(RoundTo(x, 2))
  }

  /** A higher graduation rate never earns fewer points. */
  lemma PointsMonotone(row: GradRow, higher: real, nCount: nat)
    requires FederalConfig.Weight(row.schoolType, FederalConfig.GraduationRate).Some?
    requires row.rate.Some? && 0.0 <= row.rate.value <= higher <= 100.0 && row.numCohort >= nCount
    ensures Points(row.(rate := Some(higher)), nCount).value >= Points(row, nCount).value
  {
    var w := FederalConfig.WeightFraction(row.schoolType, FederalConfig.GraduationRate).value;
    assert w * row.rate.value <= w * higher by {
      assert w * higher - w * row.rate.value == w * (higher - row.rate.value);
    }
    RoundToMonotone(w * row.rate.value, w * higher, 2);
  }

  /** The drilldown shows the rate suppressed under the N-count, next to a
      cohort-named copy that keeps the unsuppressed rate. */
  datatype Drilldown = Drilldown(rate: Option<real>, cohortRate: Option<real>)

  function DrilldownOf(row: GradRow, nCount: nat): (d: Drilldown)
    ensures d.cohortRate == row.rate
    ensures d.rate.None? <==> row.rate.None? || row.numCohort < nCount
    ensures d.rate.Some? ==> d.rate == row.rate
  {
    Drilldown(Suppress(row.rate, row.numCohort, nCount), row.rate)
  }
}
