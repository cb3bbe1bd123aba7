/** The federal Dropout Rate indicator. The input is the published dropout
    table, one row per school and subgroup; a school scores
    `round((100 - rate) * weight / 100, 2)`, with the rate suppressed when
    fewer than N students were enrolled. */
module FederalDropout {
  import opened Wrappers
  import opened Numeric
  import opened Nullable
  import FederalConfig

  /** One row of the dropout table; `subgroup` is none for a subgroup type
      without an ATSI label. */
  datatype DropoutRow = DropoutRow(
    fiscalYear: int, school: int, schoolType: FederalConfig.FedModel,
    subgroup: Option<string>, numEnrolled: nat, rate: Option<real>)

  /** Rows scored this year: the current fiscal year, a labelled subgroup and
      a school model that has the Dropout Rate component. */
  predicate Scored(row: DropoutRow, fiscalYear: int) {
    row.fiscalYear == fiscalYear && row.subgroup.Some?
    && FederalConfig.WeightFraction(row.schoolType, FederalConfig.DropoutRate).Some?
  }

  /** Points of a row (the "All" row for the CSI summary, every row for
      ATSI): none when the rate is missing or fewer than `nCount` students
      were enrolled. */
  function Points(row: DropoutRow, nCount: nat): (points: Option<real>)
    requires FederalConfig.Weight(row.schoolType, FederalConfig.DropoutRate).Some?
    requires row.rate.Some? ==> 0.0 <= row.rate.value <= 100.0
    ensures points.None? <==> row.rate.None? || row.numEnrolled < nCount
    ensures points.Some? ==> 0.0 <= points.value <= FederalConfig.Weight(row.schoolType, FederalConfig.DropoutRate).value
    ensures points.Some? && row.rate == Some(0.0) ==>
              points.value == FederalConfig.Weight(row.schoolType, FederalConfig.DropoutRate).value
  {
    var w := FederalConfig.WeightFraction(row.schoolType, FederalConfig.DropoutRate).value;
    var weight := FederalConfig.Weight(row.schoolType, FederalConfig.DropoutRate).value;
    var rate := Suppress(row.rate, row.numEnrolled, nCount);
    if rate.None? then None
    else
      var x := w * (100.0 - rate.value);
      FederalConfig.WeightsWhole(row.schoolType, FederalConfig.DropoutRate);
      assert 0.0 <= x <= weight by {
        assert weight - x == w * rate.value;
      }
      RoundToBetween(x, 0, weight.Floor, 2);
      RoundToInteger(weight.Floor, 2);
      Some(RoundTo(x, 2))
  }

  /** A lower dropout rate never earns fewer points. */
  lemma PointsAntitone(row: DropoutRow, lower: real, nCount: nat)
    requires FederalConfig.Weight(row.schoolType, FederalConfig.DropoutRate).Some?
    requires row.rate.Some? && 0.0 <= lower <= row.rate.value <= 100.0 && row.numEnrolled >= nCount
    ensures Points(row.(rate := Some(lower)), nCount).value >= Points(row, nCount).value
  {
    var w := FederalConfig.WeightFraction(row.schoolType, FederalConfig.DropoutRate).value;
    assert w * (100.0 - row.rate.value) <= w * (100.0 - lower) by {
      assert w * (100.0 - lower) - w * (100.0 - row.rate.value) == w * (row.rate.value - lower);
    }
    RoundToMonotone(w * (100.0 - row.rate.value), w * (100.0 - lower), 2);
  }

  /** The drilldown shows the rate suppressed under the N-count, next to a
      fiscal-year copy that keeps the unsuppressed rate. */
  datatype Drilldown = Drilldown(rate: Option<real>, fiscalYearRate: Option<real>)

  function DrilldownOf(row: DropoutRow, nCount: nat): (d: Drilldown)
    ensures d.fiscalYearRate == row.rate
    ensures d.rate.None? <==> row.rate.None? || row.numEnrolled < nCount
    ensures d.rate.Some? ==> d.rate == row.rate
  {
    Drilldown(Suppress(row.rate, row.numEnrolled, nCount), row.rate)
  }
}
