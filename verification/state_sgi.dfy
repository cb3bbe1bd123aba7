/** The state subgroup-improvement indicators of the 9-12 model: SGPI
    (proficiency), SGGRI (graduation rate) and SGDRI (dropout rate). A
    subgroup eligible in both years is marked maintained-or-improved (1) or
    not (0) by the indicator's rule, and the school earns the share of its
    eligible subgroups marked 1 times the indicator's weight. */
module StateSgi {
  import opened Wrappers
  import opened Nullable
  import Numeric
  import StateConfig
  import StateProficiency

  datatype Indicator = Sgpi | Sggri | Sgdri

  /** The indicator's weight in the 9-12 model (10, 5 and 5). */
  function IndicatorWeight(ind: Indicator): (w: real)
    ensures w > 0.0
    ensures w == StateConfig.WeightOrZero(StateConfig.HS, match ind case Sgpi => StateConfig.Sgpi case Sggri => StateConfig.Sggri case Sgdri => StateConfig.Sgdri)
  {
    match ind
    case Sgpi => StateConfig.WeightOrZero(StateConfig.HS, StateConfig.Sgpi)
    case Sggri => StateConfig.WeightOrZero(StateConfig.HS, StateConfig.Sggri)
    case Sgdri => StateConfig.WeightOrZero(StateConfig.HS, StateConfig.Sgdri)
  }

  /** One subgroup's current- and prior-year counts (a missing year counts
      0) and rates (a missing year has none). */
  datatype YearPair = YearPair(cyCount: nat, pyCount: nat, cy: Option<real>, py: Option<real>)

  /** A subgroup of a school, labelled as in the results table. */
  datatype Subgroup = Subgroup(name: string, years: YearPair)

  function Round2(x: real): real { Numeric.RoundTo(x, 2) }
  function Round0(x: real): real { Numeric.RoundWhole(x) }

  /** Proficiency: the current rate is at least the prior one and not 0
      (compared at 2 places). */
  predicate ProficiencyImproved(cy: Option<real>, py: Option<real>) {
    cy.Some? && py.Some? && Round2(cy.value) >= Round2(py.value) && Round2(cy.value) != 0.0
  }

  /** Graduation: the current rate is above the prior one and does not
      round to 0, or it is above 90. */
  predicate GraduationImproved(cy: Option<real>, py: Option<real>) {
    (cy.Some? && py.Some? && Round2(cy.value) > Round2(py.value) && Round0(cy.value) != 0.0)
    || (cy.Some? && Round2(cy.value) > 90.0)
  }

  /** Dropout: the current rate is below the prior one, or rounds to 0. */
  predicate DropoutImproved(cy: Option<real>, py: Option<real>) {
    (cy.Some? && py.Some? && Round2(cy.value) < Round2(py.value))
    || (cy.Some? && Round0(cy.value) == 0.0)
  }

  predicate Improved(ind: Indicator, cy: Option<real>, py: Option<real>) {
    match ind
    case Sgpi => ProficiencyImproved(cy, py)
    case Sggri => GraduationImproved(cy, py)
    case Sgdri => DropoutImproved(cy, py)
  }

  /** A subgroup takes part when both years' counts meet the N-count. */
  predicate EligiblePair(y: YearPair, nCount: nat) {
    y.cyCount >= nCount && y.pyCount >= nCount
  }

  /** The maintained-or-improved flag: 1 or 0 by the indicator's rule, and
      none for a subgroup under the N-count in either year. */
  function MaintainedOrImproved(ind: Indicator, y: YearPair, nCount: nat): (mi: Option<real>)
    ensures mi.None? <==> !EligiblePair(y, nCount)
    ensures mi.Some? ==> (mi.value == 1.0 <==> Improved(ind, y.cy, y.py))
    ensures mi.Some? ==> mi.value == 0.0 || mi.value == 1.0
  {
    var flag := if Improved(ind, y.cy, y.py) then 1.0 else 0.0;
    if !EligiblePair(y, nCount) then None else Some(flag)
  }

  /** Equal rates tell the three rules apart: an unchanged non-zero
      proficiency rate counts as maintained; an unchanged graduation rate of
      90 or less does not; an unchanged dropout rate counts only when it
      rounds to 0. */
  lemma EqualRatesDiffer(r: real)
    requires Round2(r) != 0.0 && Round2(r) <= 90.0
    ensures ProficiencyImproved(Some(r), Some(r))
    ensures !GraduationImproved(Some(r), Some(r))
    ensures DropoutImproved(Some(r), Some(r)) <==> Round0(r) == 0.0
  {
  }

  /** A current graduation rate above 90 counts whatever the prior year,
      even when the prior year has no rate. */
  lemma HighGraduationRateCounts(cy: real, py: Option<real>)
    requires Round2(cy) > 90.0
    ensures GraduationImproved(Some(cy), py)
  {
  }

  /** Raising a non-negative current proficiency rate keeps a subgroup
      maintained; lowering a non-negative current dropout rate keeps it
      improved. */
  lemma RulesMonotone(cy: real, cy2: real, py: Option<real>)
    requires 0.0 <= cy
    ensures ProficiencyImproved(Some(cy), py) && cy <= cy2 ==> ProficiencyImproved(Some(cy2), py)
    ensures DropoutImproved(Some(cy), py) && 0.0 <= cy2 <= cy ==> DropoutImproved(Some(cy2), py)
  {
    if ProficiencyImproved(Some(cy), py) && cy <= cy2 {
      Numeric.RoundToMonotone(cy, cy2, 2);
      Numeric.RoundToNonnegative(cy, 2);
    }
    if DropoutImproved(Some(cy), py) && 0.0 <= cy2 <= cy {
      Numeric.RoundToMonotone(cy2, cy, 2);
      Numeric.RoundWholeMonotone(cy2, cy);
      Numeric.RoundWholeMonotone(0.0, cy2);
      Numeric.RoundWholeInteger(0);
    }
  }

  /** `v` is the share `s / e` of the weight `w`, stated without division:
      between 0 and the weight, and `v * e == s * w`. */
  predicate ShareOfWeight(v: real, s: real, e: real, w: real) {
    0.0 <= v <= w && v * e == s * w
  }

  /** `s / e * w` is the share `s / e` of the weight, for `0 <= s <= e`. */
  lemma ShareOfWeightHolds(s: real, e: real, w: real)
    requires e > 0.0 && 0.0 <= s <= e && w > 0.0
    ensures ShareOfWeight(s / e * w, s, e, w)
  {
    assert s / e <= 1.0 by {
      Numeric.RealDivMonotone(s, e, e);
    }
    Numeric.RealDivMonotone(0.0, s, e);
    Numeric.RealMulMonotone(s / e, 1.0, w);
  }

  /** Indicator points from the subgroups' flags: the number marked 1 over
      the number eligible, times the weight; none when no subgroup is
      eligible. */
  function SgiPoints(mis: seq<Option<real>>, weight: real): (p: Option<real>)
    requires weight > 0.0 && PresentWithin(mis, 1.0)
    ensures p.None? <==> AllNull(mis)
    ensures p.Some? ==> CountPresent(mis) > 0
    ensures p.Some? ==> ShareOfWeight(p.value, SumSkipNull(mis), CountPresent(mis) as real, weight)
  {
    var num := SumMinCount1(mis);
    if num.None? then None
    else
      CountPresentPositive(mis);
      SumSkipNullWithin(mis, 1.0);
      ShareOfWeightHolds(SumSkipNull(mis), CountPresent(mis) as real, weight);
      Some(SumSkipNull(mis) / (CountPresent(mis) as real) * weight)
  }

  /** Flags of a school's subgroups; the unknown-ethnicity subgroup 'U' has
      no proficiency flag. */
  function Flags(ind: Indicator, sgs: seq<Subgroup>, nCount: nat): (mis: seq<Option<real>>)
    ensures PresentWithin(mis, 1.0)
    ensures |mis| <= |sgs|
  {
    if |sgs| == 0 then []
    else
      var rest := Flags(ind, sgs[1..], nCount);
      if ind == Sgpi && sgs[0].name == "U" then rest
      else
        var mi := MaintainedOrImproved(ind, sgs[0].years, nCount);
        assert forall i :: 1 <= i < |[mi] + rest| ==> ([mi] + rest)[i] == rest[i - 1];
        [mi] + rest
  }

  /** A school's points for one indicator. */
  function SchoolPoints(ind: Indicator, sgs: seq<Subgroup>, nCount: nat): (p: Option<real>)
    ensures p.Some? ==> 0.0 <= p.value <= IndicatorWeight(ind)
  {
    SgiPoints(Flags(ind, sgs, nCount), IndicatorWeight(ind))
  }

  /** Every eligible subgroup improved earns the full weight; none improved
      earns 0. */
  lemma SgiPointsExtremes(mis: seq<Option<real>>, weight: real)
    requires weight > 0.0 && !AllNull(mis) && PresentWithin(mis, 1.0)
    ensures (forall i :: 0 <= i < |mis| && mis[i].Some? ==> mis[i].value == 1.0) ==> SgiPoints(mis, weight) == Some(weight)
    ensures (forall i :: 0 <= i < |mis| && mis[i].Some? ==> mis[i].value == 0.0) ==> SgiPoints(mis, weight) == Some(0.0)
  {
    CountPresentPositive(mis);
    var e := CountPresent(mis) as real;
    if forall i :: 0 <= i < |mis| && mis[i].Some? ==> mis[i].value == 1.0 {
      SumSkipNullAllOnes(mis);
      assert SgiPoints(mis, weight).value * e == e * weight;
    }
    if forall i :: 0 <= i < |mis| && mis[i].Some? ==> mis[i].value == 0.0 {
      SumSkipNullAllZeros(mis);
      assert SgiPoints(mis, weight).value * e == 0.0;
    }
  }

  lemma {:induction false} SumSkipNullAllOnes(mis: seq<Option<real>>)
    requires forall i :: 0 <= i < |mis| && mis[i].Some? ==> mis[i].value == 1.0
    ensures SumSkipNull(mis) == CountPresent(mis) as real
  {
    if |mis| > 0 {
      assert forall i :: 0 <= i < |mis[1..]| ==> mis[1..][i] == mis[i + 1];
      SumSkipNullAllOnes(mis[1..]);
    }
  }

  lemma {:induction false} SumSkipNullAllZeros(mis: seq<Option<real>>)
    requires forall i :: 0 <= i < |mis| && mis[i].Some? ==> mis[i].value == 0.0
    ensures SumSkipNull(mis) == 0.0
  {
    if |mis| > 0 {
      assert forall i :: 0 <= i < |mis[1..]| ==> mis[1..][i] == mis[i + 1];
      SumSkipNullAllZeros(mis[1..]);
    }
  }

  /** A subgroup under the N-count changes nothing: it is neither in the
      numerator nor in the denominator. */
  lemma IneligibleSubgroupIgnored(ind: Indicator, sgs: seq<Subgroup>, s: Subgroup, nCount: nat)
    requires !EligiblePair(s.years, nCount)
    ensures SchoolPoints(ind, [s] + sgs, nCount) == SchoolPoints(ind, sgs, nCount)
  {
    FlagsOfIneligible(ind, sgs, s, nCount);
    if !(ind == Sgpi && s.name == "U") {
      SgiPointsSkipsNull(Flags(ind, sgs, nCount), IndicatorWeight(ind));
    }
  }

  /** A subgroup under the N-count adds a null flag, or no flag at all for
      the unknown-ethnicity subgroup of SGPI. */
  lemma FlagsOfIneligible(ind: Indicator, sgs: seq<Subgroup>, s: Subgroup, nCount: nat)
    requires !EligiblePair(s.years, nCount)
    ensures Flags(ind, [s] + sgs, nCount) ==
              if ind == Sgpi && s.name == "U" then Flags(ind, sgs, nCount) else [None] + Flags(ind, sgs, nCount)
  {
    assert ([s] + sgs)[1..] == sgs;
  }

  /** A null flag is in neither the numerator nor the denominator. */
  lemma SgiPointsSkipsNull(mis: seq<Option<real>>, weight: real)
    requires weight > 0.0 && PresentWithin(mis, 1.0)
    ensures PresentWithin([None] + mis, 1.0)
    ensures SgiPoints([None] + mis, weight) == SgiPoints(mis, weight)
  {
    var all := [None] + mis;
    assert all[1..] == mis;
    assert forall i :: 0 <= i < |mis| ==> all[i + 1] == mis[i];
    assert AllNull(all) <==> AllNull(mis);
    assert CountPresent(all) == CountPresent(mis);
    assert SumSkipNull(all) == SumSkipNull(mis);
    if !AllNull(mis) {
      assert SgiPoints(mis, weight).Some? && SgiPoints(all, weight).Some?;
      var c := CountPresent(mis) as real;
      Numeric.CancelPositive(SgiPoints(all, weight).value, SgiPoints(mis, weight).value, c);
    }
  }

  /** A subgroup's proficiency pair from its level counts: the counts are
      the distinct FAY-tested students of each year, the rates the weighted
      percent proficient. */
  function ProficiencyPair(cyStudents: nat, pyStudents: nat,
                           cyLevels: StateProficiency.LevelCounts, pyLevels: StateProficiency.LevelCounts): (y: YearPair)
    ensures y.cy.Some? <==> cyLevels.Tested() > 0
    ensures y.cy.Some? ==> 0.0 <= y.cy.value <= 130.0
  {
    YearPair(cyStudents, pyStudents, StateProficiency.PercentProficient(cyLevels), StateProficiency.PercentProficient(pyLevels))
  }

  /** Three eligible subgroups, two of which improved, earn 2/3 of the
      10-point SGPI weight. */
  lemma TwoOfThreeExample()
    ensures SgiPoints([Some(1.0), Some(0.0), None, Some(1.0)], 10.0) == Some(20.0 / 3.0)
  {
    var mis: seq<Option<real>> := [Some(1.0), Some(0.0), None, Some(1.0)];
    assert mis[1..][1..][1..][1..] == [];
    assert CountPresent(mis) == 3;
    assert SumSkipNull(mis) == 2.0;
  }
}
