/** The federal Growth indicator: the median student growth percentile (SGP)
    of a school's FAY Math and ELA records, weighted by the model's Growth
    weight and suppressed below the N-count; plus the SGP histogram bins of
    the drilldown. */
module FederalGrowth {
  import opened Wrappers
  import opened Numeric
  import FederalConfig

  datatype GrowthRecord = GrowthRecord(
    student: int, school: int, schoolType: FederalConfig.FedModel, grade: int, cohort: Option<int>,
    subject: string, sgp: Option<real>, fay: int, admIntegrity: bool,
    subgroups: map<FederalConfig.SubgroupColumn, FederalConfig.SubgroupValue>)

  /** Records scored in any model: FAY, Math or ELA, with an SGP. */
  predicate Usable(r: GrowthRecord) {
    r.fay > 0 && (r.subject == "Math" || r.subject == "ELA") && r.sgp.Some?
  }

  /** The grade Growth files a record under: grade 11 becomes 111, and then
      every record of the ACT cohort (graduating next year) becomes grade 11,
      whatever its recorded grade. */
  function GrowthGrade(grade: int, cohort: Option<int>, fiscalYear: int): (g: int)
    ensures cohort == Some(FederalConfig.ActCohort(fiscalYear)) ==> g == 11
    ensures cohort != Some(FederalConfig.ActCohort(fiscalYear)) ==> g == (if grade == 11 then 111 else grade)
  {
    var g := if grade == 11 then 111 else grade;
    if cohort == Some(FederalConfig.ActCohort(fiscalYear)) then 11 else g
  }

  /** Grade 11 is scored only for the ACT cohort: any other grade-11 record
      falls outside every growth grade map. */
  lemma OnlyActCohortInGrade11(r: GrowthRecord, fiscalYear: int, m: FederalConfig.FedModel)
    requires r.grade == 11 && r.cohort != Some(FederalConfig.ActCohort(fiscalYear))
    ensures GrowthGrade(r.grade, r.cohort, fiscalYear) !in FederalConfig.GrowthGrades(m)
  {
  }

  /** A record is scored for its school's model when it is usable, passes
      the ADM integrity check and its growth grade is in the model's map. */
  predicate Scored(r: GrowthRecord, fiscalYear: int) {
    Usable(r) && r.admIntegrity && GrowthGrade(r.grade, r.cohort, fiscalYear) in FederalConfig.GrowthGrades(r.schoolType)
  }

  /** The SGPs of a school's records. */
  function Sgps(recs: seq<GrowthRecord>): (s: seq<real>)
    requires forall i :: 0 <= i < |recs| ==> recs[i].sgp.Some?
    ensures |s| == |recs|
    ensures forall i :: 0 <= i < |s| ==> s[i] == recs[i].sgp.value
  {
    if |recs| == 0 then [] else [recs[0].sgp.value] + Sgps(recs[1..])
  }

  /** Number of distinct students among the records (`TotalFAYCount`). */
  function StudentCount(recs: seq<GrowthRecord>): nat {
    |set i | 0 <= i < |recs| :: recs[i].student|
  }

  /** The median of a sample lies between its smallest and largest value. */
  lemma MedianWithin(s: seq<real>, lo: real, hi: real)
    requires |s| > 0 && AllWithin(s, lo, hi)
    ensures lo <= Median(Sort(s)) <= hi
  {
    var t := Sort(s);
    PercentileFiftyIsMedian(t);
    assert t[0] in multiset(s) && t[|t| - 1] in multiset(s);
    assert t[0] in s && t[|t| - 1] in s;
  }

  /** The median SGP of the records (`MedianSGPAllPoints`); with every SGP
      between 0 and 100, so is the median. */
  function SchoolMedian(recs: seq<GrowthRecord>): (med: real)
    requires |recs| > 0
    requires forall i :: 0 <= i < |recs| ==> recs[i].sgp.Some? && 0.0 <= recs[i].sgp.value <= 100.0
    ensures 0.0 <= med <= 100.0
  {
    var s := Sgps(recs);
    MedianWithin(s, 0.0, 100.0);
    Median(Sort(s))
  }

  lemma ScaledWithin(w: real, total: real, x: real)
    requires 0.0 <= w && w * 100.0 == total && 0.0 <= x <= 100.0
    ensures 0.0 <= w * x <= total
    ensures x == 100.0 ==> w * x == total
    ensures x == 0.0 ==> w * x == 0.0
  {
    assert w * 100.0 - w * x == w * (100.0 - x);
    MulNonnegative(w, x);
    MulNonnegative(w, 100.0 - x);
  }

  /** Growth points: the model's Growth weight over 100 times the median SGP;
      none below `nCount` distinct students. With SGPs between 0 and 100 the
      points lie between 0 and the Growth weight. */
  function Points(recs: seq<GrowthRecord>, m: FederalConfig.FedModel, nCount: nat): (points: Option<real>)
    requires |recs| > 0 && FederalConfig.Weight(m, FederalConfig.Growth).Some?
    requires forall i :: 0 <= i < |recs| ==> recs[i].sgp.Some? && 0.0 <= recs[i].sgp.value <= 100.0
    ensures points.None? <==> StudentCount(recs) < nCount
    ensures points.Some? ==> 0.0 <= points.value <= FederalConfig.Weight(m, FederalConfig.Growth).value
  {
    if StudentCount(recs) < nCount then None
    else
      var med := SchoolMedian(recs);
      var w := FederalConfig.WeightFraction(m, FederalConfig.Growth).value;
      ScaledWithin(w, FederalConfig.Weight(m, FederalConfig.Growth).value, med);
      Some(w * med)
  }

  /** When every student has the same SGP, that SGP is the school's median. */
  lemma UniformMedian(recs: seq<GrowthRecord>, v: real)
    requires |recs| > 0 && 0.0 <= v <= 100.0
    requires forall i :: 0 <= i < |recs| ==> recs[i].sgp == Some(v)
    ensures SchoolMedian(recs) == v
  {
    MedianWithin(Sgps(recs), v, v);
  }

  /** A school whose students all sit at the 100th percentile earns the full
      Growth weight; one whose students all sit at 0 earns nothing. */
  lemma PointsAtExtremes(recs: seq<GrowthRecord>, m: FederalConfig.FedModel, nCount: nat, v: real)
    requires |recs| > 0 && FederalConfig.Weight(m, FederalConfig.Growth).Some?
    requires StudentCount(recs) >= nCount && (v == 0.0 || v == 100.0)
    requires forall i :: 0 <= i < |recs| ==> recs[i].sgp == Some(v)
    ensures v == 100.0 ==> Points(recs, m, nCount) == Some(FederalConfig.Weight(m, FederalConfig.Growth).value)
    ensures v == 0.0 ==> Points(recs, m, nCount) == Some(0.0)
  {
    var w := FederalConfig.WeightFraction(m, FederalConfig.Growth).value;
    UniformMedian(recs, v);
    ScaledWithin(w, FederalConfig.Weight(m, FederalConfig.Growth).value, v);
    assert Points(recs, m, nCount) == Some(w * v);
  }


  /** ATSI growth of a subgroup: the same weighted median and N-count as the
      school's, none for the excluded values (flag 0 and ethnicity 'U') and
      for subgroups without students. */
  function AtsiPoints(recs: seq<GrowthRecord>, col: FederalConfig.SubgroupColumn, v: FederalConfig.SubgroupValue,
                      m: FederalConfig.FedModel, nCount: nat): (points: Option<real>)
    requires FederalConfig.Weight(m, FederalConfig.Growth).Some?
    requires forall i :: 0 <= i < |recs| ==> recs[i].sgp.Some? && 0.0 <= recs[i].sgp.value <= 100.0
    ensures FederalConfig.ExcludedSubgroup(v) ==> points.None?
    ensures points.Some? ==> StudentCount(FederalConfig.SubgroupRecords(recs, (r: GrowthRecord) => r.subgroups, col, v)) >= nCount
    ensures points.Some? ==> 0.0 <= points.value <= FederalConfig.Weight(m, FederalConfig.Growth).value
  {
    var g := FederalConfig.SubgroupRecords(recs, (r: GrowthRecord) => r.subgroups, col, v);
    if FederalConfig.ExcludedSubgroup(v) || |g| == 0 then None else Points(g, m, nCount)
  }

  /** A subgroup holding every record of the school scores exactly what the
      school scores. */
  lemma AtsiMatchesSummary(recs: seq<GrowthRecord>, col: FederalConfig.SubgroupColumn, v: FederalConfig.SubgroupValue,
                           m: FederalConfig.FedModel, nCount: nat)
    requires |recs| > 0 && FederalConfig.Weight(m, FederalConfig.Growth).Some? && !FederalConfig.ExcludedSubgroup(v)
    requires forall i :: 0 <= i < |recs| ==> recs[i].sgp.Some? && 0.0 <= recs[i].sgp.value <= 100.0
    requires forall i :: 0 <= i < |recs| ==> col in recs[i].subgroups && recs[i].subgroups[col] == v
    ensures AtsiPoints(recs, col, v, m, nCount) == Points(recs, m, nCount)
  {
    assert FederalConfig.SubgroupRecords(recs, (r: GrowthRecord) => r.subgroups, col, v) == recs;
  }

  /** The drilldown histogram of SGPs: (-0.001, 19], (19, 39], (39, 59],
      (59, 79] and (79, 100], numbered 0 to 4. */
  function Bin(sgp: real): (b: Option<nat>)
    ensures b.Some? ==> b.value <= 4
  {
    if -0.001 < sgp <= 19.0 then Some(0)
    else if 19.0 < sgp <= 39.0 then Some(1)
    else if 39.0 < sgp <= 59.0 then Some(2)
    else if 59.0 < sgp <= 79.0 then Some(3)
    else if 79.0 < sgp <= 100.0 then Some(4)
    else None
  }

  /** Bin edges: bin `k` is the interval `(Edge(k), Edge(k + 1)]`. */
  function Edge(k: nat): real
    requires k <= 5
  {
    [-0.001, 19.0, 39.0, 59.0, 79.0, 100.0][k]
  }

  /** Every SGP from 0 to 100 falls into exactly the bin whose edges enclose
      it, and values outside the outer edges into none. */
  lemma BinMatchesEdges(sgp: real, k: nat)
    requires k <= 4
    ensures Bin(sgp) == Some(k) <==> Edge(k) < sgp <= Edge(k + 1)
    ensures Bin(sgp).None? <==> !(Edge(0) < sgp <= Edge(5))
  {
  }
}
