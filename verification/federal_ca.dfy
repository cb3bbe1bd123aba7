/** The federal chronic-absenteeism (CA) indicator: one record per student
    and school in the model's CA grades, the school's whole-number percent
    chronically absent, and points `(100 - percent) * weight / 100`,
    suppressed below the N-count. ATSI scores each subgroup the same way. */
module FederalCa {
  import opened Wrappers
  import opened Numeric
  import opened Nullable
  import Dedup
  import FederalConfig

  /** One static-file record, reduced to what the CA indicator reads; the
      subgroup labels are the relabelled ATSI subgroup values. */
  datatype CaRecord = CaRecord(
    student: int, school: int, schoolType: FederalConfig.FedModel, grade: int,
    admIntegrity: bool, chronicAbsent: bool,
    subgroups: map<FederalConfig.SubgroupColumn, FederalConfig.SubgroupValue>)

  predicate Scored(r: CaRecord) {
    r.grade in FederalConfig.CaGrades(r.schoolType) && r.admIntegrity
  }

  function StudentAtSchool(r: CaRecord): (int, int) {
    (r.student, r.school)
  }

  function Select(rs: seq<CaRecord>): (out: seq<CaRecord>)
    ensures forall i :: 0 <= i < |out| ==> Scored(out[i]) && out[i] in rs
    ensures forall i :: 0 <= i < |rs| && Scored(rs[i]) ==> rs[i] in out
  {
    if |rs| == 0 then []
    else
      var rest := Select(rs[1..]);
      assert forall i :: 1 <= i < |rs| ==> rs[i] == rs[1..][i - 1];
      if Scored(rs[0]) then [rs[0]] + rest else rest
  }

  /** The scored records, the first one per (student, school). */
  function CaStudents(rs: seq<CaRecord>): (out: seq<CaRecord>)
    ensures forall i :: 0 <= i < |out| ==> Scored(out[i])
    ensures forall i, j :: 0 <= i < j < |out| ==> StudentAtSchool(out[i]) != StudentAtSchool(out[j])
    ensures forall k :: Dedup.HasKey(out, StudentAtSchool, k) <==> Dedup.HasKey(Select(rs), StudentAtSchool, k)
  {
    var sel := Select(rs);
    var out := Dedup.KeepFirst(sel, StudentAtSchool);
    forall i | 0 <= i < |out| ensures Scored(out[i]) {
      var j :| 0 <= j < |sel| && sel[j] == out[i] && Dedup.FirstOfKey(sel, StudentAtSchool, j);
    }
    out
  }

  function NumAbsent(rs: seq<CaRecord>): (n: nat)
    ensures n <= |rs|
  {
    if |rs| == 0 then 0 else (if rs[0].chronicAbsent then 1 else 0) + NumAbsent(rs[1..])
  }

  /** CA points of a group of students (a school, or one of its subgroups):
      the whole-number percent chronically absent `pct` gives
      `(100 - pct) * weight / 100`, none below `nCount` students. */
  function Points(absent: nat, count: nat, weight: real, nCount: nat): (points: Option<real>)
    requires 0 < count && absent <= count && 0.0 <= weight
    ensures points.None? <==> count < nCount
    ensures points.Some? ==> 0.0 <= points.value <= weight
    ensures points.Some? && absent == 0 ==> points.value == weight
    ensures points.Some? && absent == count ==> points.value == 0.0
  {
    var pct := WholePercent(absent, count);
    var w := weight / 100.0;
    RemainingShare(pct, weight);
    Suppress(Some((100.0 - pct) * w), count, nCount)
  }

  /** The share of a weight left by a percent in 0..100 lies in 0..weight. */
  lemma RemainingShare(pct: real, weight: real)
    requires 0.0 <= pct <= 100.0 && 0.0 <= weight
    ensures 0.0 <= (100.0 - pct) * (weight / 100.0) <= weight
  {
    var w := weight / 100.0;
    assert 100.0 * w == weight;
    assert 100.0 * w - (100.0 - pct) * w == pct * w;
    if w > 0.0 {
      RealMulMonotone(0.0, pct, w);
      RealMulMonotone(0.0, 100.0 - pct, w);
    }
  }

  /** The school's CSI summary points, from its de-duplicated records. */
  function SchoolPoints(recs: seq<CaRecord>, m: FederalConfig.FedModel, nCount: nat): (points: Option<real>)
    requires |recs| > 0 && FederalConfig.Weight(m, FederalConfig.CA).Some?
    ensures points.None? <==> |recs| < nCount
    ensures points.Some? ==> 0.0 <= points.value <= FederalConfig.Weight(m, FederalConfig.CA).value
  {
    Points(NumAbsent(recs), |recs|, FederalConfig.Weight(m, FederalConfig.CA).value, nCount)
  }

  /** Twenty-five students, five of them chronically absent, at weight 10:
      20% absent earns 8 points. */
  lemma WorkedExample()
    ensures Points(5, 25, 10.0, FederalConfig.NCount) == Some(8.0)
  {
    assert 5.0 * 100.0 / 25.0 == 20.0;
    RoundWholeInteger(20);
    assert WholePercent(5, 25) == 20.0;
  }


  /** ATSI points of a subgroup: none for the excluded values (flag 0 and
      ethnicity 'U') and for subgroups without students. */
  function AtsiPoints(recs: seq<CaRecord>, col: FederalConfig.SubgroupColumn, v: FederalConfig.SubgroupValue,
                      m: FederalConfig.FedModel, nCount: nat): (points: Option<real>)
    requires FederalConfig.Weight(m, FederalConfig.CA).Some?
    ensures FederalConfig.ExcludedSubgroup(v) ==> points.None?
    ensures points.Some? ==> |FederalConfig.SubgroupRecords(recs, (r: CaRecord) => r.subgroups, col, v)| >= nCount
  {
    var g := FederalConfig.SubgroupRecords(recs, (r: CaRecord) => r.subgroups, col, v);
    if FederalConfig.ExcludedSubgroup(v) || |g| == 0 then None else SchoolPoints(g, m, nCount)
  }

  /** A subgroup holding every student of the school scores exactly what the
      school scores: ATSI and CSI use one formula and one N-count. */
  lemma AtsiMatchesSummary(recs: seq<CaRecord>, col: FederalConfig.SubgroupColumn, v: FederalConfig.SubgroupValue,
                           m: FederalConfig.FedModel, nCount: nat)
    requires |recs| > 0 && FederalConfig.Weight(m, FederalConfig.CA).Some? && !FederalConfig.ExcludedSubgroup(v)
    requires forall i :: 0 <= i < |recs| ==> col in recs[i].subgroups && recs[i].subgroups[col] == v
    ensures AtsiPoints(recs, col, v, m, nCount) == SchoolPoints(recs, m, nCount)
  {
    assert FederalConfig.SubgroupRecords(recs, (r: CaRecord) => r.subgroups, col, v) == recs;
  }
}
