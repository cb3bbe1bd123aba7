/** The federal EL indicator: EL-FAY student records are de-duplicated per
    (student, school), counted per school and EL model (k-8 or 9-12), turned
    into whole-number proficiency and growth percentages, banded against the
    statewide reference statistics, and combined into one score weighted by
    each EL model's share of the school's EL-FAY students. */
module FederalEl {
  import opened Wrappers
  import opened Numeric
  import opened Nullable
  import Dedup
  import Seqs
  import ElBanding
  import FederalConfig

  /** One static-file record, reduced to what the EL indicator reads. */
  datatype ElRecord = ElRecord(
    student: int, school: int, schoolType: FederalConfig.FedModel, grade: int,
    el: bool, elFay: bool, admIntegrity: bool,
    elProf: Option<int>, elGrowth: Option<nat>)

  /** A record enters the EL indicator of its school's federal model when its
      grade is one of the model's EL grades and the student is EL, EL-FAY and
      passes the ADM integrity check. */
  predicate Scored(r: ElRecord, m: FederalConfig.FedModel) {
    r.schoolType == m && r.grade in FederalConfig.ElGrades(m) && r.el && r.elFay && r.admIntegrity
  }

  function Select(rs: seq<ElRecord>, m: FederalConfig.FedModel): (out: seq<ElRecord>)
    ensures forall i :: 0 <= i < |out| ==> Scored(out[i], m) && out[i] in rs
    ensures forall i :: 0 <= i < |rs| && Scored(rs[i], m) ==> rs[i] in out
  {
    Seqs.Filter(r => Scored(r, m), rs)
  }

  /** Sort key of the de-duplication: grade, then EL proficiency level, a
      missing level ranking lowest (pandas sorts nulls last). */
  function Rank(r: ElRecord): (int, int) {
    (r.grade, r.elProf.GetOr(-1))
  }

  function StudentAtSchool(r: ElRecord): (int, int) {
    (r.student, r.school)
  }

  /** The EL records of model `m`, one per (student, school): the one with
      the highest grade and, among those, the highest EL proficiency level;
      of records that tie on both, the first in file order, as the stable
      sort and `duplicated` keep it. */
  function ElStudents(rs: seq<ElRecord>, m: FederalConfig.FedModel): (out: seq<ElRecord>)
    ensures forall i :: 0 <= i < |out| ==> Scored(out[i], m) && out[i] in rs
    ensures forall i, j :: 0 <= i < j < |out| ==> StudentAtSchool(out[i]) != StudentAtSchool(out[j])
    ensures forall i :: 0 <= i < |rs| && Scored(rs[i], m) ==> Dedup.HasKey(out, StudentAtSchool, StudentAtSchool(rs[i]))
    ensures forall k, i :: 0 <= k < |out| && 0 <= i < |rs| && Scored(rs[i], m) ==>
              (StudentAtSchool(out[k]) == StudentAtSchool(rs[i]) ==> Dedup.AtLeast(Rank(out[k]), Rank(rs[i])))
    ensures forall k :: 0 <= k < |out| ==> Dedup.ChosenIn(rs, r => Scored(r, m), out[k], StudentAtSchool, Rank)
    ensures forall j :: 0 <= j < |rs| && Dedup.Chosen(rs, r => Scored(r, m), StudentAtSchool, Rank, j) ==> rs[j] in out
  {
    var sel := Select(rs, m);
    ElStudentsProperties(rs, m, sel);
    Dedup.KeepBestOfFilter(r => Scored(r, m), rs, StudentAtSchool, Rank);
    Dedup.KeepBest(sel, StudentAtSchool, Rank)
  }

  lemma ElStudentsProperties(rs: seq<ElRecord>, m: FederalConfig.FedModel, sel: seq<ElRecord>)
    requires sel == Select(rs, m)
    ensures forall i :: 0 <= i < |rs| && Scored(rs[i], m) ==>
              Dedup.HasKey(Dedup.KeepBest(sel, StudentAtSchool, Rank), StudentAtSchool, StudentAtSchool(rs[i]))
    ensures forall k, i :: 0 <= k < |Dedup.KeepBest(sel, StudentAtSchool, Rank)| && 0 <= i < |rs| && Scored(rs[i], m) ==>
              (StudentAtSchool(Dedup.KeepBest(sel, StudentAtSchool, Rank)[k]) == StudentAtSchool(rs[i]) ==>
               Dedup.AtLeast(Rank(Dedup.KeepBest(sel, StudentAtSchool, Rank)[k]), Rank(rs[i])))
  {
    var out := Dedup.KeepBest(sel, StudentAtSchool, Rank);
    forall i | 0 <= i < |rs| && Scored(rs[i], m)
      ensures Dedup.HasKey(out, StudentAtSchool, StudentAtSchool(rs[i]))
    {
      var j :| 0 <= j < |sel| && sel[j] == rs[i];
      assert Dedup.HasKey(sel, StudentAtSchool, StudentAtSchool(rs[i]));
    }
    forall k, i | 0 <= k < |out| && 0 <= i < |rs| && Scored(rs[i], m) && StudentAtSchool(out[k]) == StudentAtSchool(rs[i])
      ensures Dedup.AtLeast(Rank(out[k]), Rank(rs[i]))
    {
      var j :| 0 <= j < |sel| && sel[j] == rs[i];
    }
  }

  /** The EL models: students in grades K-8 are scored as "k-8", grades 9-12 as "9-12". */
  datatype ElModel = ElK8 | ElHS

  function ElModelOf(grade: int): Option<ElModel> {
    if grade in FederalConfig.ElGrades(FederalConfig.K8) then Some(ElK8)
    else if grade in FederalConfig.ElGrades(FederalConfig.HS) then Some(ElHS)
    else None
  }

  /** The de-duplicated records of one school and EL model. */
  function SchoolModelRecords(rs: seq<ElRecord>, school: int, em: ElModel): (out: seq<ElRecord>)
    ensures |out| <= |rs|
    ensures forall i :: 0 <= i < |out| ==> out[i].school == school && ElModelOf(out[i].grade) == Some(em) && out[i] in rs
  {
    if |rs| == 0 then []
    else
      var rest := SchoolModelRecords(rs[1..], school, em);
      if rs[0].school == school && ElModelOf(rs[0].grade) == Some(em) then [rs[0]] + rest else rest
  }

  /** Within one school, one record per (student, school) means one record
      per student: the record count is the distinct EL-FAY student count. */
  lemma SchoolRecordsDistinctStudents(rs: seq<ElRecord>, school: int, em: ElModel)
    requires forall i, j :: 0 <= i < j < |rs| ==> StudentAtSchool(rs[i]) != StudentAtSchool(rs[j])
    ensures forall i, j :: 0 <= i < j < |SchoolModelRecords(rs, school, em)| ==>
              SchoolModelRecords(rs, school, em)[i].student != SchoolModelRecords(rs, school, em)[j].student
  {
    var out := SchoolModelRecords(rs, school, em);
    if |rs| > 0 {
      SchoolRecordsDistinctStudents(rs[1..], school, em);
      assert forall i, j :: 0 <= i < j < |rs[1..]| ==> StudentAtSchool(rs[1..][i]) != StudentAtSchool(rs[1..][j]);
      forall j | 0 <= j < |rs[1..]| ensures StudentAtSchool(rs[0]) != StudentAtSchool(rs[1..][j]) {
        assert rs[1..][j] == rs[j + 1];
      }
    }
  }

  /** Number of reclassified (proficiency level 4) students. */
  function Reclassified(rs: seq<ElRecord>): (n: nat)
    ensures n <= |rs|
    ensures n == |Seqs.Filter((r: ElRecord) => r.elProf == Some(4), rs)|
  {
    Seqs.Count((r: ElRecord) => r.elProf == Some(4), rs)
  }

  /** Sum of the proficiency levels gained, over the students with a growth record. */
  function GrowthNumerator(rs: seq<ElRecord>): nat {
    if |rs| == 0 then 0 else rs[0].elGrowth.GetOr(0) + GrowthNumerator(rs[1..])
  }

  /** Whole-number percent proficient: reclassified students out of all
      EL-FAY students of the school and model. */
  function PercentProficient(reclassified: nat, elFay: nat): (pct: real)
    requires 0 < elFay && reclassified <= elFay
    ensures 0.0 <= pct <= 100.0
    ensures reclassified == 0 ==> pct == 0.0
    ensures reclassified == elFay ==> pct == 100.0
  {
    WholePercent(reclassified, elFay)
  }

  /** Whole-number percent growth: levels gained per 100 EL-FAY students,
      counting students without a growth record in the denominator. */
  function PercentGrowth(numerator: nat, elFay: nat): (pct: real)
    requires 0 < elFay
    ensures pct >= 0.0
    ensures numerator == 0 ==> pct == 0.0
  {
    RoundWholeInteger(0);
    RoundWholeMonotone(0.0, numerator as real * 100.0 / elFay as real);
    RoundWhole(numerator as real * 100.0 / elFay as real)
  }

  /** A student without a growth record still counts: adding one never
      raises the school's percent growth. */
  lemma UntestedStudentLowersGrowth(rs: seq<ElRecord>, r: ElRecord)
    requires |rs| > 0 && r.elGrowth.None?
    ensures PercentGrowth(GrowthNumerator(rs + [r]), |rs + [r]|) <= PercentGrowth(GrowthNumerator(rs), |rs|)
  {
    GrowthNumeratorAppend(rs, r);
    var num := GrowthNumerator(rs) as real * 100.0;
    var d := |rs| as real;
    MoreStudentsSmallerShare(num, d);
    RoundWholeMonotone(num / (d + 1.0), num / d);
  }

  /** Spreading a non-negative amount over one more student never raises
      the share of each. */
  lemma MoreStudentsSmallerShare(num: real, d: real)
    requires 0.0 <= num && 0.0 < d
    ensures num / (d + 1.0) <= num / d
  {
    assert num / (d + 1.0) * (d + 1.0) == num;
    assert num / d * d == num;
    assert num / d - num / (d + 1.0) == num / (d * (d + 1.0));
    RealDivMonotone(0.0, num, d * (d + 1.0));
  }

  lemma {:induction false} GrowthNumeratorAppend(rs: seq<ElRecord>, r: ElRecord)
    ensures GrowthNumerator(rs + [r]) == GrowthNumerator(rs) + r.elGrowth.GetOr(0)
  {
    if |rs| > 0 {
      assert (rs + [r])[1..] == rs[1..] + [r];
      GrowthNumeratorAppend(rs[1..], r);
    }
  }

  /** A school's federal EL points for one model and one measure (proficiency
      or growth): its percent banded against the reference statistics of all
      schools of that model. */
  function SchoolPoints(pct: real, schools: seq<ElBanding.SchoolRate>, nCount: nat, sqrt: real -> real): (points: Option<nat>)
    ensures points.Some? ==> points.value <= 5
    ensures pct == 0.0 ==> points.Some?
  {
    ElBanding.FederalPoints(pct, ElBanding.FederalStats(ElBanding.ReferenceSample(schools, nCount), sqrt))
  }

  /** What the combination reads of one EL model at a school. */
  datatype ModelPoints = ModelPoints(elFay: nat, prof: Option<nat>, growth: Option<nat>)

  predicate ValidModelPoints(mp: Option<ModelPoints>) {
    mp.Some? ==> mp.value.elFay > 0 && mp.value.prof.GetOr(0) <= 5 && mp.value.growth.GetOr(0) <= 5
  }

  /** Proficiency plus growth points of a model, a missing part counting 0. */
  function ProfAndGrowth(mp: ModelPoints): (p: real)
    requires ValidModelPoints(Some(mp))
    ensures 0.0 <= p <= 10.0
  {
    var parts := [if mp.prof.Some? then Some(mp.prof.value as real) else None,
                  if mp.growth.Some? then Some(mp.growth.value as real) else None];
    SumSkipNullPair(parts[0], parts[1]);
    SumSkipNull(parts)
  }

  function ElFay(mp: Option<ModelPoints>): nat {
    if mp.Some? then mp.value.elFay else 0
  }

  /** A model's share of the school's EL-FAY students in percent, rounded to 2 places. */
  function WeightedPercent(count: nat, total: nat): (w: real)
    requires 0 < total && count <= total
    ensures w == RoundTo(count as real * 100.0 / total as real, 2)
    ensures 0.0 <= w
    ensures count as real * 100.0 / total as real - 0.005 <= w <= count as real * 100.0 / total as real + 0.005
    ensures count == 0 ==> w == 0.0
    ensures count == total ==> w == 100.0
  {
    var x := count as real * 100.0 / total as real;
    RoundToNonnegative(x, 2);
    RoundToClose(x, 2);
    assert Pow10(2) == 100;
    RoundToInteger(100, 2);
    RoundToInteger(0, 2);
    ScaleBack(100.0, total as real);
    assert count == total ==> x == 100.0;
    RoundTo(x, 2)
  }

  /** One model's contribution: its share times its points, over 100. */
  function Contribution(mp: Option<ModelPoints>, total: nat): (c: Option<real>)
    requires ValidModelPoints(mp) && ElFay(mp) <= total && 0 < total
    ensures c.Some? <==> mp.Some?
    ensures c.Some? ==> c.value == WeightedPercent(mp.value.elFay, total) * ProfAndGrowth(mp.value) / 100.0
    ensures c.Some? ==> 0.0 <= c.value <= WeightedPercent(mp.value.elFay, total) / 10.0
  {
    if mp.None? then None
    else
      var w := WeightedPercent(mp.value.elFay, total);
      var p := ProfAndGrowth(mp.value);
      assert w * p <= w * 10.0 by { RealMulMonotone(p, 10.0, w + 1.0); }
      Some(w * p / 100.0)
  }

  /** The school's overall EL points: the share-weighted sum over the two EL
      models rounded to 2 places, none when the school has fewer than
      `nCount` EL-FAY students. */
  function OverallPoints(k8: Option<ModelPoints>, hs: Option<ModelPoints>, nCount: nat): (points: Option<real>)
    requires ValidModelPoints(k8) && ValidModelPoints(hs) && (k8.Some? || hs.Some?)
    ensures points.None? <==> ElFay(k8) + ElFay(hs) < nCount
    ensures points.Some? ==> points.value == RoundTo(Contribution(k8, ElFay(k8) + ElFay(hs)).GetOr(0.0) +
                                                     Contribution(hs, ElFay(k8) + ElFay(hs)).GetOr(0.0), 2)
    ensures points.Some? ==> 0.0 <= points.value <= 10.0
  {
    var total := ElFay(k8) + ElFay(hs);
    if total < nCount then None
    else
      var parts := [Contribution(k8, total), Contribution(hs, total)];
      SumSkipNullPair(parts[0], parts[1]);
      OverallBound(k8, hs, total);
      Some(RoundTo(SumSkipNull(parts), 2))
  }

  /** A school with EL-FAY students in one model only scores that model's
      proficiency plus growth points, rounded to 2 places: its share is 100%. */
  lemma OneModelScoresItsPoints(k8: Option<ModelPoints>, hs: Option<ModelPoints>, nCount: nat)
    requires ValidModelPoints(k8) && ValidModelPoints(hs) && (k8.Some? != hs.Some?)
    requires ElFay(k8) + ElFay(hs) >= nCount
    ensures OverallPoints(k8, hs, nCount) ==
              Some(RoundTo(ProfAndGrowth(if k8.Some? then k8.value else hs.value), 2))
  {
    var mp := if k8.Some? then k8.value else hs.value;
    var total := ElFay(k8) + ElFay(hs);
    assert mp.elFay == total;
    var w := WeightedPercent(mp.elFay, total);
    assert w == 100.0;
    var c := if k8.Some? then Contribution(k8, total) else Contribution(hs, total);
    assert c.value == 100.0 * ProfAndGrowth(mp) / 100.0;
  }

  /** A school whose two models earn the same points `p` scores `p` up to
      the rounding of the shares and of the result. */
  lemma EqualModelsScoreTheirPoints(k8: Option<ModelPoints>, hs: Option<ModelPoints>, nCount: nat)
    requires ValidModelPoints(k8) && ValidModelPoints(hs) && k8.Some? && hs.Some?
    requires ProfAndGrowth(k8.value) == ProfAndGrowth(hs.value)
    requires ElFay(k8) + ElFay(hs) >= nCount
    ensures OverallPoints(k8, hs, nCount).Some?
    ensures ProfAndGrowth(k8.value) - 0.006 <= OverallPoints(k8, hs, nCount).value <= ProfAndGrowth(k8.value) + 0.006
  {
    var total := ElFay(k8) + ElFay(hs);
    var c1, c2 := Contribution(k8, total), Contribution(hs, total);
    assert c1.Some? && c2.Some?;
    var s := c1.value + c2.value;
    assert OverallPoints(k8, hs, nCount) == Some(RoundTo(s, 2)) by {
      assert c1.GetOr(0.0) == c1.value && c2.GetOr(0.0) == c2.value;
    }
    EqualContributionsNear(k8.value, hs.value, total, ProfAndGrowth(k8.value));
    RoundedNear(s, ProfAndGrowth(k8.value));
  }

  /** Rounding to 2 places a value within 0.001 of `p` stays within 0.006. */
  lemma RoundedNear(s: real, p: real)
    requires p - 0.001 <= s <= p + 0.001
    ensures p - 0.006 <= RoundTo(s, 2) <= p + 0.006
  {
    RoundToClose(s, 2);
    assert Pow10(2) == 100 by { assert Pow10(1) == 10; }
  }

  lemma EqualContributionsNear(m1: ModelPoints, m2: ModelPoints, total: nat, p: real)
    requires ValidModelPoints(Some(m1)) && ValidModelPoints(Some(m2))
    requires ProfAndGrowth(m1) == p && ProfAndGrowth(m2) == p
    requires total == m1.elFay + m2.elFay
    ensures p - 0.001 <= Contribution(Some(m1), total).value + Contribution(Some(m2), total).value <= p + 0.001
  {
    var c1, w1, p1 := ContributionParts(m1, total);
    var c2, w2, p2 := ContributionParts(m2, total);
    WeightedPercentsNear(m1.elFay, m2.elFay, total);
    ShareErrorBound(w1, w2, p1, p2, c1, c2);
  }

  /** A model's contribution, its share and its points, named. */
  lemma ContributionParts(mp: ModelPoints, total: nat) returns (c: real, w: real, p: real)
    requires ValidModelPoints(Some(mp)) && mp.elFay <= total && 0 < total
    ensures c == Contribution(Some(mp), total).value && w == WeightedPercent(mp.elFay, total) && p == ProfAndGrowth(mp)
    ensures c == w * p / 100.0 && 0.0 <= p <= 10.0
  {
    c, w, p := Contribution(Some(mp), total).value, WeightedPercent(mp.elFay, total), ProfAndGrowth(mp);
  }

  /** The two models' rounded shares add up to 100 within 0.01. */
  lemma WeightedPercentsNear(x: nat, y: nat, total: nat)
    requires total == x + y > 0
    ensures 99.99 <= WeightedPercent(x, total) + WeightedPercent(y, total) <= 100.01
  {
    SharesAddTo100(x, y, total);
    RoundedSharesNear(x as real * 100.0 / total as real, y as real * 100.0 / total as real,
                      WeightedPercent(x, total), WeightedPercent(y, total));
  }

  /** Shares rounded to 2 places from shares that add up to 100 add up to
      100 within 0.01. */
  lemma RoundedSharesNear(a: real, b: real, w1: real, w2: real)
    requires a + b == 100.0
    requires a - 0.005 <= w1 <= a + 0.005 && b - 0.005 <= w2 <= b + 0.005
    ensures 99.99 <= w1 + w2 <= 100.01
  {
  }

  /** Shares that add up to 100 within 0.01, applied to points of at most
      10, add up to those points within 0.001. */
  lemma ShareErrorBound(w1: real, w2: real, p: real, q: real, c1: real, c2: real)
    requires 99.99 <= w1 + w2 <= 100.01 && 0.0 <= p <= 10.0 && q == p
    requires c1 == w1 * p / 100.0 && c2 == w2 * q / 100.0
    ensures p - 0.001 <= c1 + c2 <= p + 0.001
  {
    var d := w1 + w2 - 100.0;
    assert w1 * p / 100.0 + w2 * p / 100.0 - p == d * p / 100.0;
    MulNonnegative(0.01 - d, p);
    MulNonnegative(d + 0.01, p);
    assert (0.01 - d) * p == 0.01 * p - d * p;
    assert (d + 0.01) * p == d * p + 0.01 * p;
  }

  lemma SharesAddTo100(x: nat, y: nat, total: nat)
    requires total == x + y > 0
    ensures x as real * 100.0 / total as real + y as real * 100.0 / total as real == 100.0
  {
    var t := total as real;
    assert x as real * 100.0 / t + y as real * 100.0 / t == (x as real + y as real) * 100.0 / t;
  }

  /** The rounded shares add up to at most 100.01, so the combined score
      never exceeds the 10 points of one model. */
  lemma OverallBound(k8: Option<ModelPoints>, hs: Option<ModelPoints>, total: nat)
    requires ValidModelPoints(k8) && ValidModelPoints(hs) && (k8.Some? || hs.Some?)
    requires total == ElFay(k8) + ElFay(hs)
    ensures 0.0 <= RoundTo(SumSkipNull([Contribution(k8, total), Contribution(hs, total)]), 2) <= 10.0
  {
    var parts := [Contribution(k8, total), Contribution(hs, total)];
    var s := SumSkipNull(parts);
    SumSkipNullPair(parts[0], parts[1]);
    var a := ElFay(k8) as real * 100.0 / total as real;
    var b := ElFay(hs) as real * 100.0 / total as real;
    SharesAddTo100(ElFay(k8), ElFay(hs), total);
    assert parts[0].GetOr(0.0) <= (a + 0.005) / 10.0;
    assert parts[1].GetOr(0.0) <= (b + 0.005) / 10.0;
    assert s <= 10.001;
    RoundToNonnegative(s, 2);
    RoundToMonotone(s, 10.001, 2);
    assert RoundTo(10.001, 2) == 10.0 by {
      assert 10.001 * 100.0 == 1000.1;
      assert RoundHalfUp(1000.1) == 1000;
    }
  }
}
