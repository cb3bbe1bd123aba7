/** The federal Proficiency indicator: percent of FAY students proficient
    (levels 3 and 4) in ELA and Math, scaled by the 95%-tested multiplier and
    the model's Proficiency weight, suppressed below twice the N-count. */
module FederalProficiency {
  import opened Wrappers
  import Columns
  import Numeric
  import FederalConfig

  /** Columns the indicator reads from the static file. */
  const RequiredColumns: seq<string> := [
    "SAISID", "SchoolCode", "StudentGrade", "FAY", "Subject", "Performance", "TestType", "ELAMathWindow", "RAEL",
    "SchoolTypeF", "Cohort", "Ethnicity", "SPED", "EL", "ELFEP", "IncomeEligibility1and2"]

  /** The share of enrolled assessments a school is expected to test. */
  const PercentTestedExpected: real := 0.95

  /** One assessment record of the static file. */
  datatype ProfRecord = ProfRecord(
    student: int, school: int, schoolType: FederalConfig.FedModel, grade: int, fay: int,
    subject: string, performance: Option<int>, rael: Option<int>, inWindow: bool,
    subgroups: map<FederalConfig.SubgroupColumn, FederalConfig.SubgroupValue>)

  /** The check that opens the computation: every required column present,
      or an error listing the missing ones. */
  function CheckFrame(present: set<string>): (r: Result<(), seq<string>>)
    ensures r.Success? <==> forall c :: c in RequiredColumns ==> c in present
    ensures r.Failure? ==> |r.error| > 0 && forall c :: c in r.error <==> c in RequiredColumns && c !in present
  {
    Columns.CheckColumns(RequiredColumns, present)
  }

  /** Records in the proficiency grades of their school's model. */
  predicate InModel(r: ProfRecord) {
    r.grade in FederalConfig.ProficiencyGrades(r.schoolType)
  }

  /** The grade results are reported under: the k-2 pseudo-grade 101 (third
      graders who were in second grade last year) reports as grade 3. */
  function ReportedGrade(grade: int): (g: int)
    ensures grade != 101 ==> g == grade
    ensures grade == 101 ==> g == 3
  {
    if grade == 101 then 3 else grade
  }

  predicate IsElaOrMath(subject: string) {
    subject == "ELA" || subject == "Math"
  }

  /** A FAY-tested record: FAY, ELA or Math, with a performance level, not a
      RAEL 1 or 2 assessment, and not a k-2 record with FAY below 2. */
  predicate FayTested(r: ProfRecord) {
    r.fay > 0 && IsElaOrMath(r.subject) && r.performance.Some?
    && r.rael != Some(1) && r.rael != Some(2)
    && !(r.schoolType == FederalConfig.K2 && r.fay < 2)
  }

  predicate Scored(r: ProfRecord) {
    InModel(r) && FayTested(r)
  }

  predicate Proficient(r: ProfRecord) {
    r.performance == Some(3) || r.performance == Some(4)
  }

  function NumFayTested(recs: seq<ProfRecord>): nat {
    if |recs| == 0 then 0 else (if Scored(recs[0]) then 1 else 0) + NumFayTested(recs[1..])
  }

  function NumProficient(recs: seq<ProfRecord>): (n: nat)
    ensures n <= NumFayTested(recs)
  {
    if |recs| == 0 then 0 else (if Scored(recs[0]) && Proficient(recs[0]) then 1 else 0) + NumProficient(recs[1..])
  }

  /** Distinct students enrolled in the testing window. */
  function WindowStudents(recs: seq<ProfRecord>): set<int> {
    set i | 0 <= i < |recs| && InModel(recs[i]) && recs[i].inWindow :: recs[i].student
  }

  /** Assessments taken in the window: records (not students) with an ELA or
      Math performance level. */
  function NumTested(recs: seq<ProfRecord>): nat {
    if |recs| == 0 then 0
    else
      var r := recs[0];
      (if InModel(r) && r.inWindow && r.performance.Some? && IsElaOrMath(r.subject) then 1 else 0) + NumTested(recs[1..])
  }

  /** Expected assessments: 95% of two per enrolled student, rounded down. */
  function ExpectedTested(students: nat): (e: int)
    ensures students > 0 ==> e >= 1
    ensures e as real <= PercentTestedExpected * (2 * students) as real < e as real + 1.0
  {
    (PercentTestedExpected * (2 * students) as real).Floor
  }

  /** The 95%-tested multiplier: assessments taken over assessments
      expected; none when no student was enrolled (no enrollment row). */
  function Multiplier(tested: nat, students: nat): (mult: Option<real>)
    ensures mult.Some? <==> students > 0
    ensures mult.Some? ==> mult.value >= 0.0 && mult.value * ExpectedTested(students) as real == tested as real
  {
    if students == 0 then None else Some(tested as real / ExpectedTested(students) as real)
  }

  /** The multiplier penalises exactly the schools that tested fewer
      assessments than expected, and rewards those that tested more. */
  lemma MultiplierBelowOne(tested: nat, students: nat)
    requires students > 0
    ensures Multiplier(tested, students).value < 1.0 <==> tested < ExpectedTested(students)
    ensures Multiplier(tested, students).value > 1.0 <==> tested > ExpectedTested(students)
  {
    var e := ExpectedTested(students) as real;
    var m := Multiplier(tested, students).value;
    Numeric.RatioAgainstOne(m, e, tested as real);
  }

  /** Percent of expected assessments taken, `tested / (2 * students) * 100`. */
  function PercentTested(tested: nat, students: nat): (pct: Option<real>)
    ensures pct.Some? <==> students > 0
    ensures pct.Some? ==> pct.value * (2 * students) as real == tested as real * 100.0
  {
    if students == 0 then None else Some(tested as real / (2 * students) as real * 100.0)
  }

  /** The school summary's multiplier and percent tested: the k-2 model
      ignores the 95% rule (multiplier 1, no percent tested). The percent
      tested table is built from the window students, so a school without
      any has no row to set and its multiplier stays null after the merge,
      whatever its model. */
  function CsiMultiplier(m: FederalConfig.FedModel, tested: nat, students: nat): (mult: Option<real>)
    ensures mult.Some? <==> students > 0
    ensures m == FederalConfig.K2 && students > 0 ==> mult == Some(1.0)
    ensures m != FederalConfig.K2 ==> mult == Multiplier(tested, students)
  {
    if students == 0 then None
    else if m == FederalConfig.K2 then Some(1.0)
    else Multiplier(tested, students)
  }

  function CsiPercentTested(m: FederalConfig.FedModel, tested: nat, students: nat): (pct: Option<real>)
    ensures m == FederalConfig.K2 ==> pct.None?
    ensures m != FederalConfig.K2 ==> pct == PercentTested(tested, students)
  {
    if m == FederalConfig.K2 then None else PercentTested(tested, students)
  }

  /** Drilldown percent proficient, without the multiplier; none when no
      FAY student was tested. */
  function DrilldownPercent(proficient: nat, fayTested: nat): (pct: Option<real>)
    requires proficient <= fayTested
    ensures pct.Some? <==> fayTested > 0
    ensures pct.Some? ==> 0.0 <= pct.value <= 100.0 && pct.value * fayTested as real == proficient as real * 100.0
  {
    if fayTested == 0 then None
    else
      Numeric.PercentOfWhole(proficient as real, fayTested as real, 1.0);
      Some(proficient as real / fayTested as real * 100.0)
  }

  /** Proficiency points: the multiplied percent proficient over 100 times the
      weight, with no upper clamp; none below `2 * nCount` FAY-tested
      assessments (two subjects per student) or without a multiplier. */
  function Points(proficient: nat, fayTested: nat, mult: Option<real>, weight: real, nCount: nat): (points: Option<real>)
    requires proficient <= fayTested && 0.0 <= weight
    requires mult.Some? ==> mult.value >= 0.0
    ensures points.None? <==> fayTested < 2 * nCount || fayTested == 0 || mult.None?
    ensures points.Some? ==> 0.0 <= points.value <= weight * mult.value
    ensures points.Some? ==> points.value * fayTested as real == proficient as real * mult.value * weight
  {
    if fayTested < 2 * nCount || fayTested == 0 || mult.None? then None
    else
      var pct := DrilldownPercent(proficient, fayTested).value * mult.value;
      var p := pct / 100.0 * weight;
      ProductBounds(DrilldownPercent(proficient, fayTested).value / 100.0, mult.value, weight);
      assert p == DrilldownPercent(proficient, fayTested).value / 100.0 * mult.value * weight;
      Some(p)
  }

  lemma ProductBounds(share: real, mult: real, weight: real)
    requires 0.0 <= share <= 1.0 && 0.0 <= mult && 0.0 <= weight
    ensures 0.0 <= share * mult * weight <= weight * mult
  {
    assert weight * mult - share * mult * weight == (1.0 - share) * (mult * weight);
  }

  /** Without a clamp, a school testing more assessments than expected can
      earn more than the weight: 40 of 40 proficient with 80 assessments
      taken against 76 expected earns 60 * 80 / 76 > 60 points. */
  lemma NoUpperClamp()
    ensures Points(40, 40, Multiplier(80, 40), 60.0, FederalConfig.NCount).value > 60.0
  {
    assert ExpectedTested(40) == 76;
    var m := Multiplier(80, 40).value;
    assert m * 76.0 == 80.0;
    var p := Points(40, 40, Some(m), 60.0, FederalConfig.NCount).value;
    assert p * 40.0 == 40.0 * m * 60.0;
    assert p == m * 60.0;
  }

  /** A k-2 school (multiplier 1) earns at most its weight. */
  lemma K2WithinWeight(proficient: nat, fayTested: nat, tested: nat, students: nat, nCount: nat)
    requires proficient <= fayTested
    requires Points(proficient, fayTested, CsiMultiplier(FederalConfig.K2, tested, students), 80.0, nCount).Some?
    ensures Points(proficient, fayTested, CsiMultiplier(FederalConfig.K2, tested, students), 80.0, nCount).value <= 80.0
  {
  }

  /** More proficient students never earn fewer points. */
  lemma PointsMonotone(p1: nat, p2: nat, fayTested: nat, mult: Option<real>, weight: real, nCount: nat)
    requires p1 <= p2 <= fayTested && 0.0 <= weight
    requires mult.Some? ==> mult.value >= 0.0
    ensures Points(p1, fayTested, mult, weight, nCount).Some? ==>
              Points(p1, fayTested, mult, weight, nCount).value <= Points(p2, fayTested, mult, weight, nCount).value
  {
    if Points(p1, fayTested, mult, weight, nCount).Some? {
      ScaledOrder(Points(p1, fayTested, mult, weight, nCount).value, Points(p2, fayTested, mult, weight, nCount).value,
                  fayTested as real, p1 as real, p2 as real, mult.value, weight);
    }
  }

  /** Two values scaled by the same positive `f` to `x * m * w` and
      `y * m * w` keep the order of `x` and `y`. */
  lemma ScaledOrder(a: real, b: real, f: real, x: real, y: real, m: real, w: real)
    requires f > 0.0 && 0.0 <= m && 0.0 <= w && x <= y
    requires a * f == x * m * w && b * f == y * m * w
    ensures a <= b
  {
    var mw := m * w;
    assert mw >= 0.0;
    assert a * f == x * mw && b * f == y * mw;
    assert (b - a) * f == (y - x) * mw;
    assert (y - x) * mw >= 0.0;
  }

  /** The school summary: all in-model records of one school; none for a
      school without window students, which has no multiplier. */
  function SchoolPoints(recs: seq<ProfRecord>, m: FederalConfig.FedModel, nCount: nat): (points: Option<real>)
    ensures points.Some? ==> NumFayTested(recs) >= 2 * nCount && NumFayTested(recs) > 0
    ensures points.Some? ==> |WindowStudents(recs)| > 0
    ensures points.Some? ==> points.value >= 0.0
    ensures m == FederalConfig.K2 && points.Some? ==> points.value <= 80.0
  {
    var w := FederalConfig.Weight(m, FederalConfig.Proficiency).GetOr(0.0);
    assert w >= 0.0 by { FederalConfig.WeightsNonnegative(m, FederalConfig.Proficiency); }
    Points(NumProficient(recs), NumFayTested(recs),
           CsiMultiplier(m, NumTested(recs), |WindowStudents(recs)|), w, nCount)
  }


  /** ATSI points of a subgroup: the summary formula on the subgroup's own
      counts, but with the 95% multiplier for every model, k-2 included;
      none for the excluded values (flag 0 and ethnicity 'U'). */
  function AtsiPoints(recs: seq<ProfRecord>, col: FederalConfig.SubgroupColumn, v: FederalConfig.SubgroupValue,
                      m: FederalConfig.FedModel, nCount: nat): (points: Option<real>)
    ensures FederalConfig.ExcludedSubgroup(v) ==> points.None?
    ensures points.Some? ==> NumFayTested(FederalConfig.SubgroupRecords(recs, (r: ProfRecord) => r.subgroups, col, v)) >= 2 * nCount
    ensures points.Some? ==> points.value >= 0.0
  {
    var g := FederalConfig.SubgroupRecords(recs, (r: ProfRecord) => r.subgroups, col, v);
    var w := FederalConfig.Weight(m, FederalConfig.Proficiency).GetOr(0.0);
    assert w >= 0.0 by { FederalConfig.WeightsNonnegative(m, FederalConfig.Proficiency); }
    if FederalConfig.ExcludedSubgroup(v) then None
    else Points(NumProficient(g), NumFayTested(g), Multiplier(NumTested(g), |WindowStudents(g)|), w, nCount)
  }

  /** Outside k-2, a subgroup holding every record of the school scores
      exactly what the school scores. */
  lemma AtsiMatchesSummary(recs: seq<ProfRecord>, col: FederalConfig.SubgroupColumn, v: FederalConfig.SubgroupValue,
                           m: FederalConfig.FedModel, nCount: nat)
    requires m != FederalConfig.K2 && !FederalConfig.ExcludedSubgroup(v)
    requires forall i :: 0 <= i < |recs| ==> col in recs[i].subgroups && recs[i].subgroups[col] == v
    ensures AtsiPoints(recs, col, v, m, nCount) == SchoolPoints(recs, m, nCount)
  {
    assert FederalConfig.SubgroupRecords(recs, (r: ProfRecord) => r.subgroups, col, v) == recs;
  }

  /** The groupings of the ATSI aggregation: the empty grouping, each `x` of
      `l1` alone, and for each `x` every `y` of `l2` alone and paired with `x`. */
  method GetAllPairs<T>(l1: seq<T>, l2: seq<T>) returns (pairs: seq<seq<T>>)
    ensures |pairs| == 1 + |l1| * (1 + 2 * |l2|)
    ensures [] in pairs
    ensures forall x :: x in l1 ==> [x] in pairs
    ensures |l1| > 0 ==> forall y :: y in l2 ==> [y] in pairs
    ensures forall x, y :: x in l1 && y in l2 ==> [x, y] in pairs
    ensures forall g :: g in pairs ==>
              g == [] || (|g| == 1 && (g[0] in l1 || g[0] in l2)) || (|g| == 2 && g[0] in l1 && g[1] in l2)
  {
    pairs := [[]];
    var i := 0;
    while i < |l1|
      invariant 0 <= i <= |l1|
      invariant |pairs| == 1 + i * (1 + 2 * |l2|)
      invariant [] in pairs
      invariant forall k :: 0 <= k < i ==> [l1[k]] in pairs
      invariant i > 0 ==> forall y :: y in l2 ==> [y] in pairs
      invariant forall k, y :: 0 <= k < i && y in l2 ==> [l1[k], y] in pairs
      invariant forall g :: g in pairs ==>
                  g == [] || (|g| == 1 && (g[0] in l1 || g[0] in l2)) || (|g| == 2 && g[0] in l1 && g[1] in l2)
    {
      var block := PairsWith(l1[i], l2);
      pairs := pairs + block;
      assert (i + 1) * (1 + 2 * |l2|) == i * (1 + 2 * |l2|) + 1 + 2 * |l2|;
      i := i + 1;
    }
  }

  /** The groupings that one `x` of the first list adds: `x` alone, then
      each `y` of `l2` alone and paired with `x`. */
  method PairsWith<T>(x: T, l2: seq<T>) returns (block: seq<seq<T>>)
    ensures |block| == 1 + 2 * |l2|
    ensures [x] in block
    ensures forall y :: y in l2 ==> [y] in block && [x, y] in block
    ensures forall g :: g in block ==> g == [x] || (|g| == 1 && g[0] in l2) || (|g| == 2 && g[0] == x && g[1] in l2)
  {
    block := [[x]];
    var j := 0;
    while j < |l2|
      invariant 0 <= j <= |l2|
      invariant |block| == 1 + 2 * j
      invariant [x] in block
      invariant forall k :: 0 <= k < j ==> [l2[k]] in block && [x, l2[k]] in block
      invariant forall g :: g in block ==> g == [x] || (|g| == 1 && g[0] in l2) || (|g| == 2 && g[0] == x && g[1] in l2)
    {
      block := block + [[l2[j]], [x, l2[j]]];
      j := j + 1;
    }
  }
}
