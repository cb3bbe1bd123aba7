/** The state k-8 Acceleration/Readiness (AR) indicator: five parts scored
    by threshold rules on current- and prior-year percents (compared at 2
    places) - grade 8 math performance, grade 3 ELA minimally proficient,
    chronic absence, special-education inclusion and subgroup improvement -
    each capped and summed into a total capped at the 10-point AR weight. */
module StateAr {
  import opened Wrappers
  import opened Nullable
  import opened Rules
  import Numeric
  import Dedup
  import Seqs
  import StateConfig

  function R2(x: real): real { Numeric.RoundTo(x, 2) }

  /** `part` as a percent of `whole` (pandas `value_counts(normalize=True) * 100`). */
  function Percent(part: nat, whole: nat): (pct: real)
    requires part <= whole && whole > 0
    ensures 0.0 <= pct <= 100.0
    ensures pct * whole as real == part as real * 100.0
  {
    assert part as real / whole as real <= 1.0 by {
      Numeric.RealDivMonotone(part as real, whole as real, whole as real);
    }
    part as real / whole as real * 100.0
  }

  // ---------------------------------------------------------------------
  // Chronic absence and grade 3 ELA: "reduce it or be under the target"

  /** Rules of a percent the school should reduce, in assignment order:
      0 when it rose, `points` when it is at most `target`, `points` when it
      did not rise. A comparison with a missing percent is false. */
  function ReductionRules(cy: Option<real>, py: Option<real>, target: real, points: real): seq<Rule> {
    var both := cy.Some? && py.Some?;
    [ Rule(0.0, both && R2(cy.value) > R2(py.value)),
      Rule(points, cy.Some? && R2(cy.value) <= target),
      Rule(points, both && R2(cy.value) <= R2(py.value)) ]
  }

  /** Points of a reduction rule, none when the current year's count is
      under the N-count. */
  function ReductionPoints(cy: Option<real>, py: Option<real>, cyCount: nat, nCount: nat, target: real, points: real): (p: Option<real>)
    ensures cyCount < nCount ==> p.None?
  {
    Suppress(ApplyRules(ReductionRules(cy, py, target, points), None), cyCount, nCount)
  }

  /** The reduction decision stated directly: full points at or under the
      target, otherwise full points when the percent did not rise and 0
      when it rose; no value without a current percent, or without a prior
      one above the target. */
  function IntendedReduction(cy: Option<real>, py: Option<real>, target: real, points: real): Option<real> {
    if cy.None? then None
    else if R2(cy.value) <= target then Some(points)
    else if py.None? then None
    else if R2(cy.value) <= R2(py.value) then Some(points)
    else Some(0.0)
  }

  /** The ordered rules compute the direct decision. */
  lemma ReductionIsIntended(cy: Option<real>, py: Option<real>, target: real, points: real)
    ensures ApplyRules(ReductionRules(cy, py, target, points), None) == IntendedReduction(cy, py, target, points)
  {
    var rs := ReductionRules(cy, py, target, points);
    if rs[2].holds {
      assert ApplyRules(rs, None) == Some(points);
    } else if rs[1].holds {
      assert ApplyRules(rs, None) == Some(points);
    } else if rs[0].holds {
      assert ApplyRules(rs, None) == Some(0.0);
    } else {
      assert ApplyRules(rs, None) == None;
    }
  }

  /** Chronic absence: 2 points for at most 4% chronically absent or no
      rise over the prior year, 0 for a rise above 4%. */
  function ChronicAbsencePoints(cy: Option<real>, py: Option<real>, cyCount: nat, nCount: nat): (p: Option<real>)
    ensures p.None? <==> cyCount < nCount || IntendedReduction(cy, py, 4.0, 2.0).None?
    ensures p.Some? ==> p == IntendedReduction(cy, py, 4.0, 2.0) && (p.value == 0.0 || p.value == 2.0)
  {
    ReductionIsIntended(cy, py, 4.0, 2.0);
    ReductionPoints(cy, py, cyCount, nCount, 4.0, 2.0)
  }

  /** Grade 3 ELA: 5 points for at most 12% minimally proficient or no rise
      over the prior year, 0 for a rise above 12%. */
  function G3ElaPoints(cy: Option<real>, py: Option<real>, cyCount: nat, nCount: nat): (p: Option<real>)
    ensures p.None? <==> cyCount < nCount || IntendedReduction(cy, py, 12.0, 5.0).None?
    ensures p.Some? ==> p == IntendedReduction(cy, py, 12.0, 5.0) && (p.value == 0.0 || p.value == 5.0)
  {
    ReductionIsIntended(cy, py, 12.0, 5.0);
    ReductionPoints(cy, py, cyCount, nCount, 12.0, 5.0)
  }

  /** A school at or under the target keeps its points whatever the prior
      year, including a prior year with no percent. */
  lemma UnderTargetScores(cy: real, py: Option<real>, cyCount: nat, nCount: nat)
    requires cyCount >= nCount
    ensures R2(cy) <= 4.0 ==> ChronicAbsencePoints(Some(cy), py, cyCount, nCount) == Some(2.0)
    ensures R2(cy) <= 12.0 ==> G3ElaPoints(Some(cy), py, cyCount, nCount) == Some(5.0)
  {
  }

  // ---------------------------------------------------------------------
  // Grade 8 math

  /** Highly proficient points: 2.5 for at least 60% highly proficient and
      2.5 for a non-zero percent at least the prior year's; none when
      neither holds. */
  function HpPoints(cy: Option<real>, py: Option<real>): (p: Option<real>) {
    var target := cy.Some? && R2(cy.value) >= 60.0;
    var imp := cy.Some? && py.Some? && R2(cy.value) >= R2(py.value) && R2(cy.value) != 0.0;
    SumMinCount1([if target then Some(2.5) else None, if imp then Some(2.5) else None])
  }

  /** Minimally proficient points: 2.5 for at most 10% minimally
      proficient and 2.5 for a percent at most the prior year's. */
  function MpPoints(cy: Option<real>, py: Option<real>): (p: Option<real>) {
    var target := cy.Some? && R2(cy.value) <= 10.0;
    var imp := cy.Some? && py.Some? && R2(cy.value) <= R2(py.value);
    SumMinCount1([if target then Some(2.5) else None, if imp then Some(2.5) else None])
  }

  /** Two 2.5-point criteria summed with `min_count=1`: none, 2.5 or 5. */
  lemma TwoCriteria(a: bool, b: bool)
    ensures SumMinCount1([if a then Some(2.5) else None, if b then Some(2.5) else None])
            == (if a && b then Some(5.0) else if a || b then Some(2.5) else None)
  {
    SumSkipNullPair(if a then Some(2.5) else None, if b then Some(2.5) else None);
  }

  /** Grade 8 math part of the summary: highly and minimally proficient
      points summed, capped at 5; none under the current year's N-count or
      when no criterion holds. */
  function G8MathPoints(hpCy: Option<real>, hpPy: Option<real>, mpCy: Option<real>, mpPy: Option<real>,
                        cyCount: nat, nCount: nat): (p: Option<real>)
    ensures cyCount < nCount ==> p.None?
  {
    var hp := Suppress(HpPoints(hpCy, hpPy), cyCount, nCount);
    var mp := Suppress(MpPoints(mpCy, mpPy), cyCount, nCount);
    CapAt(SumMinCount1([hp, mp]), 5.0)
  }

  /** The grade 8 math part is 2.5 or 5 when some criterion holds: the four
      criteria can add up to 10, and the cap keeps the part at 5. */
  lemma G8MathValues(hpCy: Option<real>, hpPy: Option<real>, mpCy: Option<real>, mpPy: Option<real>, cyCount: nat, nCount: nat)
    requires cyCount >= nCount
    ensures G8MathPoints(hpCy, hpPy, mpCy, mpPy, cyCount, nCount).None? <==> HpPoints(hpCy, hpPy).None? && MpPoints(mpCy, mpPy).None?
    ensures G8MathPoints(hpCy, hpPy, mpCy, mpPy, cyCount, nCount).Some? ==>
              G8MathPoints(hpCy, hpPy, mpCy, mpPy, cyCount, nCount).value in {2.5, 5.0}
  {
    var hp := HpPoints(hpCy, hpPy);
    var mp := MpPoints(mpCy, mpPy);
    TwoCriteria(hpCy.Some? && R2(hpCy.value) >= 60.0,
                hpCy.Some? && hpPy.Some? && R2(hpCy.value) >= R2(hpPy.value) && R2(hpCy.value) != 0.0);
    TwoCriteria(mpCy.Some? && R2(mpCy.value) <= 10.0, mpCy.Some? && mpPy.Some? && R2(mpCy.value) <= R2(mpPy.value));
    SumSkipNullPair(hp, mp);
    assert AllNull([hp, mp]) <==> hp.None? && mp.None? by {
      assert [hp, mp][0] == hp && [hp, mp][1] == mp;
    }
  }

  // ---------------------------------------------------------------------
  // Subgroup improvement

  /** One (subgroup, subject) result of a school: distinct FAY-tested
      students of each year (a missing year counts 0) and the weighted
      percent proficient of each year. */
  datatype SubgroupResult = SubgroupResult(name: string, cyCount: nat, pyCount: nat, cy: Option<real>, py: Option<real>)

  /** 2 points for a higher weighted percent proficient than the prior
      year, 0 otherwise; none when either year is under the N-count or a
      percent is missing. */
  function SubgroupPoints(r: SubgroupResult, nCount: nat): (p: Option<real>)
    ensures p.Some? <==> r.cyCount >= nCount && r.pyCount >= nCount && r.cy.Some? && r.py.Some?
    ensures p.Some? ==> (p.value == 2.0 <==> R2(r.cy.value) > R2(r.py.value))
    ensures p.Some? ==> (p.value == 0.0 <==> R2(r.cy.value) <= R2(r.py.value))
  {
    var both := r.cy.Some? && r.py.Some?;
    var rules := [Rule(2.0, both && R2(r.cy.value) > R2(r.py.value)),
                  Rule(0.0, both && R2(r.cy.value) <= R2(r.py.value))];
    if r.cyCount < nCount || r.pyCount < nCount then None
    else
      assert both ==> rules[0].holds || rules[1].holds;
      ApplyRules(rules, None)
  }

  /** The subgroup points of a school, without the unknown-ethnicity
      subgroup 'U'. */
  function SubgroupColumn(rs: seq<SubgroupResult>, nCount: nat): (ps: seq<Option<real>>)
    ensures PresentWithin(ps, 2.0)
    ensures |ps| <= |rs|
  {
    if |rs| == 0 then []
    else
      var rest := SubgroupColumn(rs[1..], nCount);
      if rs[0].name == "U" then rest
      else
        var p := SubgroupPoints(rs[0], nCount);
        assert forall i :: 1 <= i < |[p] + rest| ==> ([p] + rest)[i] == rest[i - 1];
        [p] + rest
  }

  /** The subgroup-improvement part: the subgroups' points summed with
      `min_count=1`, capped at 6. */
  function SubgroupSummary(rs: seq<SubgroupResult>, nCount: nat): (p: Option<real>)
    ensures p.None? <==> AllNull(SubgroupColumn(rs, nCount))
    ensures p.Some? ==> 0.0 <= p.value <= 6.0
  {
    var ps := SubgroupColumn(rs, nCount);
    SumSkipNullWithin(ps, 2.0);
    CapAt(SumMinCount1(ps), 6.0)
  }

  // ---------------------------------------------------------------------
  // Special-education inclusion

  /** One static-file record, reduced to what SPED inclusion reads. */
  datatype SpedRecord = SpedRecord(student: int, school: int, grade: int, fay: int, inclusion: Option<bool>)

  function StudentAtSchool(r: SpedRecord): (int, int) { (r.student, r.school) }

  /** Sorting on SPEDInclusion descending with nulls last. */
  function InclusionRank(r: SpedRecord): (int, int) {
    (if r.inclusion == Some(true) then 2 else if r.inclusion == Some(false) then 1 else 0, 0)
  }

  predicate InK8Grades(r: SpedRecord) { -1 <= r.grade <= 8 }

  predicate IsFay(r: SpedRecord) { r.fay > 0 }

  /** The records of grades K-8 (-1 through 8): each such record as often
      as it occurs, and no other, in table order. */
  function InGrades(rs: seq<SpedRecord>): (out: seq<SpedRecord>)
    ensures forall i :: 0 <= i < |out| ==> -1 <= out[i].grade <= 8 && out[i] in rs
    ensures forall r :: multiset(out)[r] == if -1 <= r.grade <= 8 then multiset(rs)[r] else 0
  {
    Seqs.FilterCounts(InK8Grades, rs);
    Seqs.Filter(InK8Grades, rs)
  }

  /** The FAY records: each as often as it occurs, and no other, in table
      order. */
  function FayOnly(rs: seq<SpedRecord>): (out: seq<SpedRecord>)
    ensures forall i :: 0 <= i < |out| ==> out[i].fay > 0 && out[i] in rs
    ensures forall r :: multiset(out)[r] == if r.fay > 0 then multiset(rs)[r] else 0
  {
    Seqs.FilterCounts(IsFay, rs);
    Seqs.Filter(IsFay, rs)
  }

  /** One in-grade record per (student, school), the one the de-duplication
      keeps: SPEDInclusion True over False over null (it ranks at least as
      high as every in-grade record of its student at its school), and of
      records that tie, the first in file order, as the stable sort and
      `drop_duplicates` keep it. Every in-grade student keeps a record. */
  function Kept(rs: seq<SpedRecord>): (out: seq<SpedRecord>)
    ensures Dedup.KeysDistinct(out, StudentAtSchool)
    ensures forall k :: 0 <= k < |out| ==> InK8Grades(out[k]) && out[k] in rs
    ensures forall k, i :: 0 <= k < |out| && 0 <= i < |rs| && InK8Grades(rs[i]) && StudentAtSchool(out[k]) == StudentAtSchool(rs[i]) ==>
              Dedup.AtLeast(InclusionRank(out[k]), InclusionRank(rs[i]))
    ensures forall k :: 0 <= k < |out| ==> Dedup.FirstIn(rs, InK8Grades, out[k], StudentAtSchool, InclusionRank)
  {
    var sel := InGrades(rs);
    var out := Dedup.KeepBest(sel, StudentAtSchool, InclusionRank);
    Dedup.KeepBestOfFilterFirst(InK8Grades, rs, StudentAtSchool, InclusionRank);
    KeptComplete(rs, sel, out);
    KeptRanked(rs, sel, out);
    out
  }

  /** Every student with an in-grade record at a school keeps a record there. */
  lemma KeptStudent(rs: seq<SpedRecord>, i: nat)
    requires i < |rs| && InK8Grades(rs[i])
    ensures Dedup.HasKey(Kept(rs), StudentAtSchool, StudentAtSchool(rs[i]))
  {
    KeptComplete(rs, InGrades(rs), Dedup.KeepBest(InGrades(rs), StudentAtSchool, InclusionRank));
  }

  lemma KeptComplete(rs: seq<SpedRecord>, sel: seq<SpedRecord>, out: seq<SpedRecord>)
    requires sel == InGrades(rs) && out == Dedup.KeepBest(sel, StudentAtSchool, InclusionRank)
    ensures forall k :: 0 <= k < |out| ==> InK8Grades(out[k]) && out[k] in rs
    ensures forall i :: 0 <= i < |rs| && InK8Grades(rs[i]) ==> Dedup.HasKey(out, StudentAtSchool, StudentAtSchool(rs[i]))
  {
    forall k | 0 <= k < |out| ensures InK8Grades(out[k]) && out[k] in rs {
      assert out[k] in sel;
    }
    forall i | 0 <= i < |rs| && InK8Grades(rs[i])
      ensures Dedup.HasKey(out, StudentAtSchool, StudentAtSchool(rs[i]))
    {
      assert multiset(sel)[rs[i]] > 0;
      var j :| 0 <= j < |sel| && sel[j] == rs[i];
      assert Dedup.HasKey(sel, StudentAtSchool, StudentAtSchool(rs[i]));
    }
  }

  lemma KeptRanked(rs: seq<SpedRecord>, sel: seq<SpedRecord>, out: seq<SpedRecord>)
    requires sel == InGrades(rs) && out == Dedup.KeepBest(sel, StudentAtSchool, InclusionRank)
    ensures forall k, i :: 0 <= k < |out| && 0 <= i < |rs| && InK8Grades(rs[i]) && StudentAtSchool(out[k]) == StudentAtSchool(rs[i]) ==>
              Dedup.AtLeast(InclusionRank(out[k]), InclusionRank(rs[i]))
  {
    forall k, i | 0 <= k < |out| && 0 <= i < |rs| && InK8Grades(rs[i]) && StudentAtSchool(out[k]) == StudentAtSchool(rs[i])
      ensures Dedup.AtLeast(InclusionRank(out[k]), InclusionRank(rs[i]))
    {
      assert multiset(sel)[rs[i]] > 0;
      var j :| 0 <= j < |sel| && sel[j] == rs[i];
      assert Dedup.AtLeast(InclusionRank(out[k]), InclusionRank(sel[j]));
    }
  }

  /** An included record is always kept over one that is not: when a
      student has an included in-grade record at a school, the kept record
      is included. */
  lemma IncludedPreferred(rs: seq<SpedRecord>, k: nat, i: nat)
    requires k < |Kept(rs)| && i < |rs| && InK8Grades(rs[i]) && rs[i].inclusion == Some(true)
    requires StudentAtSchool(Kept(rs)[k]) == StudentAtSchool(rs[i])
    ensures Kept(rs)[k].inclusion == Some(true)
  {
  }

  /** The students SPED inclusion counts: grades K-8, one record per
      (student, school) preferring an included record, then FAY only. The
      de-duplication comes first, so a student whose kept record is not FAY
      is not counted at that school. */
  function SpedStudents(rs: seq<SpedRecord>): (out: seq<SpedRecord>)
    ensures Dedup.KeysDistinct(out, StudentAtSchool)
    ensures forall i :: 0 <= i < |out| ==> out[i].fay > 0 && -1 <= out[i].grade <= 8 && out[i] in rs
    ensures forall r :: multiset(out)[r] == if IsFay(r) then multiset(Kept(rs))[r] else 0
  {
    var best := Kept(rs);
    var out := FayOnly(best);
    Dedup.FilterKeysDistinct(IsFay, best, StudentAtSchool);
    forall i | 0 <= i < |out| ensures -1 <= out[i].grade <= 8 && out[i] in rs {
      assert multiset(best)[out[i]] > 0;
      assert out[i] in best;
    }
    out
  }

  /** A student whose kept record is FAY is counted at that school. */
  lemma FayKeptCounted(rs: seq<SpedRecord>, k: nat)
    requires k < |Kept(rs)| && IsFay(Kept(rs)[k])
    ensures Kept(rs)[k] in SpedStudents(rs)
  {
    assert multiset(Kept(rs))[Kept(rs)[k]] > 0;
  }

  /** The record counted for a student at a school is the one kept for them. */
  lemma CountedIsKept(rs: seq<SpedRecord>, k: nat, m: nat)
    requires k < |Kept(rs)| && m < |SpedStudents(rs)|
    requires StudentAtSchool(SpedStudents(rs)[m]) == StudentAtSchool(Kept(rs)[k])
    ensures SpedStudents(rs)[m] == Kept(rs)[k]
  {
    var best := Kept(rs);
    var x := SpedStudents(rs)[m];
    assert multiset(SpedStudents(rs))[x] > 0;
    assert x in best;
    var k2 :| 0 <= k2 < |best| && best[k2] == x;
    assert StudentAtSchool(best[k2]) == StudentAtSchool(best[k]);
  }

  /** A student is counted at a school exactly when the record kept for
      them there is FAY. */
  lemma SpedStudentsIff(rs: seq<SpedRecord>, k: nat)
    requires k < |Kept(rs)|
    ensures Dedup.HasKey(SpedStudents(rs), StudentAtSchool, StudentAtSchool(Kept(rs)[k])) <==> IsFay(Kept(rs)[k])
  {
    var out := SpedStudents(rs);
    if IsFay(Kept(rs)[k]) {
      FayKeptCounted(rs, k);
      var m :| 0 <= m < |out| && out[m] == Kept(rs)[k];
    }
    if Dedup.HasKey(out, StudentAtSchool, StudentAtSchool(Kept(rs)[k])) {
      var m :| 0 <= m < |out| && StudentAtSchool(out[m]) == StudentAtSchool(Kept(rs)[k]);
      CountedIsKept(rs, k, m);
    }
  }

  /** A student with an in-grade record at a school is counted there
      exactly when the record kept for them is FAY. */
  lemma SpedStudentCounted(rs: seq<SpedRecord>, i: nat)
    requires i < |rs| && InK8Grades(rs[i])
    ensures exists k :: 0 <= k < |Kept(rs)| && StudentAtSchool(Kept(rs)[k]) == StudentAtSchool(rs[i]) &&
              (Dedup.HasKey(SpedStudents(rs), StudentAtSchool, StudentAtSchool(rs[i])) <==> IsFay(Kept(rs)[k]))
  {
    var best := Kept(rs);
    KeptStudent(rs, i);
    var k :| 0 <= k < |best| && StudentAtSchool(best[k]) == StudentAtSchool(rs[i]);
    SpedStudentsIff(rs, k);
  }

  /** Of two tied in-grade records of one student at one school, only the
      first is kept. */
  lemma TiedKeptFirst(a: SpedRecord, b: SpedRecord)
    requires StudentAtSchool(a) == StudentAtSchool(b) && InK8Grades(a) && InK8Grades(b)
    requires InclusionRank(a) == InclusionRank(b)
    ensures Kept([a, b]) == [a]
  {
    var rs := [a, b];
    assert rs[1..] == [b] && [b][1..] == [];
    assert InGrades(rs) == rs;
    Dedup.TwoTiedKeepFirst(a, b, StudentAtSchool, InclusionRank);
  }

  /** Two in-grade records of one student at one school, both included, the
      first FAY and the second not: the first is kept, so the student counts. */
  lemma TiedRecordsKeepFirst(a: SpedRecord, b: SpedRecord)
    requires StudentAtSchool(a) == StudentAtSchool(b) && InK8Grades(a) && InK8Grades(b)
    requires a.inclusion == Some(true) && b.inclusion == Some(true) && IsFay(a) && !IsFay(b)
    ensures SpedStudents([a, b]) == [a]
  {
    TiedKeptFirst(a, b);
    var out := SpedStudents([a, b]);
    assert multiset(out) == multiset{a};
  }

  /** A school's FAY students and how many of them are included. */
  datatype SpedSchool = SpedSchool(students: nat, included: nat)

  function SchoolOf(rs: seq<SpedRecord>, school: int): (s: SpedSchool)
    ensures s.included <= s.students <= |rs|
  {
    if |rs| == 0 then SpedSchool(0, 0)
    else
      var rest := SchoolOf(rs[1..], school);
      if rs[0].school != school then rest
      else SpedSchool(rest.students + 1, rest.included + (if rs[0].inclusion == Some(true) then 1 else 0))
  }

  predicate Valid(s: SpedSchool) { 0 < s.students && s.included <= s.students }

  function InclusionPercent(s: SpedSchool): real
    requires Valid(s)
  {
    Percent(s.included, s.students)
  }

  /** The schools that meet the N-count, in order: each such school as
      often as it occurs, and no other. */
  function EligibleSchools(schools: seq<SpedSchool>, nCount: nat): (out: seq<SpedSchool>)
    ensures forall j :: 0 <= j < |out| ==> out[j].students >= nCount && out[j] in schools
    ensures forall s :: multiset(out)[s] == if s.students >= nCount then multiset(schools)[s] else 0
  {
    var meets := (s: SpedSchool) => s.students >= nCount;
    Seqs.FilterCounts(meets, schools);
    Seqs.Filter(meets, schools)
  }

  /** The inclusion percents of the schools that meet the N-count, one per
      such school, in order. */
  function EligiblePercents(schools: seq<SpedSchool>, nCount: nat): (ps: seq<real>)
    requires forall i :: 0 <= i < |schools| ==> Valid(schools[i])
    ensures |ps| == |EligibleSchools(schools, nCount)|
    ensures forall j :: 0 <= j < |ps| ==> ps[j] == InclusionPercent(EligibleSchools(schools, nCount)[j])
  {
    var e := EligibleSchools(schools, nCount);
    seq(|e|, j requires 0 <= j < |e| => InclusionPercent(e[j]))
  }

  /** Some school meets the N-count exactly when the sample is not empty. */
  lemma EligibleNonempty(schools: seq<SpedSchool>, nCount: nat)
    ensures |EligibleSchools(schools, nCount)| > 0 <==> exists i :: 0 <= i < |schools| && schools[i].students >= nCount
  {
    var e := EligibleSchools(schools, nCount);
    if i :| 0 <= i < |schools| && schools[i].students >= nCount {
      assert multiset(e)[schools[i]] == multiset(schools)[schools[i]] > 0;
    }
  }

  /** The statewide mean inclusion percent over the schools that meet the
      N-count, rounded to 2 places; none when no school does. */
  function StatewideMean(schools: seq<SpedSchool>, nCount: nat): (m: Option<real>)
    requires forall i :: 0 <= i < |schools| ==> Valid(schools[i])
    ensures m.Some? <==> exists i :: 0 <= i < |schools| && schools[i].students >= nCount
    ensures m.Some? ==> m.value == R2(Numeric.Sum(EligiblePercents(schools, nCount)) / |EligibleSchools(schools, nCount)| as real)
  {
    var ps := EligiblePercents(schools, nCount);
    EligibleNonempty(schools, nCount);
    if |ps| == 0 then None else Some(R2(Numeric.Mean(ps).value))
  }

  /** When every school that meets the N-count has the same inclusion
      percent, the statewide mean is that percent at 2 places. */
  lemma UniformStatewideMean(schools: seq<SpedSchool>, nCount: nat, pct: real)
    requires forall i :: 0 <= i < |schools| ==> Valid(schools[i])
    requires exists i :: 0 <= i < |schools| && schools[i].students >= nCount
    requires forall i :: 0 <= i < |schools| && schools[i].students >= nCount ==> InclusionPercent(schools[i]) == pct
    ensures StatewideMean(schools, nCount) == Some(R2(pct))
  {
    var e := EligibleSchools(schools, nCount);
    var ps := EligiblePercents(schools, nCount);
    EligibleNonempty(schools, nCount);
    forall j | 0 <= j < |ps| ensures ps[j] == pct {
      assert e[j] in schools;
    }
    Numeric.MeanUniform(ps, pct);
  }

  /** SPED inclusion points: 2 when the school's percent (at 2 places) is
      above the statewide mean, else 0; none under the N-count. */
  function SpedPoints(s: SpedSchool, mean: Option<real>, nCount: nat): (p: Option<real>)
    requires Valid(s)
    ensures p.None? <==> s.students < nCount || mean.None?
    ensures p.Some? ==> (p.value == 2.0 <==> R2(InclusionPercent(s)) > mean.value)
    ensures p.Some? ==> (p.value == 0.0 <==> R2(InclusionPercent(s)) <= mean.value)
  {
    var rules := [Rule(0.0, mean.Some? && R2(InclusionPercent(s)) <= mean.value),
                  Rule(2.0, mean.Some? && R2(InclusionPercent(s)) > mean.value)];
    assert mean.Some? ==> rules[0].holds || rules[1].holds;
    Suppress(ApplyRules(rules, None), s.students, nCount)
  }

  /** Not every school can earn the inclusion points: whenever some school
      meets the N-count, one that does earns 0. */
  lemma SomeEligibleSchoolEarnsZero(schools: seq<SpedSchool>, nCount: nat)
    requires forall i :: 0 <= i < |schools| ==> Valid(schools[i])
    requires exists i :: 0 <= i < |schools| && schools[i].students >= nCount
    ensures exists i :: 0 <= i < |schools| && schools[i].students >= nCount
              && SpedPoints(schools[i], StatewideMean(schools, nCount), nCount) == Some(0.0)
  {
    var e := EligibleSchools(schools, nCount);
    var ps := EligiblePercents(schools, nCount);
    EligibleNonempty(schools, nCount);
    Numeric.SomeAtMostMean(ps);
    var j :| 0 <= j < |ps| && ps[j] <= Numeric.Mean(ps).value;
    assert e[j] in schools;
    var i :| 0 <= i < |schools| && schools[i] == e[j];
    Numeric.RoundToMonotone(ps[j], Numeric.Mean(ps).value, 2);
    assert SpedPoints(schools[i], StatewideMean(schools, nCount), nCount) == Some(0.0);
  }

  // ---------------------------------------------------------------------
  // Total

  /** The five AR parts of a school. */
  datatype ArParts = ArParts(g8Math: Option<real>, g3Ela: Option<real>, chronicAbsence: Option<real>,
                             spedInclusion: Option<real>, subgroupImprovement: Option<real>)

  function PartsColumn(a: ArParts): seq<Option<real>> {
    [a.g8Math, a.g3Ela, a.chronicAbsence, a.spedInclusion, a.subgroupImprovement]
  }

  /** The AR total: the parts summed with `min_count=1`, capped at the
      10-point AR weight; none only when every part is none. */
  function TotalPoints(a: ArParts): (p: Option<real>)
    ensures p.None? <==> AllNull(PartsColumn(a))
    ensures p.Some? ==> p.value <= StateConfig.WeightOrZero(StateConfig.K8, StateConfig.AccelerationReadiness)
  {
    CapAt(SumMinCount1(PartsColumn(a)), StateConfig.WeightOrZero(StateConfig.K8, StateConfig.AccelerationReadiness))
  }

  /** A school's parts, each scored by its rule and cap. */
  function SchoolParts(g8: Option<real>, g3: Option<real>, ca: Option<real>, sped: Option<real>,
                       sgs: seq<SubgroupResult>, nCount: nat): ArParts {
    ArParts(g8, g3, ca, sped, SubgroupSummary(sgs, nCount))
  }

  /** The parts can add up to 2 + 5 + 2 + 5 + 6 = 20: the total is the
      sum of the present parts up to 10, and within [0, 10]. */
  lemma TotalWithin(a: ArParts)
    requires PresentWithin(PartsColumn(a), 6.0)
    requires !AllNull(PartsColumn(a))
    ensures TotalPoints(a).value == (if SumSkipNull(PartsColumn(a)) > 10.0 then 10.0 else SumSkipNull(PartsColumn(a)))
    ensures 0.0 <= TotalPoints(a).value <= 10.0
  {
    SumSkipNullWithin(PartsColumn(a), 6.0);
  }

  /** Each part can only add: a school earning every part's maximum gets
      the full 10 points. */
  lemma AllPartsMaximal()
    ensures TotalPoints(ArParts(Some(5.0), Some(5.0), Some(2.0), Some(2.0), Some(6.0))) == Some(10.0)
  {
    var c := PartsColumn(ArParts(Some(5.0), Some(5.0), Some(2.0), Some(2.0), Some(6.0)));
    assert c[1..][1..][1..][1..][1..] == [];
    assert SumSkipNull(c) == 20.0;
  }
}
