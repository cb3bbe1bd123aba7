/** The school-type file: each school's enrolment counts and grade span from
    the enrolment records, its type codes from the grade span, its federal
    model from the federal type code, and its state grade model from the
    counts and the school's flags. */
module SchoolType {
  import opened Wrappers
  import Dedup
  import Numeric
  import FederalConfig

  // ---------------------------------------------------------------- type codes

  /** `format_type`: 0 to 4 from the highest and lowest grade served
      (kindergarten is -1); none when the highest grade is missing, or when
      it is 9 or above and the lowest grade is missing. */
  function FormatType(maxGrade: Option<int>, minGrade: Option<int>): (t: Option<int>)
    ensures t.None? <==> maxGrade.None? || (maxGrade.value >= 9 && minGrade.None?)
    ensures t.Some? ==> 0 <= t.value <= 4
  {
    if maxGrade.None? then None
    else
      var mx := maxGrade.value;
      if 3 <= mx < 9 then Some(2)
      else if mx >= 9 && minGrade.Some? && minGrade.value > 8 then Some(3)
      else if mx >= 9 && minGrade.Some? && minGrade.value <= 8 then Some(4)
      else if mx <= 2 then (if mx == 0 then Some(0) else Some(1))
      else None
  }

  /** `format_schooltype`: 3 for an alternative school, otherwise 4 for a
      type-1 school and 1 for any other. */
  function FormatSchoolType(alternative: bool, t: Option<int>): (s: int)
    ensures s == 1 || s == 3 || s == 4
    ensures s == 3 <==> alternative
  {
    if alternative then 3
    else if t == Some(1) then 4
    else 1
  }

  /** `format_schooltypef`: the federal school-type code, 1 to 5; a span
      school (type 4) is 5 when it reaches grade 12 and 4 below it. */
  function FormatSchoolTypeF(t: Option<int>, maxGrade: Option<int>): (f: Option<int>)
    ensures f.Some? ==> 1 <= f.value <= 5
    ensures f.Some? ==> t.Some? && (f.value <= 3 ==> f == t)
  {
    if t == Some(1) then Some(1)
    else if t == Some(2) then Some(2)
    else if t == Some(3) then Some(3)
    else if t == Some(4) && maxGrade.Some? && maxGrade.value < 12 then Some(4)
    else if t == Some(4) && maxGrade == Some(12) then Some(5)
    else None
  }

  /** The federal model a school is scored under: from its grade span,
      unless a correction of the federal model is on file, which wins. */
  function FederalModel(maxGrade: Option<int>, minGrade: Option<int>, correction: Option<FederalConfig.FedModel>)
    : (m: Option<FederalConfig.FedModel>)
    ensures correction.Some? ==> m == correction
    ensures correction.None? && m.Some? ==> maxGrade.Some?
  {
    if correction.Some? then correction
    else
      var f := FormatSchoolTypeF(FormatType(maxGrade, minGrade), maxGrade);
      if f.None? then None else FederalConfig.ModelOfCode(f.value)
  }

  /** The federal model of a grade span from `lo` to `hi` (kindergarten -1,
      grades at most 12) without a correction: K-2 up to grade 2, K-8 for a
      top grade from 3 to 8, high school when every grade is 9 or above, and
      a span from grade 8 or below up to 11 or 12 otherwise; a school whose
      top grade is 0 has none. */
  lemma FederalModelBySpan(lo: int, hi: int)
    requires lo <= hi <= 12
    ensures FederalModel(Some(hi), Some(lo), None) == Some(FederalConfig.K2) <==> hi <= 2 && hi != 0
    ensures FederalModel(Some(hi), Some(lo), None) == Some(FederalConfig.K8) <==> 3 <= hi <= 8
    ensures FederalModel(Some(hi), Some(lo), None) == Some(FederalConfig.HS) <==> lo >= 9
    ensures FederalModel(Some(hi), Some(lo), None) == Some(FederalConfig.K11) <==> lo <= 8 && 9 <= hi <= 11
    ensures FederalModel(Some(hi), Some(lo), None) == Some(FederalConfig.K12) <==> lo <= 8 && hi == 12
    ensures FederalModel(Some(hi), Some(lo), None).None? <==> hi == 0
  {
  }

  /** A non-alternative school whose top grade is kindergarten, 1 or 2 has
      state school type 4 and federal code 1. */
  lemma EarlyGradesSchool(hi: int, lo: Option<int>, alternative: bool)
    requires hi <= 2 && hi != 0 && !alternative
    ensures FormatSchoolType(alternative, FormatType(Some(hi), lo)) == 4
    ensures FormatSchoolTypeF(FormatType(Some(hi), lo), Some(hi)) == Some(1)
  {
  }

  // ---------------------------------------------------------------- state model

  /** A school's state model in the school-type file. */
  datatype SchoolModel = K8 | NineTwelve | NonTypical | Alternative | InEligible

  /** What the state-model assignment reads about a school: its enrolment
      counts by model, its alternative, first-year, private and JTED flags,
      and a correction for the state model, if one is on file. */
  datatype SchoolFacts = SchoolFacts(
    k8Count: nat, hsCount: nat,
    alternative: bool, year1: bool, isPrivate: bool, jted: bool,
    correction: Option<SchoolModel>)

  /** The state model as assigned: K8 for enough k-8 students, then 912 for
      enough 9-12 students, then Non-Typical for both, then Alternative, then
      InEligible for a school still without one, and InEligible for a
      first-year, private or JTED school; each step overwrites the last, and
      a correction on file overwrites them all. */
  function StateModel(f: SchoolFacts, n: nat): (sm: SchoolModel)
    ensures f.correction.Some? ==> sm == f.correction.value
  {
    var s1: Option<SchoolModel> := if f.k8Count >= n then Some(K8) else None;
    var s2 := if f.hsCount >= n then Some(NineTwelve) else s1;
    var s3 := if f.k8Count >= n && f.hsCount >= n then Some(NonTypical) else s2;
    var s4 := if f.alternative then Some(Alternative) else s3;
    var s5 := if s4.None? then InEligible else s4.value;
    var s6 := if f.year1 || f.isPrivate || f.jted then InEligible else s5;
    if f.correction.Some? then f.correction.value else s6
  }

  /** A school barred from a grade: first-year, private or JTED. */
  predicate Barred(f: SchoolFacts) {
    f.year1 || f.isPrivate || f.jted
  }

  /** The assignment by priority: without a correction, a barred school is
      InEligible; otherwise an alternative school is Alternative; otherwise
      the counts decide, Non-Typical for both models, 912 or K8 for one, and
      InEligible for neither. */
  lemma StateModelByPriority(f: SchoolFacts, n: nat)
    requires f.correction.None?
    ensures StateModel(f, n) == InEligible <==> Barred(f) || (!f.alternative && f.k8Count < n && f.hsCount < n)
    ensures StateModel(f, n) == Alternative <==> !Barred(f) && f.alternative
    ensures StateModel(f, n) == NonTypical <==> !Barred(f) && !f.alternative && f.k8Count >= n && f.hsCount >= n
    ensures StateModel(f, n) == NineTwelve <==> !Barred(f) && !f.alternative && f.k8Count < n && f.hsCount >= n
    ensures StateModel(f, n) == K8 <==> !Barred(f) && !f.alternative && f.k8Count >= n && f.hsCount < n
  {
  }

  // ---------------------------------------------------------------- enrolment

  /** A student's enrolment record at a school: whether it falls in the
      ELA/Math testing window, the grade as recorded (88 for kindergarten),
      and the FAY status. */
  datatype Enrollment = Enrollment(school: int, student: int, window: int, grade: int, fay: int)

  /** The grade used for spans: kindergarten (88) becomes -1. */
  function SpanGrade(g: int): int {
    if g == 88 then -1 else g
  }

  /** Records with a grade from kindergarten to 12, grade 88 recoded. */
  function InGradeRange(rs: seq<Enrollment>): (out: seq<Enrollment>)
    ensures forall i :: 0 <= i < |out| ==> -1 <= out[i].grade <= 12
    ensures forall i :: 0 <= i < |out| ==> exists j :: 0 <= j < |rs| && out[i] == rs[j].(grade := SpanGrade(rs[j].grade))
    ensures forall j :: 0 <= j < |rs| && -1 <= SpanGrade(rs[j].grade) <= 12 ==> rs[j].(grade := SpanGrade(rs[j].grade)) in out
  {
    if |rs| == 0 then []
    else
      var rest := InGradeRange(rs[1..]);
      assert forall j :: 1 <= j < |rs| ==> rs[j] == rs[1..][j - 1];
      var r := rs[0].(grade := SpanGrade(rs[0].grade));
      if -1 <= r.grade <= 12 then [r] + rest else rest
  }

  function StudentAtSchool(r: Enrollment): (int, int) {
    (r.school, r.student)
  }

  /** Sort key of the de-duplication: in-window records first, then the
      highest grade. */
  function Rank(r: Enrollment): (int, int) {
    (r.window, r.grade)
  }

  /** One record per (school, student), in the grade range: the in-window
      record if there is one, and among those the highest grade; of records
      that tie on both, the first, as the stable sort keeps it. */
  function Students(rs: seq<Enrollment>): (out: seq<Enrollment>)
    ensures forall i :: 0 <= i < |out| ==> -1 <= out[i].grade <= 12
    ensures forall i, j :: 0 <= i < j < |out| ==> StudentAtSchool(out[i]) != StudentAtSchool(out[j])
    ensures forall i :: 0 <= i < |out| ==> Dedup.FirstIn(InGradeRange(rs), _ => true, out[i], StudentAtSchool, Rank)
  {
    var sel := InGradeRange(rs);
    var out := Dedup.KeepBest(sel, StudentAtSchool, Rank);
    forall i | 0 <= i < |out| ensures -1 <= out[i].grade <= 12 {
      assert out[i] in sel;
    }
    out
  }

  /** Every student enrolled at a school in the grade range keeps a record. */
  lemma StudentsComplete(rs: seq<Enrollment>, i: nat)
    requires i < |rs| && -1 <= SpanGrade(rs[i].grade) <= 12
    ensures exists k :: 0 <= k < |Students(rs)| && StudentAtSchool(Students(rs)[k]) == StudentAtSchool(rs[i])
  {
    var sel := InGradeRange(rs);
    var out := Dedup.KeepBest(sel, StudentAtSchool, Rank);
    var r := rs[i].(grade := SpanGrade(rs[i].grade));
    var j :| 0 <= j < |sel| && sel[j] == r;
    assert Dedup.HasKey(sel, StudentAtSchool, StudentAtSchool(r));
    assert Dedup.HasKey(out, StudentAtSchool, StudentAtSchool(r));
    assert Students(rs) == out;
    var k :| 0 <= k < |out| && StudentAtSchool(out[k]) == StudentAtSchool(r);
  }

  /** The record kept for a student ranks at least as high as each of the
      student's records at that school: in-window first, then by grade. */
  lemma StudentsBest(rs: seq<Enrollment>, k: nat, i: nat)
    requires k < |Students(rs)| && i < |rs| && -1 <= SpanGrade(rs[i].grade) <= 12
    requires StudentAtSchool(Students(rs)[k]) == StudentAtSchool(rs[i])
    ensures Dedup.AtLeast(Rank(Students(rs)[k]), (rs[i].window, SpanGrade(rs[i].grade)))
  {
    var sel := InGradeRange(rs);
    var out := Dedup.KeepBest(sel, StudentAtSchool, Rank);
    var r := rs[i].(grade := SpanGrade(rs[i].grade));
    var j :| 0 <= j < |sel| && sel[j] == r;
    assert StudentAtSchool(out[k]) == StudentAtSchool(sel[j]);
  }

  /** Whether a grade counts toward the k-8 or the 9-12 enrolment. */
  predicate InK8(g: int) { -1 <= g <= 8 }
  predicate InHs(g: int) { 9 <= g <= 12 }

  /** Students of `school` in a model's grades who are counted: FAY above 0
      when FAY students only are counted, FAY 0 or above otherwise. */
  function EnrolledCount(out: seq<Enrollment>, school: int, k8: bool, fayOnly: bool): (n: nat)
    ensures n <= |out|
  {
    if |out| == 0 then 0
    else
      var r := out[0];
      var counted := r.school == school && (if k8 then InK8(r.grade) else InHs(r.grade))
                     && (if fayOnly then r.fay > 0 else r.fay >= 0);
      (if counted then 1 else 0) + EnrolledCount(out[1..], school, k8, fayOnly)
  }

  /** A student is counted in at most one of the two models. */
  lemma {:induction false} CountsWithinSchool(out: seq<Enrollment>, school: int, fayOnly: bool)
    ensures EnrolledCount(out, school, true, fayOnly) + EnrolledCount(out, school, false, fayOnly) <= |GradesAt(out, school)|
  {
    if |out| > 0 {
      CountsWithinSchool(out[1..], school, fayOnly);
    }
  }

  // ---------------------------------------------------------------- grade span

  /** The grades of the students of `school`. */
  function GradesAt(out: seq<Enrollment>, school: int): (gs: seq<int>)
    ensures |gs| <= |out|
    ensures forall i :: 0 <= i < |out| && out[i].school == school ==> out[i].grade in gs
    ensures forall j :: 0 <= j < |gs| ==> exists i :: 0 <= i < |out| && out[i].school == school && out[i].grade == gs[j]
  {
    if |out| == 0 then []
    else
      var rest := GradesAt(out[1..], school);
      assert forall i :: 1 <= i < |out| ==> out[i] == out[1..][i - 1];
      if out[0].school == school then [out[0].grade] + rest else rest
  }

  /** Number of students in grade `g`. */
  function Occurrences(gs: seq<int>, g: int): (c: nat)
    ensures c <= |gs|
    ensures c > 0 <==> g in gs
  {
    if |gs| == 0 then 0
    else (if gs[0] == g then 1 else 0) + Occurrences(gs[1..], g)
  }

  /** A grade holding at least 2% of the school's students, that is, at
      least one student in fifty. */
  predicate Qualifies(gs: seq<int>, g: int) {
    |gs| > 0 && Occurrences(gs, g) * 50 >= |gs|
  }

  /** The share test stated as the percentage of students in the grade. */
  lemma QualifiesIsTwoPercent(gs: seq<int>, g: int)
    requires |gs| > 0
    ensures Qualifies(gs, g) <==> Occurrences(gs, g) as real * 100.0 / |gs| as real >= 2.0
  {
    var n := Occurrences(gs, g);
    Numeric.PercentAtLeast(n as real, |gs| as real, 2.0);
    assert (n * 50) as real == n as real * 50.0;
  }

  /** The lowest grade among `cands` that holds 2% of the students. */
  function MinQualifying(cands: seq<int>, gs: seq<int>): (r: Option<int>)
    ensures r.None? <==> forall i :: 0 <= i < |cands| ==> !Qualifies(gs, cands[i])
    ensures r.Some? ==> r.value in cands && Qualifies(gs, r.value)
    ensures r.Some? ==> forall i :: 0 <= i < |cands| && Qualifies(gs, cands[i]) ==> r.value <= cands[i]
  {
    if |cands| == 0 then None
    else
      var rest := MinQualifying(cands[1..], gs);
      assert forall i :: 1 <= i < |cands| ==> cands[i] == cands[1..][i - 1];
      if !Qualifies(gs, cands[0]) then rest
      else if rest.Some? && rest.value < cands[0] then rest
      else Some(cands[0])
  }

  /** The highest grade among `cands` that holds 2% of the students. */
  function MaxQualifying(cands: seq<int>, gs: seq<int>): (r: Option<int>)
    ensures r.None? <==> forall i :: 0 <= i < |cands| ==> !Qualifies(gs, cands[i])
    ensures r.Some? ==> r.value in cands && Qualifies(gs, r.value)
    ensures r.Some? ==> forall i :: 0 <= i < |cands| && Qualifies(gs, cands[i]) ==> cands[i] <= r.value
  {
    if |cands| == 0 then None
    else
      var rest := MaxQualifying(cands[1..], gs);
      assert forall i :: 1 <= i < |cands| ==> cands[i] == cands[1..][i - 1];
      if !Qualifies(gs, cands[0]) then rest
      else if rest.Some? && rest.value > cands[0] then rest
      else Some(cands[0])
  }

  /** A school's MinGrade and MaxGrade: the lowest and highest grade among
      those holding at least 2% of its students. */
  function GradeSpan(out: seq<Enrollment>, school: int): (span: (Option<int>, Option<int>))
    ensures span.0.None? <==> span.1.None?
    ensures span.0.Some? ==> span.0.value <= span.1.value
    ensures span.0.Some? ==> Qualifies(GradesAt(out, school), span.0.value) && Qualifies(GradesAt(out, school), span.1.value)
    ensures forall g :: Qualifies(GradesAt(out, school), g) ==> span.0.Some? && span.0.value <= g <= span.1.value
  {
    var gs := GradesAt(out, school);
    var lo := MinQualifying(gs, gs);
    var hi := MaxQualifying(gs, gs);
    forall g | Qualifies(gs, g) ensures lo.Some? && lo.value <= g && hi.Some? && g <= hi.value {
      var i :| 0 <= i < |gs| && gs[i] == g;
    }
    (lo, hi)
  }

  /** Occurrences of the grades `lo` .. `lo + n - 1`. */
  function OccurrencesFrom(gs: seq<int>, lo: int, n: nat): nat {
    if n == 0 then 0 else Occurrences(gs, lo + n - 1) + OccurrencesFrom(gs, lo, n - 1)
  }

  /** A value counted once over a range of grades that contains it. */
  lemma {:induction false} IndicatorSum(x: int, lo: int, n: nat)
    ensures OccurrencesFrom([x], lo, n) == if lo <= x < lo + n then 1 else 0
  {
    if n > 0 {
      IndicatorSum(x, lo, n - 1);
      assert Occurrences([x], lo + n - 1) == if x == lo + n - 1 then 1 else 0 by {
        assert [x][1..] == [];
      }
    }
  }

  lemma {:induction false} OccurrencesFromSplit(a: int, rest: seq<int>, lo: int, n: nat)
    ensures OccurrencesFrom([a] + rest, lo, n) == OccurrencesFrom([a], lo, n) + OccurrencesFrom(rest, lo, n)
  {
    if n > 0 {
      OccurrencesFromSplit(a, rest, lo, n - 1);
      assert ([a] + rest)[1..] == rest;
      assert [a][1..] == [];
    }
  }

  /** Grades from `lo` to `lo + n - 1` account for every student whose grade
      lies there. */
  lemma {:induction false} OccurrencesCover(gs: seq<int>, lo: int, n: nat)
    requires forall i :: 0 <= i < |gs| ==> lo <= gs[i] < lo + n
    ensures OccurrencesFrom(gs, lo, n) == |gs|
  {
    if |gs| > 0 {
      assert forall i :: 0 <= i < |gs[1..]| ==> gs[1..][i] == gs[i + 1];
      OccurrencesCover(gs[1..], lo, n);
      assert gs == [gs[0]] + gs[1..];
      OccurrencesFromSplit(gs[0], gs[1..], lo, n);
      IndicatorSum(gs[0], lo, n);
    } else {
      OccurrencesFromEmpty(lo, n);
    }
  }

  lemma {:induction false} OccurrencesFromEmpty(lo: int, n: nat)
    ensures OccurrencesFrom([], lo, n) == 0
  {
    if n > 0 {
      OccurrencesFromEmpty(lo, n - 1);
    }
  }

  /** When no grade of the range holds one student in fifty, fifty times
      the range's students is at most `n * (|gs| - 1)`. */
  lemma {:induction false} OccurrencesFromBound(gs: seq<int>, lo: int, n: nat)
    requires forall g :: lo <= g < lo + n ==> Occurrences(gs, g) * 50 < |gs|
    ensures OccurrencesFrom(gs, lo, n) * 50 <= n * (|gs| - 1)
  {
    if n > 0 {
      OccurrencesFromBound(gs, lo, n - 1);
      assert n * (|gs| - 1) == (n - 1) * (|gs| - 1) + (|gs| - 1);
    }
  }

  /** A school with any student in the grade range has a grade span: with
      at most fourteen grades, the most common one holds over 2%. */
  lemma SomeGradeQualifies(out: seq<Enrollment>, school: int)
    requires forall i :: 0 <= i < |out| ==> -1 <= out[i].grade <= 12
    requires exists i :: 0 <= i < |out| && out[i].school == school
    ensures GradeSpan(out, school).0.Some?
  {
    var gs := GradesAt(out, school);
    var i :| 0 <= i < |out| && out[i].school == school;
    assert out[i].grade in gs;
    assert forall j :: 0 <= j < |gs| ==> -1 <= gs[j] < 13 by {
      forall j | 0 <= j < |gs| ensures -1 <= gs[j] < 13 {
        var k :| 0 <= k < |out| && out[k].school == school && out[k].grade == gs[j];
      }
    }
    OccurrencesCover(gs, -1, 14);
    if forall g :: -1 <= g < 13 ==> Occurrences(gs, g) * 50 < |gs| {
      OccurrencesFromBound(gs, -1, 14);
      assert false;
    }
    var g :| -1 <= g < 13 && Occurrences(gs, g) * 50 >= |gs|;
    assert Occurrences(gs, g) as real * 100.0 >= 2.0 * |gs| as real;
    assert Qualifies(gs, g);
  }
}
