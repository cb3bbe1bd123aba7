/** Configuration of the state A-F letter-grade model: the N-count, the three
    grade models and their component weights, the graduation-rate and
    proficiency-level weights, the growth band weights, the stability weights,
    and the re-assignment of high-school grades from the graduation cohort. */
module StateConfig {
  import opened Wrappers

  /** Default minimum number of students for a state result to be reported. */
  const NCount: nat := 10

  /** Expected percentage of enrolled students tested. */
  const PercentTestedExpected: real := 95.0

  /** The state grade models "k-8", "9-12" and "Alt 9-12". */
  datatype StateModel = K8 | HS | AltHS

  datatype Component =
    | Growth | ElProficiencyAndGrowth | AccelerationReadiness | Proficiency
    | GraduationRate | GradRateImprovement | CollegeAndCareerReady
    | Sgpi | Sggri | Sgdri | AcademicPersistence | CreditsEarned | OnTrackToGraduate

  /** A model's weight for a component; none when the model does not score it. */
  function Weight(m: StateModel, c: Component): Option<real> {
    match m
    case K8 =>
      (match c
       case Growth => Some(50.0)
       case ElProficiencyAndGrowth => Some(10.0)
       case AccelerationReadiness => Some(10.0)
       case Proficiency => Some(30.0)
       case _ => None)
    case HS =>
      (match c
       case ElProficiencyAndGrowth => Some(10.0)
       case GraduationRate => Some(10.0)
       case GradRateImprovement => Some(10.0)
       case CollegeAndCareerReady => Some(20.0)
       case Proficiency => Some(30.0)
       case Sgpi => Some(10.0)
       case Sggri => Some(5.0)
       case Sgdri => Some(5.0)
       case _ => None)
    case AltHS =>
      (match c
       case Proficiency => Some(15.0)
       case ElProficiencyAndGrowth => Some(10.0)
       case CollegeAndCareerReady => Some(35.0)
       case GraduationRate => Some(10.0)
       case AcademicPersistence => Some(10.0)
       case CreditsEarned => Some(10.0)
       case OnTrackToGraduate => Some(10.0)
       case _ => None)
  }

  /** A model's weight for a component, 0 when it does not score it. */
  function WeightOrZero(m: StateModel, c: Component): real {
    Weight(m, c).GetOr(0.0)
  }

  /** Sum of a model's weights over all thirteen components. */
  function TotalWeight(m: StateModel): real {
    WeightOrZero(m, Growth) + WeightOrZero(m, ElProficiencyAndGrowth)
    + WeightOrZero(m, AccelerationReadiness) + WeightOrZero(m, Proficiency)
    + WeightOrZero(m, GraduationRate) + WeightOrZero(m, GradRateImprovement)
    + WeightOrZero(m, CollegeAndCareerReady) + WeightOrZero(m, Sgpi)
    + WeightOrZero(m, Sggri) + WeightOrZero(m, Sgdri)
    + WeightOrZero(m, AcademicPersistence) + WeightOrZero(m, CreditsEarned)
    + WeightOrZero(m, OnTrackToGraduate)
  }

  /** Each state model's component weights add up to 100 points. */
  lemma WeightsSumTo100(m: StateModel)
    ensures TotalWeight(m) == 100.0
  {
  }

  /** Traditional graduation-rate weights by rate type (4-, 5-, 6- and 7-year). */
  function TradGradRateWeight(rateType: int): (w: Option<real>)
    ensures w.Some? <==> 4 <= rateType <= 7
  {
    if rateType == 4 then Some(5.0)
    else if rateType == 5 then Some(4.0)
    else if rateType == 6 then Some(2.5)
    else if rateType == 7 then Some(0.5)
    else None
  }

  /** The four rate-type weights add up to 12, above the 10-point
      Graduation Rate weight they are capped at. */
  lemma TradGradRateWeightsSum()
    ensures TradGradRateWeight(4).value + TradGradRateWeight(5).value
          + TradGradRateWeight(6).value + TradGradRateWeight(7).value == 12.0
    ensures 12.0 > Weight(HS, GraduationRate).value
  {
  }

  /** Weight of a performance level (1 minimally, 2 partially, 3 proficient,
      4 highly proficient) in the weighted percent proficient. */
  function ProficiencyWeight(level: int): (w: real)
    requires 1 <= level <= 4
    ensures 0.0 <= w <= 1.3
    ensures level == 3 ==> w == 1.0
  {
    if level == 1 then 0.0
    else if level == 2 then 0.6
    else if level == 3 then 1.0
    else 1.3
  }

  /** Stability weight of FAY level `fay` when a school has `levels` FAY levels. */
  function StabilityWeight(levels: int, fay: int): real {
    if levels == 1 then (if fay == 1 then 30.0 else 0.0)
    else if levels == 2 then (if fay == 1 then 12.0 else if fay == 2 then 18.0 else 0.0)
    else if levels == 3 then (if fay == 1 then 5.0 else if fay == 2 then 10.0 else if fay == 3 then 15.0 else 0.0)
    else 0.0
  }

  /** For one, two or three FAY levels the stability weights of the present
      levels add up to 30, the k-8 Proficiency weight. */
  lemma StabilityWeightsSum(levels: int)
    requires 1 <= levels <= 3
    ensures StabilityWeight(levels, 1) + StabilityWeight(levels, 2) + StabilityWeight(levels, 3) == 30.0
    ensures Weight(K8, Proficiency) == Some(30.0)
  {
  }

  /** Growth band weight for a prior-year performance level (1..4) and a
      current-year growth category (0 low, 1 average, 2 high). */
  function GrowthBandWeight(prior: int, category: int): (w: real)
    requires 1 <= prior <= 4 && 0 <= category <= 2
    ensures 0.0 <= w <= 2.0
    ensures category == 0 <==> w == 0.0
    ensures category == 1 ==> w == 1.0
  {
    if category == 0 then 0.0
    else if category == 1 then 1.0
    else if prior == 1 then 2.0
    else if prior == 2 then 1.8
    else if prior == 3 then 1.2
    else 1.0
  }

  /** Grades of the EL and SPED-enrollment models; -1 is kindergarten. */
  function ModelGrades(m: StateModel): set<int> {
    match m
    case K8 => {-1, 1, 2, 3, 4, 5, 6, 7, 8}
    case _ => {9, 10, 11, 12}
  }

  /** Cohort of this year's graduation rate, and of this year's ACT takers. */
  function CyGradCohort(fiscalYear: int): int { fiscalYear - 1 }
  function CyActCohort(fiscalYear: int): int { fiscalYear + 1 }

  /** The fields of a static-file record that grade correction reads. */
  datatype GradeRecord = GradeRecord(grade: int, cohort: Option<int>)

  /** Pass `i` (0..3) of `correct_high_school_grades`: grade `9 + i` first
      becomes 111, then every grade 9 or above whose cohort is
      `fiscalYear + 3 - i` becomes `9 + i`. */
  function CorrectPass(r: GradeRecord, fiscalYear: int, i: int): GradeRecord {
    var g := if r.grade == 9 + i then 111 else r.grade;
    var g' := if r.cohort == Some(fiscalYear + 3 - i) && g >= 9 then 9 + i else g;
    GradeRecord(g', r.cohort)
  }

  /** The four passes in order. */
  function CorrectGrade(r: GradeRecord, fiscalYear: int): GradeRecord {
    CorrectPass(CorrectPass(CorrectPass(CorrectPass(r, fiscalYear, 0), fiscalYear, 1), fiscalYear, 2), fiscalYear, 3)
  }

  /** What grade correction is meant to do, stated directly: grades below 9
      are kept; a high-school record whose cohort graduates in one of the next
      four years gets the grade that cohort is in; grades 9 to 12 of any other
      cohort (or none) become 111; other grades are kept. */
  function IntendedGrade(r: GradeRecord, fiscalYear: int): int {
    if r.grade < 9 then r.grade
    else if r.cohort.Some? && fiscalYear <= r.cohort.value <= fiscalYear + 3 then
      9 + (fiscalYear + 3 - r.cohort.value)
    else if r.grade <= 12 then 111
    else r.grade
  }

  /** The four passes compute exactly the intended grade and keep the cohort. */
  lemma CorrectGradeIsIntended(r: GradeRecord, fiscalYear: int)
    ensures CorrectGrade(r, fiscalYear).grade == IntendedGrade(r, fiscalYear)
    ensures CorrectGrade(r, fiscalYear).cohort == r.cohort
  {
    var r0 := CorrectPass(r, fiscalYear, 0);
    var r1 := CorrectPass(r0, fiscalYear, 1);
    var r2 := CorrectPass(r1, fiscalYear, 2);
    var r3 := CorrectPass(r2, fiscalYear, 3);
    if r.grade < 9 {
      assert r0.grade == r.grade && r1.grade == r.grade && r2.grade == r.grade;
    } else if r.cohort.Some? && fiscalYear <= r.cohort.value <= fiscalYear + 3 {
      var j := fiscalYear + 3 - r.cohort.value;
      assert r0.grade >= 9 && r1.grade >= 9 && r2.grade >= 9;
    } else {
      assert r0.grade == (if r.grade == 9 then 111 else r.grade);
      assert r1.grade == (if r.grade == 9 || r.grade == 10 then 111 else r.grade);
    }
  }

  /** `correct_high_school_grades` on a whole static file: every record
      corrected, in place and in order, the input left as it was. */
  function CorrectHighSchoolGrades(rs: seq<GradeRecord>, fiscalYear: int): (out: seq<GradeRecord>)
    ensures |out| == |rs|
    ensures forall i :: 0 <= i < |rs| ==> out[i].grade == IntendedGrade(rs[i], fiscalYear)
    ensures forall i :: 0 <= i < |rs| ==> out[i].cohort == rs[i].cohort
    ensures forall i :: 0 <= i < |rs| && rs[i].grade < 9 ==> out[i] == rs[i]
  {
    if |rs| == 0 then []
    else
      CorrectGradeIsIntended(rs[0], fiscalYear);
      [CorrectGrade(rs[0], fiscalYear)] + CorrectHighSchoolGrades(rs[1..], fiscalYear)
  }
}
