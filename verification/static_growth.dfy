/** The growth file built for the static file: student growth percentiles
    banded into low, average and high growth, achievement levels coded 1 to
    4, enrolment stability coded, and one assessment kept per student,
    subject and assessed grade. */
module StaticGrowth {
  import opened Wrappers
  import Dedup
  import StateConfig

  // ---------------------------------------------------------------- SGP bands

  /** `sgp_categories`: a growth percentile strictly between 0 and 34 is low
      growth (0), from 34 below 67 average (1), from 67 to 100 high (2); 0,
      a value outside 0..100 or a missing one has no category. */
  function SgpCategory(sgp: Option<real>): (c: Option<int>)
    ensures c.None? <==> sgp.None? || sgp.value <= 0.0 || sgp.value > 100.0
    ensures c.Some? ==> 0 <= c.value <= 2
  {
    if sgp.None? then None
    else
      var x := sgp.value;
      if 0.0 < x < 34.0 then Some(0)
      else if 34.0 <= x < 67.0 then Some(1)
      else if 67.0 <= x <= 100.0 then Some(2)
      else None
  }

  /** A higher percentile never falls in a lower category. */
  lemma SgpCategoryMonotone(x: real, y: real)
    requires x <= y && SgpCategory(Some(x)).Some? && SgpCategory(Some(y)).Some?
    ensures SgpCategory(Some(x)).value <= SgpCategory(Some(y)).value
  {
  }

  /** Each category is the interval of percentiles it covers, so the three
      intervals split (0, 100] with no gap and no overlap. */
  lemma SgpCategoryIntervals(x: real)
    ensures SgpCategory(Some(x)) == Some(0) <==> 0.0 < x < 34.0
    ensures SgpCategory(Some(x)) == Some(1) <==> 34.0 <= x < 67.0
    ensures SgpCategory(Some(x)) == Some(2) <==> 67.0 <= x <= 100.0
  {
  }

  /** Every category has a growth weight for every prior level, and only
      the low-growth category weighs 0. */
  lemma CategoriesHaveWeights(sgp: real, prior: int)
    requires SgpCategory(Some(sgp)).Some? && 1 <= prior <= 4
    ensures StateConfig.GrowthBandWeight(prior, SgpCategory(Some(sgp)).value) == 0.0 <==> sgp < 34.0
  {
  }

  // ---------------------------------------------------------------- achievement levels

  /** The achievement-level map: the four level names to 1..4, any other
      text to none. */
  function AchievementLevel(name: string): (l: Option<int>)
    ensures l.Some? ==> 1 <= l.value <= 4
  {
    if name == "Minimally Proficient" then Some(1)
    else if name == "Partially Proficient" then Some(2)
    else if name == "Proficient" then Some(3)
    else if name == "Highly Proficient" then Some(4)
    else None
  }

  /** The name of level 1..4. */
  function LevelName(level: int): string
    requires 1 <= level <= 4
  {
    if level == 1 then "Minimally Proficient"
    else if level == 2 then "Partially Proficient"
    else if level == 3 then "Proficient"
    else "Highly Proficient"
  }

  /** The map is one-to-one: each level's name maps back to the level, and
      each name that maps to a level is that level's name. */
  lemma AchievementLevelRoundTrip(level: int, name: string)
    requires 1 <= level <= 4
    ensures AchievementLevel(LevelName(level)) == Some(level)
    ensures AchievementLevel(name).Some? ==> LevelName(AchievementLevel(name).value) == name
  {
  }

  // ---------------------------------------------------------------- enrolment codes

  /** `code_fay`: a stability value of 1 or more becomes 1, any other value
      (and a missing one) is kept. */
  function CodeFay(x: Option<int>): (c: Option<int>)
    ensures c.None? <==> x.None?
    ensures c.Some? ==> c.value <= 1 && (c.value == 1 <==> x.value >= 1)
    ensures c.Some? && c.value < 1 ==> c == x
  {
    if x.Some? && x.value >= 1 then Some(1) else x
  }

  /** Coding twice changes nothing. */
  lemma CodeFayIdempotent(x: Option<int>)
    ensures CodeFay(CodeFay(x)) == CodeFay(x)
  {
  }

  /** `ELL_STATUS`: 1 for a raw value of 1 or more, 0 otherwise (a missing
      value too). */
  function EllStatus(x: Option<real>): (e: int)
    ensures e == 0 || e == 1
    ensures e == 1 <==> x.Some? && x.value >= 1.0
  {
    if x.Some? && x.value >= 1.0 then 1 else 0
  }

  // ---------------------------------------------------------------- highest score

  /** An assessment: the student, subject, grade assessed, grade enrolled and
      scale score (missing scores sort last). */
  datatype Assessment = Assessment(student: int, subject: string, assessedGrade: int, grade: int, scaleScore: Option<int>)

  function TestKey(a: Assessment): (int, string, int) {
    (a.student, a.subject, a.assessedGrade)
  }

  /** Sort key of the de-duplication: enrolled grade, then scale score, a
      missing score ranking below any score. */
  function ScoreRank(a: Assessment): (int, int) {
    (a.grade, match a.scaleScore case Some(s) => s case None => -1)
  }

  /** One assessment per student, subject and assessed grade: of the
      test's records at the top rank, the first, as the stable sort and
      `duplicated` keep it. */
  function HighestScores(rs: seq<Assessment>): (out: seq<Assessment>)
    ensures forall i, j :: 0 <= i < j < |out| ==> TestKey(out[i]) != TestKey(out[j])
    ensures forall i :: 0 <= i < |out| ==> out[i] in rs
    ensures forall i :: 0 <= i < |out| ==> Dedup.FirstIn(rs, _ => true, out[i], TestKey, ScoreRank)
  {
    Dedup.KeepBest(rs, TestKey, ScoreRank)
  }

  /** Every test a student took keeps a record. */
  lemma HighestScoresComplete(rs: seq<Assessment>, i: nat)
    requires i < |rs|
    ensures exists k :: 0 <= k < |HighestScores(rs)| && TestKey(HighestScores(rs)[k]) == TestKey(rs[i])
  {
    var out := HighestScores(rs);
    assert Dedup.HasKey(rs, TestKey, TestKey(rs[i]));
    assert Dedup.HasKey(out, TestKey, TestKey(rs[i]));
    var k :| 0 <= k < |out| && TestKey(out[k]) == TestKey(rs[i]);
  }

  /** The record kept for a test ranks at least as high as each record of
      that test: the higher enrolled grade, then the higher scale score;
      for records of one enrolled grade, the kept score is the highest. */
  lemma HighestScoresBest(rs: seq<Assessment>, k: nat, i: nat)
    requires k < |HighestScores(rs)| && i < |rs| && TestKey(HighestScores(rs)[k]) == TestKey(rs[i])
    ensures Dedup.AtLeast(ScoreRank(HighestScores(rs)[k]), ScoreRank(rs[i]))
    ensures HighestScores(rs)[k].grade >= rs[i].grade
    ensures HighestScores(rs)[k].grade == rs[i].grade && rs[i].scaleScore.Some? && rs[i].scaleScore.value >= 0 ==>
              HighestScores(rs)[k].scaleScore.Some? && HighestScores(rs)[k].scaleScore.value >= rs[i].scaleScore.value
  {
  }
}
