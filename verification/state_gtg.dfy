/** The state Alt 9-12 Growth to Graduation indicator: Academic
    Persistence points from the persistence rate, and Credits Earned and On
    Track to Graduate points from self-reported results, each capped at 10,
    with separate rules for eligible, ineligible and non-reporting schools. */
module StateGtg {
  import opened Wrappers
  import opened Nullable
  import Numeric
  import Columns
  import StateConfig
  import LateSubmissions

  /** Columns the indicator reads from the static file. */
  const NecessaryColumns: seq<string> := ["FiscalYear", "SchoolCode", "Alternative"]

  /** The maximum points of each of the three parts. */
  const MaxPoints: real := 10.0

  function CheckFrame(present: set<string>): (r: Result<(), seq<string>>)
    ensures r.Success? <==> "FiscalYear" in present && "SchoolCode" in present && "Alternative" in present
    ensures r.Failure? ==> |r.error| > 0 && forall c :: c in r.error <==> c in NecessaryColumns && c !in present
  {
    Columns.CheckColumns(NecessaryColumns, present)
  }

  /** Each part's maximum is the Alt 9-12 weight of that part. */
  lemma MaxPointsAreWeights()
    ensures StateConfig.Weight(StateConfig.AltHS, StateConfig.AcademicPersistence) == Some(MaxPoints)
    ensures StateConfig.Weight(StateConfig.AltHS, StateConfig.CreditsEarned) == Some(MaxPoints)
    ensures StateConfig.Weight(StateConfig.AltHS, StateConfig.OnTrackToGraduate) == Some(MaxPoints)
  {
  }

  /** `np.minimum(10, x)`: a null stays null. */
  function Limit(x: Option<real>): (r: Option<real>)
    ensures r.Some? <==> x.Some?
    ensures r.Some? ==> r.value <= MaxPoints && (r.value == x.value || r.value == MaxPoints)
  {
    if x.Some? && x.value > MaxPoints then Some(MaxPoints) else x
  }

  /** Academic persistence: the rate as a percent, a tenth of it as points,
      at most 10; every alternative school has all 100% available. */
  datatype Persistence = Persistence(pctEarned: Option<real>, pctAvailable: real, points: Option<real>)

  function PersistencePoints(rate: Option<real>): (p: Persistence)
    ensures p.pctAvailable == 100.0
    ensures p.points.Some? <==> rate.Some?
    ensures p.points.Some? ==> p.points.value <= MaxPoints
    ensures p.points.Some? ==> (p.points.value == MaxPoints <==> rate.value >= 1.0)
  {
    var pct := if rate.Some? then Some(rate.value * 100.0) else None;
    Persistence(pct, 100.0, Limit(if pct.Some? then Some(pct.value / 10.0) else None))
  }

  /** A full persistence rate earns the full 10 points, and the points
      never fall as the rate rises. */
  lemma PersistenceMonotone(a: real, b: real)
    requires a <= b
    ensures PersistencePoints(Some(a)).points.value <= PersistencePoints(Some(b)).points.value
    ensures PersistencePoints(Some(1.0)).points == Some(10.0)
  {
  }

  /** One self-reported Credits Earned or On Track to Graduate row. A
      missing eligibility means the school did not report. */
  datatype SelfReport = SelfReport(school: int, den: nat, num: nat, points: Option<real>, eligible: Option<bool>)

  function School(r: SelfReport): int { r.school }

  /** A reported part of a school. */
  datatype PartResult = PartResult(points: Option<real>, pctEarned: Option<real>, pctAvailable: Option<real>)

  /** A self-reported part: points capped at 10; an eligible school gets
      its percent earned (none for an empty denominator) and 100%
      available; an ineligible school keeps its points but has no
      percents; a school that did not report gets 0 points and 100%
      available. */
  function ReportPoints(r: SelfReport): (p: PartResult)
    ensures p.points.Some? ==> p.points.value <= MaxPoints
    ensures r.eligible.None? ==> p.points == Some(0.0) && p.pctAvailable == Some(100.0) && p.pctEarned.None?
    ensures r.eligible.Some? ==> p.points == Limit(r.points)
    ensures p.pctEarned.Some? <==> r.eligible == Some(true) && r.den > 0
    ensures p.pctEarned.Some? ==> p.pctEarned.value * r.den as real == r.num as real * 100.0
    ensures r.eligible == Some(false) ==> p.pctEarned.None? && p.pctAvailable.None?
  {
    var capped := Limit(r.points);
    match r.eligible
    case Some(true) =>
      PartResult(capped, if r.den > 0 then Some(r.num as real / r.den as real * 100.0) else None, Some(100.0))
    case Some(false) => PartResult(capped, None, None)
    case None => PartResult(Some(0.0), None, Some(100.0))
  }

  /** Eligibility decides the percents, not the points: an ineligible
      school earns the points it would have earned as an eligible one. */
  lemma IneligibleKeepsPoints(r: SelfReport)
    ensures ReportPoints(r.(eligible := Some(false))).points == ReportPoints(r.(eligible := Some(true))).points
  {
  }

  /** A school that did not report scores 0, while one reporting no points
      keeps a null: not reporting is a measured zero. */
  lemma NotReportedIsZero(r: SelfReport)
    requires r.points.None?
    ensures ReportPoints(r.(eligible := None)).points == Some(0.0)
    ensures ReportPoints(r.(eligible := Some(true))).points.None?
  {
  }

  /** A late row as read by the late-submission step, which reads its
      eligibility by `LateSubmissions.ReadEligibility`: a late row reported
      eligible scores as it would have, and any other scores as an
      ineligible school. */
  function AsLate(r: SelfReport): (l: SelfReport)
    ensures l.eligible.Some? && l.(eligible := r.eligible) == r
    ensures ReportPoints(l) == if r.eligible == Some(true) then ReportPoints(r) else PartResult(Limit(r.points), None, None)
  {
    r.(eligible := LateSubmissions.ReadEligibility(r.eligible))
  }

  /** After the late submissions (On Track to Graduate and Credits Earned
      alike), every row of a school that submitted late carries a reported
      eligibility, so none of them is scored as a school that did not
      report. */
  lemma LateSchoolsReported(original: seq<SelfReport>, late: seq<SelfReport>)
    ensures forall i :: 0 <= i < |LateSubmissions.ReplaceRead(original, late, School, AsLate)| &&
              LateSubmissions.ReplaceRead(original, late, School, AsLate)[i].school in LateSubmissions.Ids(late, School)
              ==> LateSubmissions.ReplaceRead(original, late, School, AsLate)[i].eligible.Some?
  {
    var rows := LateSubmissions.ReplaceRead(original, late, School, AsLate);
    forall i | 0 <= i < |rows| && rows[i].school in LateSubmissions.Ids(late, School)
      ensures rows[i].eligible.Some?
    {
      assert i >= |rows| - |late|;
      assert rows[i] == AsLate(late[i - (|rows| - |late|)]);
    }
  }

  /** A late row without an eligibility is scored as an ineligible school:
      its points capped, no percents, and not the 0 points of a school that
      did not report. */
  lemma LateWithoutEligibilityIneligible(r: SelfReport)
    requires r.eligible.None?
    ensures ReportPoints(AsLate(r)) == PartResult(Limit(r.points), None, None)
    ensures ReportPoints(r).points == Some(0.0)
  {
  }
}
