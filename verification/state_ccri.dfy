/** The state College and Career Readiness (CCRI) indicator: self-reported
    points of 9-12 and Alt 9-12 schools for the current fiscal year, with
    the null-versus-zero rules for ineligible and non-submitting schools and
    a cap at the model's CCR weight. */
module StateCcri {
  import opened Wrappers
  import opened Nullable
  import StateConfig
  import LateSubmissions

  /** One self-reported row: a missing eligibility means the school did not
      submit. */
  datatype CcriRow = CcriRow(school: int, fiscalYear: int, eligible: Option<bool>,
                             points: Option<real>, bonus: Option<real>)

  /** A school's CCRI result. */
  datatype CcriResult = CcriResult(school: int, alternative: bool, eligible: bool,
                                   points: Option<real>, bonus: Option<real>)

  function School(r: CcriRow): int { r.school }

  /** The cap on CCR points: the CCR weight of the school's model (20 for
      9-12, 35 for Alt 9-12). */
  function Cap(alternative: bool): (c: real)
    ensures c == (if alternative then 35.0 else 20.0)
  {
    StateConfig.WeightOrZero(if alternative then StateConfig.AltHS else StateConfig.HS, StateConfig.CollegeAndCareerReady)
  }

  /** A row scored: none for another fiscal year; a missing eligibility
      counts as eligible; an ineligible school has no points and no bonus;
      an eligible school without points gets 0; points are capped; only
      traditional schools carry a bonus. */
  function Score(r: CcriRow, alternative: bool, fiscalYear: int): (res: Option<CcriResult>)
    ensures res.Some? <==> r.fiscalYear == fiscalYear
    ensures res.Some? ==> res.value.school == r.school && res.value.eligible == r.eligible.GetOr(true)
    ensures res.Some? ==> (res.value.points.None? <==> !res.value.eligible)
    ensures res.Some? && res.value.points.Some? ==> res.value.points.value <= Cap(alternative)
    ensures res.Some? && res.value.eligible && r.points.None? ==> res.value.points == Some(0.0)
    ensures res.Some? && (alternative || !res.value.eligible) ==> res.value.bonus.None?
    ensures res.Some? && res.value.eligible && !alternative ==> res.value.bonus == r.bonus
  {
    if r.fiscalYear != fiscalYear then None
    else
      var eligible := r.eligible.GetOr(true);
      var points := if !eligible then None else if r.points.None? then Some(0.0) else r.points;
      var bonus := if alternative || !eligible then None else r.bonus;
      Some(CcriResult(r.school, alternative, eligible, CapAt(points, Cap(alternative)), bonus))
  }

  /** A school that did not report its eligibility is scored exactly as an
      eligible one. */
  lemma MissingEligibilityIsEligible(r: CcriRow, alternative: bool, fiscalYear: int)
    requires r.eligible.None?
    ensures Score(r, alternative, fiscalYear) == Score(r.(eligible := Some(true)), alternative, fiscalYear)
  {
  }

  /** The reported points are kept below the cap and replaced by the cap
      above it; a submitted 0 and a missing submission score alike. */
  lemma ScoredPoints(r: CcriRow, alternative: bool, fiscalYear: int)
    requires r.fiscalYear == fiscalYear && r.eligible.GetOr(true)
    ensures r.points.Some? && r.points.value <= Cap(alternative) ==> Score(r, alternative, fiscalYear).value.points == r.points
    ensures r.points.Some? && r.points.value > Cap(alternative) ==> Score(r, alternative, fiscalYear).value.points == Some(Cap(alternative))
    ensures Score(r.(points := None), alternative, fiscalYear).value.points == Score(r.(points := Some(0.0)), alternative, fiscalYear).value.points
  {
  }

  /** A late row as read by the late-submission step: its eligibility
      read by `LateSubmissions.ReadEligibility`, everything else as reported. */
  function AsLate(r: CcriRow): (l: CcriRow)
    ensures l.eligible == LateSubmissions.ReadEligibility(r.eligible)
    ensures l.(eligible := r.eligible) == r
  {
    r.(eligible := LateSubmissions.ReadEligibility(r.eligible))
  }

  /** A late submission without an eligibility is scored as ineligible:
      no points and no bonus, where an original row without one would be
      scored as eligible. */
  lemma LateMissingEligibilityIsIneligible(r: CcriRow, alternative: bool, fiscalYear: int)
    requires r.eligible.None? && r.fiscalYear == fiscalYear
    ensures Score(AsLate(r), alternative, fiscalYear).value.eligible == false
    ensures Score(AsLate(r), alternative, fiscalYear).value.points.None?
    ensures Score(AsLate(r), alternative, fiscalYear).value.bonus.None?
    ensures Score(r, alternative, fiscalYear).value.eligible
  {
  }
}
