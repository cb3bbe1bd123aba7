/** The state A-F composite: a school's points eligible and points earned
    under its grade model, the cut-score letter bands, the "NR" and "P"
    overrides, the enrolment-weighted hybrid of non-typical schools, and the
    district grade averaged from its schools' letters. */
module StateTotals {
  import opened Wrappers
  import opened Nullable
  import Numeric
  import StateConfig
  import SchoolType

  type StateModel = StateConfig.StateModel
  type Component = StateConfig.Component

  function R2(x: real): real { Numeric.RoundTo(x, 2) }

  // ---------------------------------------------------------------- letters and cut scores

  datatype Letter = A | B | C | D | F

  /** A letter's grade points in the district average, A 4 down to F 0. */
  function Gpa(l: Letter): int {
    match l
    case A => 4
    case B => 3
    case C => 2
    case D => 1
    case F => 0
  }

  /** The letter of a whole number of grade points; none outside 0..4. */
  function LetterOfGpa(g: int): (l: Option<Letter>)
    ensures l.Some? <==> 0 <= g <= 4
    ensures l.Some? ==> Gpa(l.value) == g
  {
    if g == 4 then Some(A)
    else if g == 3 then Some(B)
    else if g == 2 then Some(C)
    else if g == 1 then Some(D)
    else if g == 0 then Some(F)
    else None
  }

  /** Mapping a letter to points and back gives the letter. */
  lemma GpaRoundTrip(l: Letter)
    ensures LetterOfGpa(Gpa(l)) == Some(l)
  {
  }

  /** A cut band: the letter of the totals from `lo` to `hi`, both included. */
  datatype Band = Band(letter: Letter, lo: real, hi: real)

  predicate InBand(b: Band, x: real) {
    b.lo <= x <= b.hi
  }

  /** The cut-score tables, A first. */
  function Cuts(m: StateModel): (bs: seq<Band>)
    ensures |bs| == 5
    ensures forall i :: 0 <= i < 5 ==> Gpa(bs[i].letter) == 4 - i
  {
    match m
    case AltHS => [Band(A, 83.0, 130.0), Band(B, 65.0, 82.99), Band(C, 47.0, 64.99), Band(D, 29.0, 46.99), Band(F, 0.0, 28.99)]
    case HS => [Band(A, 82.0, 130.0), Band(B, 65.0, 81.99), Band(C, 48.0, 64.99), Band(D, 31.0, 47.99), Band(F, 0.0, 30.99)]
    case K8 => [Band(A, 84.0, 130.0), Band(B, 72.0, 83.99), Band(C, 60.0, 71.99), Band(D, 47.0, 59.99), Band(F, 0.0, 46.99)]
  }

  /** The points eligible a school needs under a model to get a letter. */
  function Threshold(m: StateModel): real {
    match m
    case K8 => 80.0
    case HS => 50.0
    case AltHS => 60.0
  }

  /** The letter the bands give a total: bands are assigned in order, each
      overwriting the letter where it holds. */
  function BandLetter(bs: seq<Band>, x: real): (l: Option<Letter>)
    ensures l.None? <==> forall i :: 0 <= i < |bs| ==> !InBand(bs[i], x)
    ensures l.Some? ==> exists i :: 0 <= i < |bs| && InBand(bs[i], x) && bs[i].letter == l.value
  {
    if |bs| == 0 then None
    else if InBand(bs[|bs| - 1], x) then Some(bs[|bs| - 1].letter)
    else
      var front := bs[..|bs| - 1];
      assert forall i :: 0 <= i < |front| ==> front[i] == bs[i];
      BandLetter(front, x)
  }

  function LetterFor(m: StateModel, x: real): Option<Letter> {
    BandLetter(Cuts(m), x)
  }

  /** Each band lies wholly above the bands after it. */
  lemma BandsDescending(m: StateModel)
    ensures forall i, j :: 0 <= i < j < 5 ==> Cuts(m)[j].hi < Cuts(m)[i].lo
  {
  }

  /** A total in a band gets that band's letter: the bands never overlap. */
  lemma LetterIsBand(m: StateModel, x: real, i: nat)
    requires i < 5 && InBand(Cuts(m)[i], x)
    ensures LetterFor(m, x) == Some(Cuts(m)[i].letter)
  {
    var bs := Cuts(m);
    BandsDescending(m);
    var j :| 0 <= j < 5 && InBand(bs[j], x) && bs[j].letter == LetterFor(m, x).value;
    assert Gpa(bs[j].letter) == 4 - j && Gpa(bs[i].letter) == 4 - i;
  }

  /** Every total of whole hundredths from 0 to 130 gets a letter. */
  lemma GridTotalGraded(m: StateModel, n: int)
    requires 0 <= n <= 13000
    ensures LetterFor(m, n as real / 100.0).Some?
  {
    var x := n as real / 100.0;
    var bs := Cuts(m);
    assert x * 100.0 == n as real;
    if x >= bs[0].lo {
      assert InBand(bs[0], x);
    } else if x >= bs[1].lo {
      assert n < (bs[0].lo * 100.0).Floor;
      assert InBand(bs[1], x);
    } else if x >= bs[2].lo {
      assert n < (bs[1].lo * 100.0).Floor;
      assert InBand(bs[2], x);
    } else if x >= bs[3].lo {
      assert n < (bs[2].lo * 100.0).Floor;
      assert InBand(bs[3], x);
    } else {
      assert n < (bs[3].lo * 100.0).Floor;
      assert InBand(bs[4], x);
    }
  }

  /** Totals below 0 or above 130 get no letter. */
  lemma OffScaleUngraded(m: StateModel, x: real)
    requires x < 0.0 || x > 130.0
    ensures LetterFor(m, x).None?
  {
  }

  /** A total that is not a whole number of hundredths can fall between two
      bands and get no letter, which the rounding of the total prevents. */
  lemma UnroundedTotalUngraded()
    ensures LetterFor(StateConfig.HS, 81.995).None?
  {
  }

  /** A higher total never gets a lower letter. */
  lemma LetterMonotone(m: StateModel, x: real, y: real)
    requires x <= y && LetterFor(m, x).Some? && LetterFor(m, y).Some?
    ensures Gpa(LetterFor(m, x).value) <= Gpa(LetterFor(m, y).value)
  {
    var bs := Cuts(m);
    BandsDescending(m);
    var i :| 0 <= i < 5 && InBand(bs[i], x) && bs[i].letter == LetterFor(m, x).value;
    var j :| 0 <= j < 5 && InBand(bs[j], y) && bs[j].letter == LetterFor(m, y).value;
    assert Gpa(bs[j].letter) == 4 - j && Gpa(bs[i].letter) == 4 - i;
  }

  // ---------------------------------------------------------------- points eligible and earned

  /** The thirteen state components. */
  const Components: seq<Component> := [
    StateConfig.Growth, StateConfig.ElProficiencyAndGrowth, StateConfig.AccelerationReadiness,
    StateConfig.Proficiency, StateConfig.GraduationRate, StateConfig.GradRateImprovement,
    StateConfig.CollegeAndCareerReady, StateConfig.Sgpi, StateConfig.Sggri, StateConfig.Sgdri,
    StateConfig.AcademicPersistence, StateConfig.CreditsEarned, StateConfig.OnTrackToGraduate]

  lemma ComponentListed(c: Component)
    ensures c in Components
  {
  }

  /** A school's component points; a component without points is absent. */
  type Points = map<Component, real>

  /** A component counts toward a model's totals when the school has points
      for it and the model weighs it. */
  predicate Scored(m: StateModel, pts: Points, c: Component) {
    c in pts && StateConfig.Weight(m, c).Some?
  }

  /** Each scored component's points lie between 0 and its weight. */
  predicate WithinWeights(m: StateModel, pts: Points) {
    forall c :: Scored(m, pts, c) ==> 0.0 <= pts[c] <= StateConfig.Weight(m, c).value
  }

  /** The model's weight where a component is scored, null elsewhere. */
  function WeightColumn(m: StateModel, pts: Points): (ws: seq<Option<real>>)
    ensures |ws| == |Components|
    ensures forall i :: 0 <= i < |ws| ==> (ws[i].Some? <==> Scored(m, pts, Components[i]))
    ensures forall i :: 0 <= i < |ws| && ws[i].Some? ==> ws[i] == StateConfig.Weight(m, Components[i])
  {
    seq(|Components|, i requires 0 <= i < |Components| =>
      if Scored(m, pts, Components[i]) then StateConfig.Weight(m, Components[i]) else None)
  }

  /** The school's points where a component is scored, null elsewhere. */
  function PointColumn(m: StateModel, pts: Points): (ps: seq<Option<real>>)
    ensures |ps| == |Components|
    ensures forall i :: 0 <= i < |ps| ==> (ps[i].Some? <==> Scored(m, pts, Components[i]))
    ensures forall i :: 0 <= i < |ps| && Scored(m, pts, Components[i]) ==> ps[i] == Some(pts[Components[i]])
  {
    seq(|Components|, i requires 0 <= i < |Components| =>
      if Scored(m, pts, Components[i]) then Some(pts[Components[i]]) else None)
  }

  predicate Whole(x: real) {
    x == x.Floor as real
  }

  lemma WeightWhole(m: StateModel, c: Component)
    requires StateConfig.Weight(m, c).Some?
    ensures StateConfig.Weight(m, c).value > 0.0 && Whole(StateConfig.Weight(m, c).value)
  {
  }

  /** Present values that are all positive whole numbers sum to a whole
      number, positive when one is present. */
  lemma {:induction false} SumSkipNullWhole(xs: seq<Option<real>>)
    requires forall i :: 0 <= i < |xs| && xs[i].Some? ==> xs[i].value > 0.0 && Whole(xs[i].value)
    ensures Whole(SumSkipNull(xs)) && SumSkipNull(xs) >= 0.0
    ensures !AllNull(xs) ==> SumSkipNull(xs) > 0.0
  {
    if |xs| > 0 {
      var rest := xs[1..];
      assert forall i :: 0 <= i < |rest| ==> rest[i] == xs[i + 1];
      SumSkipNullWhole(rest);
      WholeSum(xs[0].GetOr(0.0), SumSkipNull(rest));
      if !AllNull(xs) && xs[0].None? {
        var i :| 0 <= i < |xs| && xs[i].Some?;
        assert rest[i - 1].Some?;
      }
    }
  }

  lemma WholeSum(a: real, b: real)
    requires Whole(a) && Whole(b)
    ensures Whole(a + b)
  {
    assert a + b == (a.Floor + b.Floor) as real;
  }

  /** Sums skipping nulls grow with each position. */
  lemma {:induction false} SumSkipNullPointwise(xs: seq<Option<real>>, ys: seq<Option<real>>)
    requires |xs| == |ys|
    requires forall i :: 0 <= i < |xs| ==> xs[i].GetOr(0.0) <= ys[i].GetOr(0.0)
    ensures SumSkipNull(xs) <= SumSkipNull(ys)
  {
    if |xs| > 0 {
      assert forall i :: 0 <= i < |xs[1..]| ==> xs[1..][i] == xs[i + 1] && ys[1..][i] == ys[i + 1];
      SumSkipNullPointwise(xs[1..], ys[1..]);
    }
  }

  /** TotalPointsEligible: the sum of the model's weights over the scored
      components; null when none is scored. */
  function TotalPointsEligible(m: StateModel, pts: Points): (e: Option<real>)
    ensures e.None? <==> forall i :: 0 <= i < |Components| ==> !Scored(m, pts, Components[i])
    ensures e.Some? ==> e.value > 0.0 && Whole(e.value)
  {
    var ws := WeightColumn(m, pts);
    forall i | 0 <= i < |ws| && ws[i].Some? ensures ws[i].value > 0.0 && Whole(ws[i].value) {
      WeightWhole(m, Components[i]);
    }
    SumSkipNullWhole(ws);
    SumMinCount1(ws)
  }

  /** Points eligible are null exactly when no component the model weighs
      has points. */
  lemma EligibleNullIffUnscored(m: StateModel, pts: Points)
    ensures TotalPointsEligible(m, pts).None? <==> forall c :: !Scored(m, pts, c)
  {
    if TotalPointsEligible(m, pts).None? {
      forall c ensures !Scored(m, pts, c) {
        ComponentListed(c);
        var i :| 0 <= i < |Components| && Components[i] == c;
      }
    }
  }

  /** TotalPointSum: the scored components' points added up and rounded to
      2 places; null when none is scored. */
  function TotalPointSum(m: StateModel, pts: Points): (s: Option<real>)
    ensures s.None? <==> TotalPointsEligible(m, pts).None?
  {
    var t := SumMinCount1(PointColumn(m, pts));
    if t.None? then None else Some(R2(t.value))
  }

  /** PercentageEarned: the point sum as a percentage of the points
      eligible, rounded to 2 places; null when nothing is scored. */
  function PercentageEarned(m: StateModel, pts: Points): (p: Option<real>)
    ensures p.None? <==> TotalPointsEligible(m, pts).None?
  {
    var e := TotalPointsEligible(m, pts);
    var s := TotalPointSum(m, pts);
    if e.None? || s.None? then None else Some(R2(s.value * 100.0 / e.value))
  }

  /** Each scored component's points sum to at most the points eligible,
      and to at least 0. */
  lemma PointSumWithinEligible(m: StateModel, pts: Points)
    requires WithinWeights(m, pts) && TotalPointsEligible(m, pts).Some?
    ensures 0.0 <= SumSkipNull(PointColumn(m, pts)) <= TotalPointsEligible(m, pts).value
  {
    var ws := WeightColumn(m, pts);
    var ps := PointColumn(m, pts);
    var zs: seq<Option<real>> := seq(|ps|, i => None);
    AllNullSumsToZero(zs);
    SumSkipNullPointwise(zs, ps);
    SumSkipNullPointwise(ps, ws);
  }

  /** With every scored component between 0 and its weight, the percentage
      earned lies between 0 and 100. */
  lemma PercentageWithin(m: StateModel, pts: Points)
    requires WithinWeights(m, pts)
    ensures PercentageEarned(m, pts).Some? ==> 0.0 <= PercentageEarned(m, pts).value <= 100.0
  {
    var e := TotalPointsEligible(m, pts);
    if e.Some? {
      var ev := e.value;
      var s := SumSkipNull(PointColumn(m, pts));
      PointSumWithinEligible(m, pts);
      Numeric.RoundToMonotone(0.0, s, 2);
      Numeric.RoundToMonotone(s, ev, 2);
      Numeric.RoundToInteger(0, 2);
      Numeric.RoundToInteger(ev.Floor, 2);
      var q := R2(s) * 100.0 / ev;
      Numeric.PercentOfPart(R2(s), ev);
      Numeric.RoundToBetween(q, 0, 100, 2);
    }
  }

  /** A school with full points on every scored component earns 100%. */
  lemma FullPointsEarnHundred(m: StateModel, pts: Points)
    requires forall c :: Scored(m, pts, c) ==> pts[c] == StateConfig.Weight(m, c).value
    requires TotalPointsEligible(m, pts).Some?
    ensures PercentageEarned(m, pts) == Some(100.0)
  {
    var ws := WeightColumn(m, pts);
    var ps := PointColumn(m, pts);
    var ev := TotalPointsEligible(m, pts).value;
    assert SumSkipNull(ps) == ev by {
      SumSkipNullPointwise(ps, ws);
      SumSkipNullPointwise(ws, ps);
    }
    assert TotalPointSum(m, pts) == Some(ev) by {
      assert ev == ev.Floor as real;
      Numeric.RoundToInteger(ev.Floor, 2);
    }
    assert PercentageEarned(m, pts) == Some(R2(ev * 100.0 / ev));
    HundredOfWhole(ev);
    Numeric.RoundToInteger(100, 2);
  }

  /** Raising one component's points leaves the weights alone and raises
      the point column position by position. */
  lemma RaiseColumns(m: StateModel, pts: Points, c: Component, v: real)
    requires c in pts && pts[c] <= v
    ensures WeightColumn(m, pts[c := v]) == WeightColumn(m, pts)
    ensures SumSkipNull(PointColumn(m, pts)) <= SumSkipNull(PointColumn(m, pts[c := v]))
  {
    var pts' := pts[c := v];
    assert WeightColumn(m, pts') == WeightColumn(m, pts) by {
      var ws := WeightColumn(m, pts);
      var ws' := WeightColumn(m, pts');
      assert forall i :: 0 <= i < |ws| ==> ws[i] == ws'[i];
    }
    var ps := PointColumn(m, pts);
    var ps' := PointColumn(m, pts');
    assert forall i :: 0 <= i < |ps| ==> ps[i].GetOr(0.0) <= ps'[i].GetOr(0.0);
    SumSkipNullPointwise(ps, ps');
  }

  /** The points eligible depend on the weight column only. */
  lemma EligibleOfWeights(m: StateModel, pts: Points, pts': Points)
    requires WeightColumn(m, pts') == WeightColumn(m, pts)
    ensures TotalPointsEligible(m, pts') == TotalPointsEligible(m, pts)
  {
  }

  /** The percentage earned is the rounded point sum over the points
      eligible, as a percentage rounded to 2 places. */
  lemma PercentageOfColumns(m: StateModel, pts: Points)
    ensures PercentageEarned(m, pts).Some? ==>
              PercentageEarned(m, pts).value == R2(R2(SumSkipNull(PointColumn(m, pts))) * 100.0 / TotalPointsEligible(m, pts).value)
  {
  }

  /** The rounded percentage of a rounded sum grows with the sum. */
  lemma PercentOfMonotone(s: real, s': real, e: real)
    requires s <= s' && e > 0.0
    ensures R2(R2(s) * 100.0 / e) <= R2(R2(s') * 100.0 / e)
  {
    Numeric.RoundToMonotone(s, s', 2);
    Numeric.RealMulMonotone(R2(s), R2(s'), 100.0);
    Numeric.RealDivMonotone(R2(s) * 100.0, R2(s') * 100.0, e);
    Numeric.RoundToMonotone(R2(s) * 100.0 / e, R2(s') * 100.0 / e, 2);
  }

  /** Raising one component's points never lowers the percentage earned. */
  lemma PercentageMonotone(m: StateModel, pts: Points, c: Component, v: real)
    requires c in pts && pts[c] <= v
    ensures TotalPointsEligible(m, pts[c := v]) == TotalPointsEligible(m, pts)
    ensures PercentageEarned(m, pts).Some? ==> PercentageEarned(m, pts).value <= PercentageEarned(m, pts[c := v]).value
  {
    var pts' := pts[c := v];
    RaiseColumns(m, pts, c, v);
    EligibleOfWeights(m, pts, pts');
    PercentageOfColumns(m, pts);
    PercentageOfColumns(m, pts');
    var e := TotalPointsEligible(m, pts);
    if e.Some? {
      PercentOfMonotone(SumSkipNull(PointColumn(m, pts)), SumSkipNull(PointColumn(m, pts')), e.value);
    }
  }

  /** Points for a component the model does not weigh change nothing. */
  lemma UnweightedComponentIgnored(m: StateModel, pts: Points, c: Component, v: real)
    requires StateConfig.Weight(m, c).None?
    ensures TotalPointsEligible(m, pts[c := v]) == TotalPointsEligible(m, pts)
    ensures PercentageEarned(m, pts[c := v]) == PercentageEarned(m, pts)
  {
    UnweightedColumns(m, pts, c, v);
    SameColumnsSameTotals(m, pts, pts[c := v]);
  }

  /** Points for a component the model does not weigh leave both columns
      alone. */
  lemma UnweightedColumns(m: StateModel, pts: Points, c: Component, v: real)
    requires StateConfig.Weight(m, c).None?
    ensures WeightColumn(m, pts[c := v]) == WeightColumn(m, pts)
    ensures PointColumn(m, pts[c := v]) == PointColumn(m, pts)
  {
    var pts' := pts[c := v];
    assert WeightColumn(m, pts') == WeightColumn(m, pts) by {
      var ws := WeightColumn(m, pts);
      var ws' := WeightColumn(m, pts');
      assert forall i :: 0 <= i < |ws| ==> ws[i] == ws'[i];
    }
    assert PointColumn(m, pts') == PointColumn(m, pts) by {
      var ps := PointColumn(m, pts);
      var ps' := PointColumn(m, pts');
      assert forall i :: 0 <= i < |ps| ==> ps[i] == ps'[i];
    }
  }

  /** The totals depend on the two columns only. */
  lemma SameColumnsSameTotals(m: StateModel, pts: Points, pts': Points)
    requires WeightColumn(m, pts') == WeightColumn(m, pts)
    requires PointColumn(m, pts') == PointColumn(m, pts)
    ensures TotalPointsEligible(m, pts') == TotalPointsEligible(m, pts)
    ensures PercentageEarned(m, pts') == PercentageEarned(m, pts)
  {
    assert TotalPointSum(m, pts') == TotalPointSum(m, pts);
  }

  /** The bonus points of the total: the school's bonus points and its CCRI
      bonus point added up, null when both are null. */
  function TotalBonus(bonus: Option<real>, ccriBonus: Option<real>): (b: Option<real>)
    ensures b.None? <==> bonus.None? && ccriBonus.None?
    ensures b.Some? ==> b.value == bonus.GetOr(0.0) + ccriBonus.GetOr(0.0)
  {
    SumSkipNullPair(bonus, ccriBonus);
    SumMinCount1([bonus, ccriBonus])
  }

  /** TotalPointsEarned: the percentage earned plus the bonus points,
      rounded to 2 places; null only when all three are null. */
  function TotalPointsEarned(pct: Option<real>, bonus: Option<real>, ccriBonus: Option<real>): (t: Option<real>)
    ensures t.None? <==> pct.None? && bonus.None? && ccriBonus.None?
    ensures t.Some? ==> t.value == R2(pct.GetOr(0.0) + bonus.GetOr(0.0) + ccriBonus.GetOr(0.0))
  {
    var b := TotalBonus(bonus, ccriBonus);
    SumSkipNullPair(pct, b);
    var s := SumMinCount1([pct, b]);
    if s.None? then None else Some(R2(s.value))
  }

  /** Without bonus points the total earned is the percentage earned. */
  lemma NoBonusKeepsPercentage(m: StateModel, pts: Points)
    ensures TotalPointsEarned(PercentageEarned(m, pts), None, None) == PercentageEarned(m, pts)
  {
    var p := PercentageEarned(m, pts);
    if p.Some? {
      var e := TotalPointsEligible(m, pts).value;
      var s := TotalPointSum(m, pts).value;
      Numeric.RoundToIdempotent(s * 100.0 / e, 2);
    }
  }

  /** Non-negative bonus points never lower the total below the percentage
      earned. */
  lemma BonusNeverLowers(m: StateModel, pts: Points, bonus: Option<real>, ccriBonus: Option<real>)
    requires bonus.GetOr(0.0) >= 0.0 && ccriBonus.GetOr(0.0) >= 0.0
    ensures PercentageEarned(m, pts).Some? ==>
              PercentageEarned(m, pts).value <= TotalPointsEarned(PercentageEarned(m, pts), bonus, ccriBonus).value
  {
    var p := PercentageEarned(m, pts);
    if p.Some? {
      var e := TotalPointsEligible(m, pts).value;
      var s := TotalPointSum(m, pts).value;
      Numeric.RoundToIdempotent(s * 100.0 / e, 2);
      Numeric.RoundToMonotone(p.value, p.value + bonus.GetOr(0.0) + ccriBonus.GetOr(0.0), 2);
    }
  }

  // ---------------------------------------------------------------- letter grades

  /** A letter, "NR" (not rated) or "P" (pending). */
  datatype Grade = Graded(letter: Letter) | NR | P

  /** The model's grade: when grades are produced, the letter of the band
      holding the total earned, otherwise 'P'; then "NR" when the points
      eligible are null or below the model's threshold. */
  function ModelGrade(m: StateModel, earned: Option<real>, eligible: Option<real>, produceGrades: bool): (g: Option<Grade>)
    ensures g == Some(NR) <==> eligible.None? || eligible.value < Threshold(m)
    ensures g.Some? && g.value.Graded? ==> produceGrades && earned.Some? && LetterFor(m, earned.value) == Some(g.value.letter)
    ensures !produceGrades ==> g == Some(NR) || g == Some(P)
    ensures g.None? <==> produceGrades && eligible.Some? && eligible.value >= Threshold(m)
                         && (earned.None? || LetterFor(m, earned.value).None?)
  {
    var banded: Option<Grade> :=
      if !produceGrades then Some(P)
      else if earned.None? then None
      else (var l := LetterFor(m, earned.value); if l.None? then None else Some(Graded(l.value)));
    if eligible.None? || eligible.value < Threshold(m) then Some(NR) else banded
  }

  /** The school-type overrides: an InEligible school is "NR" and a
      Non-Typical school 'P' on the model summaries, whatever its grade. */
  function FinalGrade(sm: Option<SchoolType.SchoolModel>, g: Option<Grade>): (r: Option<Grade>)
    ensures sm == Some(SchoolType.InEligible) ==> r == Some(NR)
    ensures sm == Some(SchoolType.NonTypical) ==> r == Some(P)
    ensures sm != Some(SchoolType.InEligible) && sm != Some(SchoolType.NonTypical) ==> r == g
  {
    if sm == Some(SchoolType.InEligible) then Some(NR)
    else if sm == Some(SchoolType.NonTypical) then Some(P)
    else g
  }

  /** A school's grade on its model's summary. */
  function SchoolGrade(m: StateModel, pts: Points, bonus: Option<real>, ccriBonus: Option<real>,
                       produceGrades: bool, sm: Option<SchoolType.SchoolModel>): Option<Grade>
  {
    var earned := TotalPointsEarned(PercentageEarned(m, pts), bonus, ccriBonus);
    FinalGrade(sm, ModelGrade(m, earned, TotalPointsEligible(m, pts), produceGrades))
  }

  /** A school the school-type file rates, with enough points eligible,
      points within the weights and at most 30 bonus points, gets a letter:
      its rounded total is a whole number of hundredths from 0 to 130. */
  lemma EligibleSchoolGetsLetter(m: StateModel, pts: Points, bonus: Option<real>, ccriBonus: Option<real>,
                                 sm: Option<SchoolType.SchoolModel>)
    requires WithinWeights(m, pts)
    requires TotalPointsEligible(m, pts).Some? && TotalPointsEligible(m, pts).value >= Threshold(m)
    requires 0.0 <= bonus.GetOr(0.0) && 0.0 <= ccriBonus.GetOr(0.0) && bonus.GetOr(0.0) + ccriBonus.GetOr(0.0) <= 30.0
    requires sm != Some(SchoolType.InEligible) && sm != Some(SchoolType.NonTypical)
    ensures SchoolGrade(m, pts, bonus, ccriBonus, true, sm).Some?
    ensures SchoolGrade(m, pts, bonus, ccriBonus, true, sm).value.Graded?
  {
    var p := PercentageEarned(m, pts);
    PercentageWithin(m, pts);
    var s := p.value + bonus.GetOr(0.0) + ccriBonus.GetOr(0.0);
    assert TotalPointsEarned(p, bonus, ccriBonus) == Some(R2(s));
    RoundedTotalGraded(m, s);
  }

  /** Every total from 0 to 130, rounded to 2 places, gets a letter. */
  lemma RoundedTotalGraded(m: StateModel, s: real)
    requires 0.0 <= s <= 130.0
    ensures LetterFor(m, R2(s)).Some?
  {
    Numeric.RoundToBetween(s, 0, 130, 2);
    Numeric.RoundToHundredths(s);
    var n := Numeric.RoundHalfUp(s * 100.0);
    GridTotalGraded(m, n);
  }

  /** Without produced grades every school is 'P' or "NR". */
  lemma PendingWithoutGrades(m: StateModel, pts: Points, bonus: Option<real>, ccriBonus: Option<real>,
                             sm: Option<SchoolType.SchoolModel>)
    ensures SchoolGrade(m, pts, bonus, ccriBonus, false, sm) == Some(P) || SchoolGrade(m, pts, bonus, ccriBonus, false, sm) == Some(NR)
  {
  }

  // ---------------------------------------------------------------- non-typical hybrid

  /** A non-typical school's totals under one model (null when it has no
      row under that model). */
  datatype ModelTotals = ModelTotals(eligible: Option<real>, points: Option<real>, bonus: Option<real>)

  lemma HundredOfWhole(t: real)
    requires t > 0.0
    ensures t * 100.0 / t == 100.0
  {
  }

  /** A model's share of the school's enrolment, a percentage rounded to 2
      places; null when nobody is enrolled. */
  function Share(count: nat, other: nat): (s: Option<real>)
    ensures s.None? <==> count + other == 0
    ensures s.Some? ==> 0.0 <= s.value <= 100.0
    ensures count > 0 && other == 0 ==> s == Some(100.0)
    ensures count == 0 && other > 0 ==> s == Some(0.0)
  {
    if count + other == 0 then None
    else
      var t := (count + other) as real;
      var q := count as real * 100.0 / t;
      Numeric.RealDivMonotone(0.0, count as real * 100.0, t);
      Numeric.RealDivMonotone(count as real * 100.0, t * 100.0, t);
      HundredOfWhole(t);
      Numeric.RoundToBetween(q, 0, 100, 2);
      Numeric.RoundToInteger(100, 2);
      Numeric.RoundToInteger(0, 2);
      Some(R2(q))
  }

  /** The two shares add up to 100 within rounding. */
  lemma SharesComplement(k8Count: nat, hsCount: nat)
    requires k8Count + hsCount > 0
    ensures 99.99 <= Share(k8Count, hsCount).value + Share(hsCount, k8Count).value <= 100.01
  {
    var t := (k8Count + hsCount) as real;
    var a := k8Count as real * 100.0 / t;
    var b := hsCount as real * 100.0 / t;
    assert a + b == (k8Count as real * 100.0 + hsCount as real * 100.0) / t;
    assert k8Count as real * 100.0 + hsCount as real * 100.0 == t * 100.0;
    HundredOfWhole(t);
    assert Numeric.Pow10(2) == 100;
    Numeric.RoundToClose(a, 2);
    Numeric.RoundToClose(b, 2);
  }

  /** A value weighted by a share: null when either is null. */
  function Weighted(x: Option<real>, share: Option<real>): (w: Option<real>)
    ensures w.None? <==> x.None? || share.None?
  {
    if x.None? || share.None? then None else Some(x.value * share.value / 100.0)
  }

  /** `a.add(b, fill_value=0)` rounded to 2 places: the two weighted values
      added up, null only when both are. */
  function Blend(a: Option<real>, b: Option<real>): (r: Option<real>)
    ensures r.None? <==> a.None? && b.None?
    ensures r.Some? ==> r.value == R2(a.GetOr(0.0) + b.GetOr(0.0))
  {
    SumSkipNullPair(a, b);
    var s := SumMinCount1([a, b]);
    if s.None? then None else Some(R2(s.value))
  }

  /** The hybrid totals of a non-typical school. */
  datatype Hybrid = Hybrid(points: Option<real>, eligible: Option<real>, percentage: Option<real>,
                           bonus: Option<real>, earned: Option<real>)

  /** The hybrid: each model's totals weighted by its share of enrolment, the
      percentage earned from the weighted points and eligible points, and the
      total with the weighted bonus points. */
  function HybridTotals(k8Count: nat, hsCount: nat, k8: ModelTotals, hs: ModelTotals): Hybrid {
    var sk := Share(k8Count, hsCount);
    var sh := Share(hsCount, k8Count);
    var points := Blend(Weighted(k8.points, sk), Weighted(hs.points, sh));
    var eligible := Blend(Weighted(k8.eligible, sk), Weighted(hs.eligible, sh));
    var pct := if points.None? || eligible.None? || eligible.value == 0.0 then None
               else Some(R2(points.value * 100.0 / eligible.value));
    var bonus := Blend(Weighted(k8.bonus, sk), Weighted(hs.bonus, sh));
    var earned := SumMinCount1([pct, bonus]);
    Hybrid(points, eligible, pct, bonus, if earned.None? then None else Some(R2(earned.value)))
  }

  /** The hybrid letter: the 9-12 cut scores and the 9-12 threshold of 50
      eligible points. */
  function HybridGrade(h: Hybrid, produceGrades: bool): (g: Option<Grade>)
    ensures g == Some(NR) <==> h.eligible.None? || h.eligible.value < 50.0
  {
    ModelGrade(StateConfig.HS, h.earned, h.eligible, produceGrades)
  }

  /** The hybrid's eligible points are null exactly when neither model has
      eligible points, for a school with any enrolment. */
  lemma HybridEligibleNull(k8Count: nat, hsCount: nat, k8: ModelTotals, hs: ModelTotals)
    requires k8Count + hsCount > 0
    ensures HybridTotals(k8Count, hsCount, k8, hs).eligible.None? <==> k8.eligible.None? && hs.eligible.None?
  {
  }

  /** A school enrolled under one model only gets that model's totals back,
      rounded to 2 places. */
  lemma SingleModelHybrid(k8Count: nat, k8: ModelTotals, hs: ModelTotals)
    requires k8Count > 0
    ensures HybridTotals(k8Count, 0, k8, hs).points == (if k8.points.None? then (if hs.points.None? then None else Some(0.0)) else Some(R2(k8.points.value)))
    ensures HybridTotals(k8Count, 0, k8, hs).eligible == (if k8.eligible.None? then (if hs.eligible.None? then None else Some(0.0)) else Some(R2(k8.eligible.value)))
  {
    assert Share(k8Count, 0) == Some(100.0) && Share(0, k8Count) == Some(0.0);
    BlendWholeAndNothing(k8.points, hs.points);
    BlendWholeAndNothing(k8.eligible, hs.eligible);
  }

  /** A value weighted by a full share blended with one weighted by a zero
      share is the first value rounded, or 0 when only the second is
      present. */
  lemma BlendWholeAndNothing(x: Option<real>, y: Option<real>)
    ensures Blend(Weighted(x, Some(100.0)), Weighted(y, Some(0.0))) ==
              (if x.None? then (if y.None? then None else Some(0.0)) else Some(R2(x.value)))
  {
    Numeric.RoundToInteger(0, 2);
    assert x.Some? ==> x.value * 100.0 / 100.0 == x.value;
    assert y.Some? ==> y.value * 0.0 / 100.0 == 0.0;
  }

  // ---------------------------------------------------------------- district grade

  /** A school's row in the entity table: its district, its school-type
      state model, and its grades on the K8, 9-12 and non-typical summaries. */
  datatype EntityRow = EntityRow(district: int, stateModel: Option<SchoolType.SchoolModel>,
                                 k8: Option<Grade>, hs: Option<Grade>, nonTypical: Option<Grade>)

  function LetterOf(g: Option<Grade>): Option<Letter> {
    if g.Some? && g.value.Graded? then Some(g.value.letter) else None
  }

  /** The letter a school contributes to its district: a K8 school's 9-12
      grade and a 912 or alternative school's K8 grade are dropped, then the
      last of its K8, 9-12 and non-typical grades that is a letter counts. */
  function SchoolLetter(r: EntityRow): (l: Option<Letter>)
    ensures l.Some? ==> l == LetterOf(r.k8) || l == LetterOf(r.hs) || l == LetterOf(r.nonTypical)
    ensures l.None? ==> LetterOf(r.nonTypical).None?
  {
    var k8 := if r.stateModel == Some(SchoolType.NineTwelve) || r.stateModel == Some(SchoolType.Alternative) then None else r.k8;
    var hs := if r.stateModel == Some(SchoolType.K8) then None else r.hs;
    var l1 := LetterOf(k8);
    var l2 := if LetterOf(hs).Some? then LetterOf(hs) else l1;
    if LetterOf(r.nonTypical).Some? then LetterOf(r.nonTypical) else l2
  }

  /** A K8 school's letter never comes from a 9-12 grade, and a 912 or
      alternative school's never from a K8 grade. */
  lemma SchoolLetterFromOwnModel(r: EntityRow)
    requires LetterOf(r.nonTypical).None?
    ensures r.stateModel == Some(SchoolType.K8) ==> SchoolLetter(r) == LetterOf(r.k8)
    ensures r.stateModel == Some(SchoolType.NineTwelve) || r.stateModel == Some(SchoolType.Alternative) ==>
              SchoolLetter(r) == LetterOf(r.hs)
  {
  }

  /** The grade points of the lettered schools of district `d`, null for
      every other row. */
  function GpaColumn(rows: seq<EntityRow>, d: int): (col: seq<Option<real>>)
    ensures |col| == |rows|
    ensures forall i :: 0 <= i < |col| ==> (col[i].Some? <==> rows[i].district == d && SchoolLetter(rows[i]).Some?)
    ensures forall i :: 0 <= i < |col| && col[i].Some? ==> col[i].value == Gpa(SchoolLetter(rows[i]).value) as real
  {
    seq(|rows|, i requires 0 <= i < |rows| =>
      if rows[i].district == d && SchoolLetter(rows[i]).Some? then Some(Gpa(SchoolLetter(rows[i]).value) as real) else None)
  }

  /** The district's mean grade points over its lettered schools; null when
      it has none. */
  function DistrictGpa(rows: seq<EntityRow>, d: int): (g: Option<real>)
    ensures g.None? <==> forall i :: 0 <= i < |rows| && rows[i].district == d ==> SchoolLetter(rows[i]).None?
    ensures g.Some? ==> 0.0 <= g.value <= 4.0
    ensures g.Some? ==> g.value == Numeric.Sum(PresentValues(GpaColumn(rows, d))) / |PresentValues(GpaColumn(rows, d))| as real
  {
    var vs := PresentValues(GpaColumn(rows, d));
    GpaValuesEmpty(rows, d);
    if |vs| == 0 then None
    else
      GpaValuesWithin(rows, d);
      Numeric.MeanWithin(vs, 0.0, 4.0);
      Numeric.Mean(vs)
  }

  lemma GpaValuesEmpty(rows: seq<EntityRow>, d: int)
    ensures |PresentValues(GpaColumn(rows, d))| == 0 <==>
              forall i :: 0 <= i < |rows| && rows[i].district == d ==> SchoolLetter(rows[i]).None?
  {
    var col := GpaColumn(rows, d);
    assert AllNull(col) <==> forall i :: 0 <= i < |col| ==> col[i].None?;
  }

  lemma GpaValuesWithin(rows: seq<EntityRow>, d: int)
    ensures Numeric.AllWithin(PresentValues(GpaColumn(rows, d)), 0.0, 4.0)
  {
    var col := GpaColumn(rows, d);
    var vs := PresentValues(col);
    forall j | 0 <= j < |vs| ensures 0.0 <= vs[j] <= 4.0 {
      var i :| 0 <= i < |col| && col[i] == Some(vs[j]);
      assert vs[j] == Gpa(SchoolLetter(rows[i]).value) as real;
      GpaWithin(SchoolLetter(rows[i]).value);
    }
  }

  lemma GpaWithin(l: Letter)
    ensures 0 <= Gpa(l) <= 4
  {
  }

  /** The district's grade: the letter of its mean grade points rounded to a
      whole number, and "NR" (or 'P' without produced grades) for a
      district without a lettered school. */
  function DistrictGrade(rows: seq<EntityRow>, d: int, produceGrades: bool): (g: Grade)
    ensures g.Graded? <==> exists i :: 0 <= i < |rows| && rows[i].district == d && SchoolLetter(rows[i]).Some?
    ensures !g.Graded? ==> (g == NR <==> produceGrades)
    ensures g.Graded? ==> Gpa(g.letter) == Numeric.RoundHalfEven(DistrictGpa(rows, d).value)
  {
    var m := DistrictGpa(rows, d);
    if m.None? then (if produceGrades then NR else P)
    else
      var r := Numeric.RoundHalfEven(m.value);
      Graded(LetterOfGpa(r).value)
  }

  /** A district whose lettered schools all have one letter gets that
      letter. */
  lemma UniformDistrict(rows: seq<EntityRow>, d: int, l: Letter, produceGrades: bool)
    requires exists i :: 0 <= i < |rows| && rows[i].district == d && SchoolLetter(rows[i]).Some?
    requires forall i :: 0 <= i < |rows| && rows[i].district == d && SchoolLetter(rows[i]).Some? ==> SchoolLetter(rows[i]).value == l
    ensures DistrictGrade(rows, d, produceGrades) == Graded(l)
  {
    var col := GpaColumn(rows, d);
    var vs := PresentValues(col);
    var g := Gpa(l) as real;
    assert Numeric.AllWithin(vs, g, g) by {
      forall j | 0 <= j < |vs| ensures g <= vs[j] <= g {
        var i :| 0 <= i < |col| && col[i] == Some(vs[j]);
      }
    }
    Numeric.MeanWithin(vs, g, g);
    assert DistrictGpa(rows, d) == Some(g);
    assert Numeric.RoundHalfEven(g) == Gpa(l);
    GpaRoundTrip(l);
  }

  /** A district whose lettered schools are two, with grade points `a`
      and `b` in row order, averages them. */
  lemma TwoSchoolDistrict(rows: seq<EntityRow>, d: int, a: real, b: real)
    requires PresentValues(GpaColumn(rows, d)) == [a, b]
    ensures DistrictGpa(rows, d) == Some((a + b) / 2.0)
  {
    assert DistrictGpa(rows, d) == Numeric.Mean([a, b]);
    Numeric.MeanPair(a, b);
  }

  /** Two rows of district `d`, lettered `l1` and `l2`, make such a
      district. */
  lemma PairColumn(rows: seq<EntityRow>, d: int, l1: Letter, l2: Letter)
    requires |rows| == 2 && rows[0].district == d && rows[1].district == d
    requires SchoolLetter(rows[0]) == Some(l1) && SchoolLetter(rows[1]) == Some(l2)
    ensures PresentValues(GpaColumn(rows, d)) == [Gpa(l1) as real, Gpa(l2) as real]
  {
    assert GpaColumn(rows, d) == [Some(Gpa(l1) as real), Some(Gpa(l2) as real)];
    PresentPair(Gpa(l1) as real, Gpa(l2) as real);
  }

  lemma PresentPair(a: real, b: real)
    ensures PresentValues([Some(a), Some(b)]) == [a, b]
  {
    assert [Some(a), Some(b)][1..] == [Some(b)];
    assert [Some(b)][1..] == [];
    assert Presents([Some(b)]) == [b];
  }

  /** Ties go to the even grade point: a district whose lettered schools
      are one B (3 grade points) and one C (2), a mean of 2.5, is a C
      district; one whose are an A (4) and a B (3), a mean of 3.5, an A
      district. */
  lemma DistrictTiesRoundToEven(rows: seq<EntityRow>, d: int)
    ensures PresentValues(GpaColumn(rows, d)) == [3.0, 2.0] ==> DistrictGrade(rows, d, true) == Graded(C)
    ensures PresentValues(GpaColumn(rows, d)) == [4.0, 3.0] ==> DistrictGrade(rows, d, true) == Graded(A)
  {
    TieOfBAndC(rows, d);
    TieOfAAndB(rows, d);
  }

  lemma TieOfBAndC(rows: seq<EntityRow>, d: int)
    ensures PresentValues(GpaColumn(rows, d)) == [3.0, 2.0] ==> DistrictGrade(rows, d, true) == Graded(C)
  {
    if PresentValues(GpaColumn(rows, d)) == [3.0, 2.0] {
      HalfwayToEven();
      assert (3.0 + 2.0) / 2.0 == 2.5;
      DistrictGradeOfPair(rows, d, 3.0, 2.0);
      var l := DistrictGrade(rows, d, true).letter;
      GpaRoundTrip(l);
      assert LetterOfGpa(2) == Some(C);
    }
  }

  lemma TieOfAAndB(rows: seq<EntityRow>, d: int)
    ensures PresentValues(GpaColumn(rows, d)) == [4.0, 3.0] ==> DistrictGrade(rows, d, true) == Graded(A)
  {
    if PresentValues(GpaColumn(rows, d)) == [4.0, 3.0] {
      HalfwayToEven();
      assert (4.0 + 3.0) / 2.0 == 3.5;
      DistrictGradeOfPair(rows, d, 4.0, 3.0);
      var l := DistrictGrade(rows, d, true).letter;
      GpaRoundTrip(l);
      assert LetterOfGpa(4) == Some(A);
    }
  }

  lemma HalfwayToEven()
    ensures Numeric.RoundHalfEven(3.5) == 4 && Numeric.RoundHalfEven(2.5) == 2
  {
    var r := Numeric.RoundHalfEven(3.5);
    assert r == 3 || r == 4;
    var q := Numeric.RoundHalfEven(2.5);
    assert q == 2 || q == 3;
  }

  /** A district whose lettered schools are two gets the letter of their
      mean grade points, rounded half to even. */
  lemma DistrictGradeOfPair(rows: seq<EntityRow>, d: int, a: real, b: real)
    requires PresentValues(GpaColumn(rows, d)) == [a, b]
    ensures DistrictGrade(rows, d, true).Graded?
    ensures Gpa(DistrictGrade(rows, d, true).letter) == Numeric.RoundHalfEven((a + b) / 2.0)
  {
    TwoSchoolDistrict(rows, d, a, b);
    var g := DistrictGpa(rows, d);
    assert g.Some? && g.value == (a + b) / 2.0;
    var r := Numeric.RoundHalfEven(g.value);
    assert DistrictGrade(rows, d, true) == Graded(LetterOfGpa(r).value);
  }
}
