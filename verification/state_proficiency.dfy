/** The state Proficiency indicator: a weighted percent proficient (partially
    proficient counts 0.6, proficient 1, highly proficient 1.3) scaled by the
    95%-tested multiplier, and, for k-8, the stability alternative that
    weights the percent proficient of students by years of FAY enrollment;
    the school earns the better of the two. */
module StateProficiency {
  import opened Wrappers
  import Columns
  import Numeric
  import StateConfig

  /** Columns the indicator reads from the static file. */
  const RequiredColumns: seq<string> := [
    "FiscalYear", "SchoolCode", "SAISID", "StudentGrade", "FAY", "Subject", "Performance", "TestType",
    "ELAMathWindow", "RAEL", "Alternative", "ADMIntegrity"]

  function CheckFrame(present: set<string>): (r: Result<(), seq<string>>)
    ensures r.Success? <==> (set c | c in RequiredColumns) <= present
    ensures r.Failure? ==> |r.error| > 0 && forall c :: c in r.error <==> c in RequiredColumns && c !in present
  {
    Columns.CheckColumns(RequiredColumns, present)
  }

  /** Numbers of FAY-tested assessments at each performance level:
      minimally, partially, proficient, highly proficient. */
  datatype LevelCounts = LevelCounts(mp: nat, pp: nat, p: nat, hp: nat) {
    function Tested(): nat { mp + pp + p + hp }
  }


  /** The level counts of two groups taken together. */
  function Add(a: LevelCounts, b: LevelCounts): LevelCounts {
    LevelCounts(a.mp + b.mp, a.pp + b.pp, a.p + b.p, a.hp + b.hp)
  }

  /** Taking two groups together sums their tested assessments. */
  lemma AddTested(a: LevelCounts, b: LevelCounts)
    ensures Add(a, b).Tested() == a.Tested() + b.Tested()
  {
  }

  /** Weighted proficient assessments: 0.6 per partially proficient, 1 per
      proficient, 1.3 per highly proficient. */
  function WeightedProficient(c: LevelCounts): (w: real)
    ensures 0.0 <= w <= 1.3 * c.Tested() as real
  {
    StateConfig.ProficiencyWeight(1) * c.mp as real + StateConfig.ProficiencyWeight(2) * c.pp as real
    + StateConfig.ProficiencyWeight(3) * c.p as real + StateConfig.ProficiencyWeight(4) * c.hp as real
  }

  /** Percent proficient of a group, between 0 and 130; none for a group
      with no tested assessments. */
  function PercentProficient(c: LevelCounts): (pct: Option<real>)
    ensures pct.Some? <==> c.Tested() > 0
    ensures pct.Some? ==> 0.0 <= pct.value <= 130.0
    ensures pct.Some? ==> pct.value * c.Tested() as real == WeightedProficient(c) * 100.0
  {
    if c.Tested() == 0 then None
    else
      var t := c.Tested() as real;
      var pct := WeightedProficient(c) / t * 100.0;
      Numeric.PercentOfWhole(WeightedProficient(c), t, 1.3);
      Some(pct)
  }

  /** A group all proficient scores 100, all highly proficient 130, all
      minimally proficient 0. */
  lemma PercentProficientExtremes(n: nat)
    requires n > 0
    ensures PercentProficient(LevelCounts(0, 0, n, 0)) == Some(100.0)
    ensures PercentProficient(LevelCounts(0, 0, 0, n)) == Some(130.0)
    ensures PercentProficient(LevelCounts(n, 0, 0, 0)) == Some(0.0)
  {
    var t := n as real;
    assert WeightedProficient(LevelCounts(0, 0, n, 0)) == 100.0 * t / 100.0;
    Numeric.CancelPositive(PercentProficient(LevelCounts(0, 0, n, 0)).value, 100.0, t);
    assert WeightedProficient(LevelCounts(0, 0, 0, n)) == 130.0 * t / 100.0;
    Numeric.CancelPositive(PercentProficient(LevelCounts(0, 0, 0, n)).value, 130.0, t);
    assert WeightedProficient(LevelCounts(n, 0, 0, 0)) == 0.0;
    Numeric.CancelPositive(PercentProficient(LevelCounts(n, 0, 0, 0)).value, 0.0, t);
  }

  /** Enrollment and testing of a school's model in the testing window: the
      distinct students enrolled, the assessments taken, the distinct FAY
      students. */
  datatype TestedInfo = TestedInfo(enrolled: nat, assessments: nat, numberFay: nat)

  /** Students tested: assessments over two (one ELA and one Math each). */
  function NumberTested(info: TestedInfo): real {
    info.assessments as real / 2.0
  }

  /** The 95%-tested multiplier, students tested over 95% of students
      enrolled; none without enrolled students. */
  function Multiplier(info: TestedInfo): (mult: Option<real>)
    ensures mult.Some? <==> info.enrolled > 0
    ensures mult.Some? ==> mult.value >= 0.0
    ensures mult.Some? ==> mult.value * (StateConfig.PercentTestedExpected / 100.0 * info.enrolled as real) == NumberTested(info)
  {
    if info.enrolled == 0 then None
    else Some(NumberTested(info) / (StateConfig.PercentTestedExpected / 100.0 * info.enrolled as real))
  }

  /** The multiplier penalises exactly the schools that tested fewer than
      95% of their enrolled students, and rewards those that tested more. */
  lemma MultiplierAgainstOne(info: TestedInfo)
    requires info.enrolled > 0
    ensures Multiplier(info).value < 1.0 <==> NumberTested(info) < StateConfig.PercentTestedExpected / 100.0 * info.enrolled as real
    ensures Multiplier(info).value > 1.0 <==> NumberTested(info) > StateConfig.PercentTestedExpected / 100.0 * info.enrolled as real
  {
    Numeric.RatioAgainstOne(Multiplier(info).value, StateConfig.PercentTestedExpected / 100.0 * info.enrolled as real, NumberTested(info));
  }

  function PercentTested(info: TestedInfo): (pct: Option<real>)
    ensures pct.Some? <==> info.enrolled > 0
    ensures pct.Some? ==> pct.value * info.enrolled as real == NumberTested(info) * 100.0
  {
    if info.enrolled == 0 then None else Some(NumberTested(info) / info.enrolled as real * 100.0)
  }

  /** Points for a multiplied percent `q`: `q / 100` of the weight, capped
      at the weight; the cap binds exactly when `q` reaches 100. */
  function CappedShare(q: real, w: real): (points: real)
    requires 0.0 <= q && 0.0 < w
    ensures 0.0 <= points <= w
    ensures points == w <==> q >= 100.0
  {
    var x := q / 100.0 * w;
    ShareAgainstWeight(q, w);
    if w < x then w else x
  }

  lemma ShareAgainstWeight(q: real, w: real)
    requires 0.0 <= q && 0.0 < w
    ensures 0.0 <= q / 100.0 * w
    ensures q / 100.0 * w >= w <==> q >= 100.0
  {
    assert q / 100.0 * w - w == (q - 100.0) / 100.0 * w;
    if q < 100.0 { assert (q - 100.0) / 100.0 * w < 0.0; } else { assert (q - 100.0) / 100.0 * w >= 0.0; }
  }

  /** Regular proficiency points: the multiplied percent proficient over 100
      times the model's weight, capped at the weight; none below `nCount` FAY
      students, and none for a school that lacks enrolled, tested or FAY
      students, whose row the merge with the tested counts drops. */
  function RegularPoints(counts: LevelCounts, info: TestedInfo, m: StateConfig.StateModel, nCount: nat): (points: Option<real>)
    ensures points.None? <==> info.numberFay < nCount || info.numberFay == 0 || info.assessments == 0
                              || counts.Tested() == 0 || info.enrolled == 0
    ensures points.Some? ==> 0.0 <= points.value <= StateConfig.WeightOrZero(m, StateConfig.Proficiency)
    ensures points.Some? ==> (points.value == StateConfig.WeightOrZero(m, StateConfig.Proficiency)
                              <==> PercentProficient(counts).value * Multiplier(info).value >= 100.0)
  {
    var w := StateConfig.WeightOrZero(m, StateConfig.Proficiency);
    assert w > 0.0;
    if info.numberFay < nCount || info.numberFay == 0 || info.assessments == 0
       || counts.Tested() == 0 || info.enrolled == 0 then None
    else Some(CappedShare(PercentProficient(counts).value * Multiplier(info).value, w))
  }

  /** FAY-tested assessments of a k-8 school grouped by years of FAY
      enrollment (1, 2 and 3). */
  datatype FayGroups = FayGroups(g1: LevelCounts, g2: LevelCounts, g3: LevelCounts)

  function Total(gs: FayGroups): LevelCounts {
    Add(Add(gs.g1, gs.g2), gs.g3)
  }

  lemma AddNone(a: LevelCounts)
    ensures Add(a, LevelCounts(0, 0, 0, 0)) == a
  {
  }

  /** A group without assessments has no counts at all. */
  lemma EmptyIsNone(a: LevelCounts)
    requires a.Tested() == 0
    ensures a == LevelCounts(0, 0, 0, 0)
  {
  }

  /** Moving assessments between adjacent groups keeps the total. */
  lemma AddShift(a: LevelCounts, b: LevelCounts, c: LevelCounts)
    ensures Add(Add(a, Add(b, c)), LevelCounts(0, 0, 0, 0)) == Add(Add(a, b), c)
  {
    AddNone(Add(a, Add(b, c)));
  }

  function FoldInto2(gs: FayGroups, nCount: nat): FayGroups {
    if gs.g3.Tested() < 2 * nCount then FayGroups(gs.g1, Add(gs.g2, gs.g3), LevelCounts(0, 0, 0, 0)) else gs
  }

  function FoldInto1(gs: FayGroups, nCount: nat): FayGroups {
    if gs.g2.Tested() < 2 * nCount then FayGroups(Add(gs.g1, gs.g2), LevelCounts(0, 0, 0, 0), gs.g3) else gs
  }

  /** First pass: the 3-year group joins the 2-year group when it has fewer
      than `2 * nCount` assessments, and then the (possibly grown) 2-year
      group joins the 1-year group when it has fewer than `2 * nCount`. */
  function FoldSmall(gs: FayGroups, nCount: nat): FayGroups {
    FoldInto1(FoldInto2(gs, nCount), nCount)
  }

  /** After the first pass the 2- and 3-year groups are empty or meet the
      doubled N-count. */
  lemma FoldSmallBounds(gs: FayGroups, nCount: nat)
    ensures var r := FoldSmall(gs, nCount);
            (r.g3.Tested() == 0 || r.g3.Tested() >= 2 * nCount) && (r.g2.Tested() == 0 || r.g2.Tested() >= 2 * nCount)
  {
    FoldInto2Bound(gs, nCount);
    FoldInto1Bound(FoldInto2(gs, nCount), nCount);
  }

  lemma FoldInto2Bound(gs: FayGroups, nCount: nat)
    ensures FoldInto2(gs, nCount).g3.Tested() == 0 || FoldInto2(gs, nCount).g3.Tested() >= 2 * nCount
  {
  }

  lemma FoldInto1Bound(gs: FayGroups, nCount: nat)
    ensures FoldInto1(gs, nCount).g2.Tested() == 0 || FoldInto1(gs, nCount).g2.Tested() >= 2 * nCount
    ensures FoldInto1(gs, nCount).g3 == gs.g3
  {
  }

  /** The first pass loses no assessment. */
  lemma FoldSmallTotal(gs: FayGroups, nCount: nat)
    ensures Total(FoldSmall(gs, nCount)) == Total(gs)
  {
    var h := FoldInto2(gs, nCount);
    if gs.g3.Tested() < 2 * nCount {
      AddShift(gs.g1, gs.g2, gs.g3);
    }
    if h.g2.Tested() < 2 * nCount {
      AddNone(Add(h.g1, h.g2));
    }
  }

  /** Whether a group of `t` assessments has some and meets the doubled
      N-count. */
  function MeetsN(t: nat, nCount: nat): nat {
    if t > 0 && t >= 2 * nCount then 1 else 0
  }

  /** Number of FAY groups that meet the doubled N-count. */
  function GroupsMeetingN(gs: FayGroups, nCount: nat): nat {
    MeetsN(gs.g1.Tested(), nCount) + MeetsN(gs.g2.Tested(), nCount) + MeetsN(gs.g3.Tested(), nCount)
  }

  /** The highest FAY level with assessments (0 when there are none). */
  function MaxFay(gs: FayGroups): nat {
    if gs.g3.Tested() > 0 then 3 else if gs.g2.Tested() > 0 then 2 else if gs.g1.Tested() > 0 then 1 else 0
  }

  /** Second pass: with one group meeting the N-count every assessment goes
      to the 1-year group; with two of them, one being the 3-year group,
      3 becomes 2 and 2 becomes 1. */
  function Regroup(gs: FayGroups, nCount: nat): FayGroups {
    var groups := GroupsMeetingN(gs, nCount);
    if groups == 1 then FayGroups(Total(gs), LevelCounts(0, 0, 0, 0), LevelCounts(0, 0, 0, 0))
    else if groups == 2 && MaxFay(gs) == 3 then FayGroups(Add(gs.g1, gs.g2), gs.g3, LevelCounts(0, 0, 0, 0))
    else gs
  }

  /** Regrouping moves assessments between groups and loses none. */
  lemma RegroupTotal(gs: FayGroups, nCount: nat)
    ensures Total(Regroup(gs, nCount)) == Total(gs)
  {
    var groups := GroupsMeetingN(gs, nCount);
    if groups == 1 {
      AddNone(Total(gs));
      AddNone(Add(Total(gs), LevelCounts(0, 0, 0, 0)));
    } else if groups == 2 && MaxFay(gs) == 3 {
      AddNone(Total(gs));
    }
  }

  /** The FAY groups stability points are computed from. */
  function Collapse(gs: FayGroups, nCount: nat): FayGroups {
    Regroup(FoldSmall(gs, nCount), nCount)
  }

  /** Collapsing keeps every FAY-tested assessment: the total over the
      collapsed groups is the school's total. */
  lemma CollapseTotal(gs: FayGroups, nCount: nat)
    ensures Total(Collapse(gs, nCount)) == Total(gs)
  {
    FoldSmallTotal(gs, nCount);
    RegroupTotal(FoldSmall(gs, nCount), nCount);
  }

  /** Number of FAY groups with assessments. */
  function Levels(gs: FayGroups): nat {
    (if gs.g1.Tested() > 0 then 1 else 0) + (if gs.g2.Tested() > 0 then 1 else 0) + (if gs.g3.Tested() > 0 then 1 else 0)
  }

  /** The groups with assessments are the first `Levels` ones, and when there
      is more than one group each meets the doubled N-count. */
  predicate ShapedSizes(a: nat, b: nat, c: nat, nCount: nat) {
    (b > 0 ==> a > 0) && (c > 0 ==> b > 0)
    && ((b > 0) ==> a >= 2 * nCount && b >= 2 * nCount && (c == 0 || c >= 2 * nCount))
  }

  predicate WellShaped(r: FayGroups, nCount: nat) {
    ShapedSizes(r.g1.Tested(), r.g2.Tested(), r.g3.Tested(), nCount)
  }

  lemma RegroupAllToOne(s: FayGroups, nCount: nat)
    requires GroupsMeetingN(s, nCount) == 1
    ensures WellShaped(Regroup(s, nCount), nCount)
  {
    assert Regroup(s, nCount) == FayGroups(Total(s), LevelCounts(0, 0, 0, 0), LevelCounts(0, 0, 0, 0));
  }

  lemma ShiftSizes(a: nat, b: nat, c: nat, nCount: nat)
    requires c == 0 || c >= 2 * nCount
    requires b == 0 || b >= 2 * nCount
    requires MeetsN(a, nCount) + MeetsN(b, nCount) + MeetsN(c, nCount) == 2 && c > 0
    ensures ShapedSizes(a + b, c, 0, nCount)
  {
  }

  lemma RegroupShiftDown(s: FayGroups, nCount: nat)
    requires s.g3.Tested() == 0 || s.g3.Tested() >= 2 * nCount
    requires s.g2.Tested() == 0 || s.g2.Tested() >= 2 * nCount
    requires GroupsMeetingN(s, nCount) == 2 && MaxFay(s) == 3
    ensures WellShaped(Regroup(s, nCount), nCount)
  {
    RegroupShifted(s, nCount);
    ShiftedSizes(s, nCount);
    ShapeOfSizes(Regroup(s, nCount), s.g1.Tested() + s.g2.Tested(), s.g3.Tested(), 0, nCount);
  }

  lemma ShiftedSizes(s: FayGroups, nCount: nat)
    requires s.g3.Tested() == 0 || s.g3.Tested() >= 2 * nCount
    requires s.g2.Tested() == 0 || s.g2.Tested() >= 2 * nCount
    requires GroupsMeetingN(s, nCount) == 2 && MaxFay(s) == 3
    ensures ShapedSizes(s.g1.Tested() + s.g2.Tested(), s.g3.Tested(), 0, nCount)
  {
    ShiftSizes(s.g1.Tested(), s.g2.Tested(), s.g3.Tested(), nCount);
  }

  lemma RegroupShifted(s: FayGroups, nCount: nat)
    requires GroupsMeetingN(s, nCount) == 2 && MaxFay(s) == 3
    ensures Regroup(s, nCount).g1.Tested() == s.g1.Tested() + s.g2.Tested()
    ensures Regroup(s, nCount).g2.Tested() == s.g3.Tested() && Regroup(s, nCount).g3.Tested() == 0
  {
  }

  lemma ShapeOfSizes(r: FayGroups, a: nat, b: nat, c: nat, nCount: nat)
    requires r.g1.Tested() == a && r.g2.Tested() == b && r.g3.Tested() == c
    requires ShapedSizes(a, b, c, nCount)
    ensures WellShaped(r, nCount)
  {
  }

  lemma KeepSizes(a: nat, b: nat, c: nat, nCount: nat)
    requires c == 0 || c >= 2 * nCount
    requires b == 0 || b >= 2 * nCount
    requires MeetsN(a, nCount) + MeetsN(b, nCount) + MeetsN(c, nCount) != 1
    requires MeetsN(a, nCount) + MeetsN(b, nCount) + MeetsN(c, nCount) == 2 ==> c == 0
    ensures ShapedSizes(a, b, c, nCount)
  {
  }

  lemma RegroupShape(s: FayGroups, nCount: nat)
    requires s.g3.Tested() == 0 || s.g3.Tested() >= 2 * nCount
    requires s.g2.Tested() == 0 || s.g2.Tested() >= 2 * nCount
    ensures WellShaped(Regroup(s, nCount), nCount)
  {
    var groups := GroupsMeetingN(s, nCount);
    if groups == 1 {
      RegroupAllToOne(s, nCount);
    } else if groups == 2 && MaxFay(s) == 3 {
      RegroupShiftDown(s, nCount);
    } else {
      assert Regroup(s, nCount) == s;
      KeepSizes(s.g1.Tested(), s.g2.Tested(), s.g3.Tested(), nCount);
    }
  }

  /** Collapsing always leaves well-shaped FAY groups. */
  lemma CollapseShape(gs: FayGroups, nCount: nat)
    ensures WellShaped(Collapse(gs, nCount), nCount)
  {
    FoldSmallBounds(gs, nCount);
    RegroupShape(FoldSmall(gs, nCount), nCount);
  }

  function StabilityWeight(levels: nat, k: nat): real {
    StateConfig.StabilityWeight(levels, k)
  }

  lemma RegularPointsValue(counts: LevelCounts, info: TestedInfo, m: StateConfig.StateModel, nCount: nat)
    requires RegularPoints(counts, info, m, nCount).Some?
    ensures RegularPoints(counts, info, m, nCount).value
            == CappedShare(PercentProficient(counts).value * Multiplier(info).value, StateConfig.WeightOrZero(m, StateConfig.Proficiency))
  {
    Numeric.MulNonnegative(PercentProficient(counts).value, Multiplier(info).value);
  }

  /** Stability-weighted percent proficient: the levels' percents weighted
      by the stability weights of the number of levels, over 30 (a missing
      level counts 0). */
  function StabilityPercent(gs: FayGroups): (pct: real)
    ensures pct >= 0.0
    ensures pct * 30.0 == StabilityWeight(Levels(gs), 1) * PercentProficient(gs.g1).GetOr(0.0)
                          + StabilityWeight(Levels(gs), 2) * PercentProficient(gs.g2).GetOr(0.0)
                          + StabilityWeight(Levels(gs), 3) * PercentProficient(gs.g3).GetOr(0.0)
  {
    var l := Levels(gs);
    WeightedOver30(StabilityWeight(l, 1), StabilityWeight(l, 2), StabilityWeight(l, 3),
                   PercentProficient(gs.g1).GetOr(0.0), PercentProficient(gs.g2).GetOr(0.0), PercentProficient(gs.g3).GetOr(0.0))
  }

  /** Three weighted values over 30. */
  function WeightedOver30(w1: real, w2: real, w3: real, a: real, b: real, c: real): (r: real)
    requires 0.0 <= w1 && 0.0 <= w2 && 0.0 <= w3 && 0.0 <= a && 0.0 <= b && 0.0 <= c
    ensures r >= 0.0
    ensures r * 30.0 == w1 * a + w2 * b + w3 * c
  {
    Numeric.MulNonnegative(w1, a);
    Numeric.MulNonnegative(w2, b);
    Numeric.MulNonnegative(w3, c);
    (w1 * a + w2 * b + w3 * c) / 30.0
  }

  /** With one level the stability percent is that level's percent. */
  lemma SingleLevelPercent(gs: FayGroups)
    requires Levels(gs) == 1 && gs.g1.Tested() > 0
    ensures StabilityPercent(gs) == PercentProficient(gs.g1).value
  {
  }

  /** When the groups with assessments come first and all have the same
      percent proficient, the stability percent is that percent: the
      weights of the present levels add up to 30. */
  lemma UniformStabilityPercent(gs: FayGroups, p: real)
    requires Levels(gs) > 0
    requires (gs.g2.Tested() > 0 ==> gs.g1.Tested() > 0) && (gs.g3.Tested() > 0 ==> gs.g2.Tested() > 0)
    requires gs.g1.Tested() > 0 ==> PercentProficient(gs.g1) == Some(p)
    requires gs.g2.Tested() > 0 ==> PercentProficient(gs.g2) == Some(p)
    requires gs.g3.Tested() > 0 ==> PercentProficient(gs.g3) == Some(p)
    ensures StabilityPercent(gs) == p
  {
    var l := Levels(gs);
    var w1, w2, w3 := StabilityWeight(l, 1), StabilityWeight(l, 2), StabilityWeight(l, 3);
    var a, b, c := PercentProficient(gs.g1).GetOr(0.0), PercentProficient(gs.g2).GetOr(0.0), PercentProficient(gs.g3).GetOr(0.0);
    assert w1 + w2 + w3 == 30.0 && (w1 == 0.0 || a == p) && (w2 == 0.0 || b == p) && (w3 == 0.0 || c == p) by {
      StateConfig.StabilityWeightsSum(l);
    }
    UniformWeighted(w1, w2, w3, a, b, c, p);
    assert StabilityPercent(gs) * 30.0 == p * 30.0;
  }

  /** Weights adding up to 30 on values that equal `p` wherever the weight
      is not 0 give 30 times `p`. */
  lemma UniformWeighted(w1: real, w2: real, w3: real, a: real, b: real, c: real, p: real)
    requires w1 + w2 + w3 == 30.0
    requires (w1 == 0.0 || a == p) && (w2 == 0.0 || b == p) && (w3 == 0.0 || c == p)
    ensures w1 * a + w2 * b + w3 * c == 30.0 * p
  {
    assert w1 * a == w1 * p && w2 * b == w2 * p && w3 * c == w3 * p;
    assert w1 * p + w2 * p + w3 * p == (w1 + w2 + w3) * p;
  }

  /** Stability points: the stability percent times the multiplier over 100
      times the k-8 weight of 30, clamped to [0, 30]. */
  function StabilityPoints(gs: FayGroups, mult: real): (points: real)
    ensures 0.0 <= points <= 30.0
  {
    StabilityShare(StabilityPercent(gs), mult)
  }

  function StabilityShare(pct: real, mult: real): (points: real)
    ensures 0.0 <= points <= 30.0
  {
    var x := pct * mult / 100.0 * 30.0;
    var capped := if 30.0 < x then 30.0 else x;
    if capped < 0.0 then 0.0 else capped
  }

  /** The k-8 proficiency score: the better of regular and stability points;
      none when regular points are none (below the N-count). */
  function K8Score(regular: Option<real>, stability: real): (score: Option<real>)
    ensures score.Some? <==> regular.Some?
    ensures score.Some? ==> score.value >= regular.value && score.value >= stability
    ensures score.Some? ==> score.value == regular.value || score.value == stability
  {
    if regular.None? then None
    else Some(if regular.value < stability then stability else regular.value)
  }

  /** The k-8 proficiency score from a school's FAY-tested assessments
      `total`, the same assessments in collapsed FAY groups, and its testing
      data: regular points from `total`, stability points from the groups. */
  function K8Points(total: LevelCounts, collapsed: FayGroups, info: TestedInfo, nCount: nat): (score: Option<real>)
    ensures score.Some? <==> RegularPoints(total, info, StateConfig.K8, nCount).Some?
    ensures score.Some? ==> 0.0 <= score.value <= 30.0
    ensures score.Some? ==> score.value >= RegularPoints(total, info, StateConfig.K8, nCount).value
  {
    var regular := RegularPoints(total, info, StateConfig.K8, nCount);
    if regular.None? then None
    else
      var stability := StabilityPoints(collapsed, Multiplier(info).value);
      assert StateConfig.WeightOrZero(StateConfig.K8, StateConfig.Proficiency) == 30.0;
      K8Score(regular, stability)
  }

  /** The k-8 proficiency score of a school from its FAY groups: none below
      the N-count, otherwise within the weight of 30 and never below the
      regular points. */
  function SchoolK8Points(gs: FayGroups, info: TestedInfo, nCount: nat): (score: Option<real>)
    ensures score.Some? <==> RegularPoints(Total(gs), info, StateConfig.K8, nCount).Some?
    ensures score.Some? ==> 0.0 <= score.value <= 30.0
    ensures score.Some? ==> score.value >= RegularPoints(Total(gs), info, StateConfig.K8, nCount).value
  {
    K8Points(Total(gs), Collapse(gs, nCount), info, nCount)
  }

  /** The stability formula with a single level is the regular formula:
      both are the multiplied percent over 100 of 30, capped at 30. */
  lemma StabilityMatchesShare(pct: real, mult: real)
    requires 0.0 <= pct && 0.0 <= mult
    ensures StabilityShare(pct, mult) == CappedShare(pct * mult, 30.0)
  {
  }

  lemma K8PointsValue(total: LevelCounts, collapsed: FayGroups, info: TestedInfo, nCount: nat)
    requires RegularPoints(total, info, StateConfig.K8, nCount).Some?
    ensures K8Points(total, collapsed, info, nCount)
            == K8Score(RegularPoints(total, info, StateConfig.K8, nCount), StabilityPoints(collapsed, Multiplier(info).value))
  {
  }

  /** With a single collapsed FAY level the stability alternative reproduces
      the regular points: the k-8 score is the regular score. */
  lemma SingleLevelMatchesRegular(gs: FayGroups, info: TestedInfo, nCount: nat)
    requires Levels(Collapse(gs, nCount)) == 1
    requires RegularPoints(Total(gs), info, StateConfig.K8, nCount).Some?
    ensures SchoolK8Points(gs, info, nCount) == RegularPoints(Total(gs), info, StateConfig.K8, nCount)
  {
    var r := Collapse(gs, nCount);
    CollapseShape(gs, nCount);
    CollapseTotal(gs, nCount);
    SingleGroupIsTotal(r);
    K8SingleLevel(Total(gs), r, info, nCount);
  }

  lemma K8SingleLevel(total: LevelCounts, collapsed: FayGroups, info: TestedInfo, nCount: nat)
    requires collapsed.g1 == total && collapsed.g2.Tested() == 0 && collapsed.g3.Tested() == 0
    requires RegularPoints(total, info, StateConfig.K8, nCount).Some?
    ensures K8Points(total, collapsed, info, nCount) == RegularPoints(total, info, StateConfig.K8, nCount)
  {
    var mult := Multiplier(info).value;
    var pct := PercentProficient(total).value;
    var regular := RegularPoints(total, info, StateConfig.K8, nCount);
    var stability := StabilityPoints(collapsed, mult);
    assert stability == StabilityShare(pct, mult) by {
      assert Levels(collapsed) == 1;
      SingleLevelPercent(collapsed);
    }
    assert regular.value == stability by {
      StabilityMatchesShare(pct, mult);
      RegularPointsValue(total, info, StateConfig.K8, nCount);
      assert StateConfig.WeightOrZero(StateConfig.K8, StateConfig.Proficiency) == 30.0;
    }
    K8PointsValue(total, collapsed, info, nCount);
    K8ScoreOfEqual(regular, stability);
  }

  lemma K8ScoreOfEqual(regular: Option<real>, stability: real)
    requires regular.Some? && regular.value == stability
    ensures K8Score(regular, stability) == regular
  {
  }

  /** When only the 1-year group has assessments it holds the whole total. */
  lemma SingleGroupIsTotal(r: FayGroups)
    requires r.g2.Tested() == 0 && r.g3.Tested() == 0
    ensures Total(r) == r.g1
  {
    EmptyIsNone(r.g2);
    EmptyIsNone(r.g3);
    AddNone(r.g1);
  }
}
