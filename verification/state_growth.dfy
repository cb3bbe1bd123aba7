/** The state Growth indicator (k-8 only: it is the one model with a Growth
    weight): each usable record falls in a growth band, its prior-year
    performance level by its current-year SGP category; a subject earns the
    band-weighted percent of its records times half the Growth weight,
    capped at 100 times that half weight, and a school's growth points are
    its ELA and Math points, none below the N-count. */
module StateGrowth {
  import opened Wrappers
  import Numeric
  import StateConfig

  /** One static-file record, reduced to what the Growth indicator reads. */
  datatype GrowthRecord = GrowthRecord(
    student: int, school: int, grade: int, cohort: Option<int>, subject: string,
    fay: int, admIntegrity: bool, sgpCategory: Option<int>, priorPerformance: Option<int>)

  /** Half of a model's Growth weight over 100 (one half per subject); none
      for models without a Growth weight. */
  function HalfWeight(m: StateConfig.StateModel): (hw: Option<real>)
    ensures hw.Some? <==> StateConfig.Weight(m, StateConfig.Growth).Some?
    ensures hw.Some? ==> hw.value * 200.0 == StateConfig.Weight(m, StateConfig.Growth).value
  {
    var w := StateConfig.Weight(m, StateConfig.Growth);
    if w.Some? then Some(w.value / (100.0 * 2.0)) else None
  }

  /** Only the k-8 model scores growth, with half weight 0.25. */
  lemma OnlyK8ScoresGrowth(m: StateConfig.StateModel)
    ensures HalfWeight(m).Some? <==> m == StateConfig.K8
    ensures HalfWeight(StateConfig.K8) == Some(0.25)
  {
  }

  /** Grades of each model's growth grade map. */
  function GrowthGrades(m: StateConfig.StateModel): set<int> {
    match m
    case K8 => {4, 5, 6, 7, 8}
    case HS => {11}
    case AltHS => {}
  }

  /** The grade a record is filed under: grade 11 becomes 111, and then every
      record of the ACT cohort becomes grade 11, whatever its recorded grade. */
  function GrowthGrade(grade: int, cohort: Option<int>, fiscalYear: int): int {
    var g := if grade == 11 then 111 else grade;
    if cohort == Some(StateConfig.CyActCohort(fiscalYear)) then 11 else g
  }

  /** Grade 11 is kept only for the ACT cohort, and an ACT-cohort record is
      filed as grade 11 whatever its grade, so it leaves the k-8 model. */
  lemma GrowthGradeRules(grade: int, cohort: Option<int>, fiscalYear: int)
    ensures GrowthGrade(grade, cohort, fiscalYear) == 11 <==> cohort == Some(StateConfig.CyActCohort(fiscalYear))
    ensures cohort != Some(StateConfig.CyActCohort(fiscalYear)) && grade != 11 ==> GrowthGrade(grade, cohort, fiscalYear) == grade
    ensures cohort == Some(StateConfig.CyActCohort(fiscalYear)) ==> GrowthGrade(grade, cohort, fiscalYear) !in GrowthGrades(StateConfig.K8)
  {
  }

  /** Records the indicator reads: ADM integrity, FAY, a growth subject and
      an SGP category. */
  predicate Usable(r: GrowthRecord) {
    r.admIntegrity && r.fay > 0 && (r.subject == "Math" || r.subject == "ELA") && r.sgpCategory.Some?
  }

  /** Usable records whose growth grade is in model `m`'s grade map. */
  predicate InModel(r: GrowthRecord, m: StateConfig.StateModel, fiscalYear: int) {
    Usable(r) && GrowthGrade(r.grade, r.cohort, fiscalYear) in GrowthGrades(m)
  }

  function ModelRecords(recs: seq<GrowthRecord>, m: StateConfig.StateModel, fiscalYear: int): (out: seq<GrowthRecord>)
    ensures |out| <= |recs|
    ensures forall i :: 0 <= i < |out| ==> InModel(out[i], m, fiscalYear) && out[i] in recs
    ensures forall i :: 0 <= i < |recs| && InModel(recs[i], m, fiscalYear) ==> recs[i] in out
  {
    if |recs| == 0 then []
    else
      var rest := ModelRecords(recs[1..], m, fiscalYear);
      assert forall i :: 1 <= i < |recs| ==> recs[i] == recs[1..][i - 1];
      if InModel(recs[0], m, fiscalYear) then [recs[0]] + rest else rest
  }

  function SubjectRecords(recs: seq<GrowthRecord>, subject: string): (out: seq<GrowthRecord>)
    ensures |out| <= |recs|
    ensures forall i :: 0 <= i < |out| ==> out[i].subject == subject
  {
    if |recs| == 0 then []
    else
      var rest := SubjectRecords(recs[1..], subject);
      if recs[0].subject == subject then [recs[0]] + rest else rest
  }

  /** The distinct students of a school's model records (`FAYSGPStudentCount`). */
  function Students(recs: seq<GrowthRecord>): set<int> {
    set i | 0 <= i < |recs| :: recs[i].student
  }

  /** A record lies in a growth band when its prior-year level (1..4) and its
      SGP category (0..2) are both known; other records are in no band and
      in no band's denominator. */
  predicate Banded(r: GrowthRecord) {
    r.priorPerformance.Some? && 1 <= r.priorPerformance.value <= 4
    && r.sgpCategory.Some? && 0 <= r.sgpCategory.value <= 2
  }

  function RecordWeight(r: GrowthRecord): (w: real)
    requires Banded(r)
    ensures 0.0 <= w <= 2.0
  {
    StateConfig.GrowthBandWeight(r.priorPerformance.value, r.sgpCategory.value)
  }

  function BandedCount(recs: seq<GrowthRecord>): (n: nat)
    ensures n <= |recs|
  {
    if |recs| == 0 then 0 else (if Banded(recs[0]) then 1 else 0) + BandedCount(recs[1..])
  }

  /** Sum of the band weights of the banded records. */
  function WeightTotal(recs: seq<GrowthRecord>): real {
    if |recs| == 0 then 0.0 else (if Banded(recs[0]) then RecordWeight(recs[0]) else 0.0) + WeightTotal(recs[1..])
  }

  /** Band weights lie in [0, 2], so their sum lies in [0, 2n] for n banded
      records. */
  lemma {:induction false} WeightTotalWithin(recs: seq<GrowthRecord>)
    ensures 0.0 <= WeightTotal(recs) <= 2.0 * BandedCount(recs) as real
  {
    if |recs| > 0 {
      WeightTotalWithin(recs[1..]);
    }
  }

  /** The twelve growth bands, as (prior level, SGP category). */
  const Bands: seq<(int, int)> := [
    (1, 0), (1, 1), (1, 2), (2, 0), (2, 1), (2, 2),
    (3, 0), (3, 1), (3, 2), (4, 0), (4, 1), (4, 2)]

  predicate ValidBand(b: (int, int)) {
    1 <= b.0 <= 4 && 0 <= b.1 <= 2
  }

  /** The list holds each of the twelve bands exactly once. */
  lemma BandsFacts()
    ensures forall k :: 0 <= k < |Bands| ==> ValidBand(Bands[k])
    ensures forall j, k :: 0 <= j < k < |Bands| ==> Bands[j] != Bands[k]
    ensures forall b :: ValidBand(b) ==> b in Bands
  {
    assert forall k :: 0 <= k < |Bands| ==> Bands[k] == (k / 3 + 1, k % 3);
    forall b | ValidBand(b) ensures b in Bands {
      assert Bands[(b.0 - 1) * 3 + b.1] == b;
    }
  }

  /** The weight of a band (0 for a pair that is not a band). */
  function BandWeight(b: (int, int)): real {
    if ValidBand(b) then StateConfig.GrowthBandWeight(b.0, b.1) else 0.0
  }

  predicate InBand(r: GrowthRecord, b: (int, int)) {
    r.priorPerformance == Some(b.0) && r.sgpCategory == Some(b.1)
  }

  function BandCount(recs: seq<GrowthRecord>, b: (int, int)): nat {
    if |recs| == 0 then 0 else (if InBand(recs[0], b) then 1 else 0) + BandCount(recs[1..], b)
  }

  /** Each band of a list with its count, as a real, and its weight. */
  function Terms(recs: seq<GrowthRecord>, bands: seq<(int, int)>): (ts: seq<(real, real)>)
    ensures |ts| == |bands|
  {
    if |bands| == 0 then [] else [(BandCount(recs, bands[0]) as real, BandWeight(bands[0]))] + Terms(recs, bands[1..])
  }

  /** Counts times weights, summed. */
  function Dot(ts: seq<(real, real)>): real {
    if |ts| == 0 then 0.0 else ts[0].0 * ts[0].1 + Dot(ts[1..])
  }

  /** Each count as a percent of `n`, times its weight, summed. */
  function PercentDot(ts: seq<(real, real)>, n: real): real
    requires n > 0.0
  {
    if |ts| == 0 then 0.0 else ts[0].0 / n * 100.0 * ts[0].1 + PercentDot(ts[1..], n)
  }

  lemma ScaleStep(c: real, n: real, w: real, rest: real, restCounts: real)
    requires n > 0.0 && rest * n == restCounts * 100.0
    ensures (c / n * 100.0 * w + rest) * n == (c * w + restCounts) * 100.0
  {
    assert c / n * n == c;
    assert c / n * 100.0 * w * n == c * w * 100.0;
  }

  lemma {:induction false} PercentDotScales(ts: seq<(real, real)>, n: real)
    requires n > 0.0
    ensures PercentDot(ts, n) * n == Dot(ts) * 100.0
  {
    if |ts| > 0 {
      PercentDotScales(ts[1..], n);
      ScaleStep(ts[0].0, n, ts[0].1, PercentDot(ts[1..], n), Dot(ts[1..]));
    }
  }

  /** The percent of the banded records in each band, times the band's
      weight, summed over the bands (`BandsSum`): the indicator's formula. */
  function BandsSum(recs: seq<GrowthRecord>): real
    requires BandedCount(recs) > 0
  {
    PercentDot(Terms(recs, Bands), BandedCount(recs) as real)
  }

  /** Band counts times band weights, summed over a list of bands. */
  function WeightedCounts(recs: seq<GrowthRecord>, bands: seq<(int, int)>): real {
    Dot(Terms(recs, bands))
  }

  lemma WeightedCountsUnfold(recs: seq<GrowthRecord>, bands: seq<(int, int)>)
    requires |bands| > 0
    ensures WeightedCounts(recs, bands) == BandCount(recs, bands[0]) as real * BandWeight(bands[0]) + WeightedCounts(recs, bands[1..])
  {
    assert Terms(recs, bands)[1..] == Terms(recs, bands[1..]);
  }

  /** A record adds its weight to the weighted counts of a list of distinct
      bands holding its band, and nothing to one that does not. */
  lemma {:induction false} WeightedCountsCons(r: GrowthRecord, recs: seq<GrowthRecord>, bands: seq<(int, int)>)
    requires forall j, k :: 0 <= j < k < |bands| ==> bands[j] != bands[k]
    ensures Banded(r) && (r.priorPerformance.value, r.sgpCategory.value) in bands ==>
              WeightedCounts([r] + recs, bands) == WeightedCounts(recs, bands) + RecordWeight(r)
    ensures !(Banded(r) && (r.priorPerformance.value, r.sgpCategory.value) in bands) ==>
              WeightedCounts([r] + recs, bands) == WeightedCounts(recs, bands)
  {
    if |bands| > 0 {
      assert ([r] + recs)[1..] == recs;
      WeightedCountsUnfold([r] + recs, bands);
      WeightedCountsUnfold(recs, bands);
      WeightedCountsCons(r, recs, bands[1..]);
      if InBand(r, bands[0]) && Banded(r) {
        assert (r.priorPerformance.value, r.sgpCategory.value) !in bands[1..] by {
          forall k | 0 <= k < |bands[1..]| ensures bands[1..][k] != bands[0] {
            assert bands[1..][k] == bands[k + 1];
          }
        }
      }
    }
  }

  /** The band formula regroups the records: weighting each band's count by
      the band's weight is summing the records' own weights. */
  lemma {:induction false} WeightTotalByBands(recs: seq<GrowthRecord>, bands: seq<(int, int)>)
    requires forall j, k :: 0 <= j < k < |bands| ==> bands[j] != bands[k]
    requires forall b :: ValidBand(b) ==> b in bands
    ensures WeightTotal(recs) == WeightedCounts(recs, bands)
  {
    if |recs| > 0 {
      WeightTotalByBands(recs[1..], bands);
      if Banded(recs[0]) {
        assert ValidBand((recs[0].priorPerformance.value, recs[0].sgpCategory.value));
      }
      assert [recs[0]] + recs[1..] == recs;
      WeightedCountsCons(recs[0], recs[1..], bands);
    } else {
      WeightedCountsEmpty(recs, bands);
    }
  }

  lemma {:induction false} WeightedCountsEmpty(recs: seq<GrowthRecord>, bands: seq<(int, int)>)
    requires |recs| == 0
    ensures WeightedCounts(recs, bands) == 0.0
  {
    if |bands| > 0 {
      WeightedCountsUnfold(recs, bands);
      WeightedCountsEmpty(recs, bands[1..]);
    }
  }

  /** `BandsSum` is 100 times the mean band weight of the banded records. */
  lemma BandsSumIsMeanWeight(recs: seq<GrowthRecord>)
    requires BandedCount(recs) > 0
    ensures HundredTimesMean(BandsSum(recs), WeightTotal(recs), BandedCount(recs) as real)
  {
    BandsSumUnfold(recs);
    WeightTotalIsDot(recs);
    ScaledDot(Terms(recs, Bands), BandedCount(recs) as real, BandsSum(recs), WeightTotal(recs));
  }

  lemma BandsSumUnfold(recs: seq<GrowthRecord>)
    requires BandedCount(recs) > 0
    ensures BandsSum(recs) == PercentDot(Terms(recs, Bands), BandedCount(recs) as real)
  {
  }

  /** `x` is 100 times the mean `t / n`, stated without division. */
  predicate HundredTimesMean(x: real, t: real, n: real) {
    x * n == t * 100.0
  }

  lemma ScaledDot(ts: seq<(real, real)>, n: real, x: real, w: real)
    requires n > 0.0 && x == PercentDot(ts, n) && w == Dot(ts)
    ensures HundredTimesMean(x, w, n)
  {
    PercentDotScales(ts, n);
  }

  /** Over all nine bands the weighted counts are the weight total. */
  lemma WeightTotalIsDot(recs: seq<GrowthRecord>)
    ensures WeightTotal(recs) == Dot(Terms(recs, Bands))
  {
    BandsFacts();
    WeightTotalByBands(recs, Bands);
  }

  /** `v` is the capped points of `n` banded records whose band weights sum
      to `t`, at half weight `hw`: it lies in 0..100 times the half weight,
      reaches the cap exactly when the mean band weight `t / n` reaches 1, and
      below that is 100 times the mean band weight times the half weight. */
  predicate CapsMean(v: real, n: real, t: real, hw: real) {
    0.0 <= v <= hw * 100.0
    && (v == hw * 100.0 <==> t >= n)
    && (t < n ==> v * n == t * 100.0 * hw)
  }

  /** Points of one subject of a school: the band formula times the half
      weight, capped at 100 times the half weight; none when the subject has
      no banded record (the school has no row for it). */
  function SubjectPoints(recs: seq<GrowthRecord>, hw: real): (points: Option<real>)
    requires hw > 0.0
    ensures points.None? <==> BandedCount(recs) == 0
    ensures points.Some? ==> CapsMean(points.value, BandedCount(recs) as real, WeightTotal(recs), hw)
  {
    if BandedCount(recs) == 0 then None
    else
      BandsSumIsMeanWeight(recs);
      WeightTotalWithin(recs);
      CappedAgainstMean(BandsSum(recs), BandedCount(recs) as real, WeightTotal(recs), hw);
      Some(Capped(BandsSum(recs), hw))
  }

  /** The band formula times the half weight, capped at 100 times it. */
  function Capped(s: real, hw: real): real {
    if s * hw > hw * 100.0 then hw * 100.0 else s * hw
  }

  /** The capped band formula `s`, 100 times the mean band weight `t / n`,
      caps the mean. */
  lemma CappedAgainstMean(s: real, n: real, t: real, hw: real)
    requires n > 0.0 && hw > 0.0 && 0.0 <= t && HundredTimesMean(s, t, n)
    ensures CapsMean(Capped(s, hw), n, t, hw)
  {
    CapAgainstMean(s, n, t, hw);
  }

  lemma CapAgainstMean(s: real, n: real, t: real, hw: real)
    requires n > 0.0 && hw > 0.0 && 0.0 <= t && s * n == t * 100.0
    ensures s * hw >= 0.0
    ensures s * hw >= hw * 100.0 <==> t >= n
    ensures (s * hw) * n == t * 100.0 * hw
  {
    assert (s * hw) * n == (s * n) * hw;
    assert s == t * 100.0 / n;
    Numeric.RealDivMonotone(0.0, t * 100.0, n);
    Numeric.RealMulMonotone(0.0, s, hw);
    Numeric.RatioAgainstOne(s / 100.0, n, t);
    Numeric.RatioAgainstOne(s / 100.0, hw * 100.0, s * hw);
  }

  /** A school's growth points by subject and in total. */
  datatype SchoolPoints = SchoolPoints(ela: Option<real>, math: Option<real>, total: Option<real>)

  const NoPoints := SchoolPoints(None, None, None)

  /** Growth points of one school's records for model `m`: a subject without
      banded records counts 0 when the other subject has some; every column
      is none when neither has, when the model has no Growth weight, or when
      fewer than `nCount` distinct students have model records. */
  function SchoolGrowth(recs: seq<GrowthRecord>, m: StateConfig.StateModel, fiscalYear: int, nCount: nat): (g: SchoolPoints)
    ensures g.total.Some? <==>
              HalfWeight(m).Some? && |Students(ModelRecords(recs, m, fiscalYear))| >= nCount
              && (BandedCount(SubjectRecords(ModelRecords(recs, m, fiscalYear), "ELA")) > 0
                  || BandedCount(SubjectRecords(ModelRecords(recs, m, fiscalYear), "Math")) > 0)
    ensures g.ela.Some? <==> g.total.Some?
    ensures g.math.Some? <==> g.total.Some?
    ensures g.total.Some? ==> g.total.value == g.ela.value + g.math.value
    ensures g.total.Some? ==> 0.0 <= g.total.value <= StateConfig.WeightOrZero(m, StateConfig.Growth)
    ensures g.ela.Some? && BandedCount(SubjectRecords(ModelRecords(recs, m, fiscalYear), "ELA")) == 0 ==> g.ela.value == 0.0
    ensures g.math.Some? && BandedCount(SubjectRecords(ModelRecords(recs, m, fiscalYear), "Math")) == 0 ==> g.math.value == 0.0
  {
    var hw := HalfWeight(m);
    if hw.None? then NoPoints
    else
      var sel := ModelRecords(recs, m, fiscalYear);
      var ela := SubjectPoints(SubjectRecords(sel, "ELA"), hw.value);
      var math := SubjectPoints(SubjectRecords(sel, "Math"), hw.value);
      if ela.None? && math.None? then NoPoints
      else if |Students(sel)| < nCount then NoPoints
      else
        var e := ela.GetOr(0.0);
        var a := math.GetOr(0.0);
        SchoolPoints(Some(e), Some(a), Some(e + a))
  }

  function Record(student: int, subject: string, prior: int, category: int): GrowthRecord {
    GrowthRecord(student, 1, 5, None, subject, 1, true, Some(category), Some(prior))
  }

  /** A subject whose one student was minimally proficient and shows high
      growth (band weight 2) reaches the cap of 25 points. */
  lemma HighGrowthCapped()
    ensures SubjectPoints([Record(1, "ELA", 1, 2)], 0.25) == Some(25.0)
  {
    var rs := [Record(1, "ELA", 1, 2)];
    assert rs[1..] == [];
    assert BandedCount(rs) == 1;
    assert WeightTotal(rs) == 2.0;
  }

  /** Average growth has band weight 1 at every prior level: exactly the cap. */
  lemma AverageGrowthAtCap()
    ensures SubjectPoints([Record(1, "ELA", 3, 1)], 0.25) == Some(25.0)
  {
    var rs := [Record(1, "ELA", 3, 1)];
    assert rs[1..] == [];
    assert BandedCount(rs) == 1;
    assert WeightTotal(rs) == 1.0;
  }

  /** Low growth has band weight 0: no points. */
  lemma LowGrowthScoresZero()
    ensures SubjectPoints([Record(1, "ELA", 2, 0)], 0.25) == Some(0.0)
  {
    var rs := [Record(1, "ELA", 2, 0)];
    assert rs[1..] == [];
    assert BandedCount(rs) == 1;
    assert WeightTotal(rs) == 0.0;
    var points := SubjectPoints(rs, 0.25);
    assert points.value * 1.0 == 0.0 * 100.0 * 0.25;
  }
}
