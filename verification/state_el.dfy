/** The state EL Proficiency and Growth indicator: EL-FAY records are
    de-duplicated per (student, school), split into the k-8 and 9-12 models,
    and each school earns 0-5 proficiency and 0-5 growth points against the
    statewide reference statistics (strict fences, rounded comparisons). */
module StateEl {
  import opened Wrappers
  import opened Nullable
  import Dedup
  import Seqs
  import ElBanding
  import StateConfig

  /** One static-file record, reduced to what the state EL indicator reads. */
  datatype ElRecord = ElRecord(
    student: int, school: int, grade: int,
    el: bool, elFay: bool, admIntegrity: bool,
    elProf: Option<int>, elGrowth: Option<nat>, elTested: nat)

  predicate Eligible(r: ElRecord) {
    r.admIntegrity && r.el && r.elFay
  }

  function StudentAtSchool(r: ElRecord): (int, int) {
    (r.student, r.school)
  }

  function Rank(r: ElRecord): (int, int) {
    (r.grade, r.elProf.GetOr(-1))
  }

  function Eligibles(rs: seq<ElRecord>): (out: seq<ElRecord>)
    ensures forall i :: 0 <= i < |out| ==> Eligible(out[i]) && out[i] in rs
    ensures forall i :: 0 <= i < |rs| && Eligible(rs[i]) ==> rs[i] in out
  {
    Seqs.Filter(Eligible, rs)
  }

  /** Every eligible record's (student, school) survives the de-duplication. */
  lemma EligiblesKept(rs: seq<ElRecord>)
    ensures forall i :: 0 <= i < |rs| && Eligible(rs[i]) ==>
              Dedup.HasKey(Dedup.KeepBest(Eligibles(rs), StudentAtSchool, Rank), StudentAtSchool, StudentAtSchool(rs[i]))
  {
    var sel := Eligibles(rs);
    forall i | 0 <= i < |rs| && Eligible(rs[i])
      ensures Dedup.HasKey(sel, StudentAtSchool, StudentAtSchool(rs[i]))
    {
      var j :| 0 <= j < |sel| && sel[j] == rs[i];
    }
  }

  /** The kept record of a (student, school) ranks at least as high as every
      eligible record of it. */
  lemma EligiblesRanked(rs: seq<ElRecord>)
    ensures forall k, i :: 0 <= k < |Dedup.KeepBest(Eligibles(rs), StudentAtSchool, Rank)| && 0 <= i < |rs| && Eligible(rs[i]) ==>
              (StudentAtSchool(Dedup.KeepBest(Eligibles(rs), StudentAtSchool, Rank)[k]) == StudentAtSchool(rs[i]) ==>
               Dedup.AtLeast(Rank(Dedup.KeepBest(Eligibles(rs), StudentAtSchool, Rank)[k]), Rank(rs[i])))
  {
    var sel := Eligibles(rs);
    var out := Dedup.KeepBest(sel, StudentAtSchool, Rank);
    forall k, i | 0 <= k < |out| && 0 <= i < |rs| && Eligible(rs[i]) && StudentAtSchool(out[k]) == StudentAtSchool(rs[i])
      ensures Dedup.AtLeast(Rank(out[k]), Rank(rs[i]))
    {
      var j :| 0 <= j < |sel| && sel[j] == rs[i];
      assert Dedup.AtLeast(Rank(out[k]), Rank(sel[j]));
    }
  }

  /** One eligible record per (student, school), the one with the highest
      grade and then the highest EL proficiency level; of records that tie
      on both, the first in file order, as the stable sort and `duplicated`
      keep it. The de-duplication happens before the split into models, so
      a student is scored in the model of their highest grade only. */
  function ElStudents(rs: seq<ElRecord>): (out: seq<ElRecord>)
    ensures forall i :: 0 <= i < |out| ==> Eligible(out[i]) && out[i] in rs
    ensures forall i, j :: 0 <= i < j < |out| ==> StudentAtSchool(out[i]) != StudentAtSchool(out[j])
    ensures forall i :: 0 <= i < |rs| && Eligible(rs[i]) ==> Dedup.HasKey(out, StudentAtSchool, StudentAtSchool(rs[i]))
    ensures forall k, i :: 0 <= k < |out| && 0 <= i < |rs| && Eligible(rs[i]) ==>
              (StudentAtSchool(out[k]) == StudentAtSchool(rs[i]) ==> out[k].grade >= rs[i].grade)
    ensures forall k, i :: 0 <= k < |out| && 0 <= i < |rs| && Eligible(rs[i]) ==>
              (StudentAtSchool(out[k]) == StudentAtSchool(rs[i]) ==> Dedup.AtLeast(Rank(out[k]), Rank(rs[i])))
    ensures forall k :: 0 <= k < |out| ==> Dedup.ChosenIn(rs, Eligible, out[k], StudentAtSchool, Rank)
    ensures forall j :: 0 <= j < |rs| && Dedup.Chosen(rs, Eligible, StudentAtSchool, Rank, j) ==> rs[j] in out
  {
    var out := Dedup.KeepBest(Eligibles(rs), StudentAtSchool, Rank);
    EligiblesKept(rs);
    EligiblesRanked(rs);
    Dedup.KeepBestOfFilter(Eligible, rs, StudentAtSchool, Rank);
    out
  }

  /** The de-duplicated records of one school in the grades of model `m`. */
  function SchoolModelRecords(rs: seq<ElRecord>, school: int, m: StateConfig.StateModel): (out: seq<ElRecord>)
    ensures |out| <= |rs|
    ensures forall i :: 0 <= i < |out| ==> out[i].school == school && out[i].grade in StateConfig.ModelGrades(m)
  {
    if |rs| == 0 then []
    else
      var rest := SchoolModelRecords(rs[1..], school, m);
      if rs[0].school == school && rs[0].grade in StateConfig.ModelGrades(m) then [rs[0]] + rest else rest
  }

  function NumberTested(rs: seq<ElRecord>): nat {
    if |rs| == 0 then 0 else rs[0].elTested + NumberTested(rs[1..])
  }

  /** Percent proficient as a ratio of the tested count (scaled by 100 only
      for display); none when nobody was tested. */
  function PercentProficient(proficient: nat, tested: nat): (pct: Option<real>)
    ensures pct.Some? <==> tested > 0
    ensures pct.Some? ==> pct.value >= 0.0 && pct.value * tested as real == proficient as real
  {
    if tested == 0 then None else Some(proficient as real / tested as real)
  }

  /** Students with a growth record (tested in both windows). */
  function W2Count(rs: seq<ElRecord>): (n: nat)
    ensures n <= |rs|
  {
    if |rs| == 0 then 0 else (if rs[0].elGrowth.Some? then 1 else 0) + W2Count(rs[1..])
  }

  function GrowthNumerator(rs: seq<ElRecord>): nat {
    if |rs| == 0 then 0 else rs[0].elGrowth.GetOr(0) + GrowthNumerator(rs[1..])
  }

  /** Percent growth: average levels gained over the students with a growth
      record, as a ratio; none when no student has one (the school has no
      growth row). */
  function PercentGrowth(rs: seq<ElRecord>): (pct: Option<real>)
    ensures pct.Some? <==> W2Count(rs) > 0
    ensures pct.Some? ==> pct.value * W2Count(rs) as real == GrowthNumerator(rs) as real
  {
    if W2Count(rs) == 0 then None else Some(GrowthNumerator(rs) as real / W2Count(rs) as real)
  }

  lemma {:induction false} CountsAppend(rs: seq<ElRecord>, r: ElRecord)
    ensures W2Count(rs + [r]) == W2Count(rs) + (if r.elGrowth.Some? then 1 else 0)
    ensures GrowthNumerator(rs + [r]) == GrowthNumerator(rs) + r.elGrowth.GetOr(0)
  {
    if |rs| > 0 {
      assert (rs + [r])[1..] == rs[1..] + [r];
      CountsAppend(rs[1..], r);
    }
  }

  /** Unlike the federal rule, a student without a growth record is not in
      the denominator: adding one leaves the school's percent growth as it was. */
  lemma UntestedStudentIgnored(rs: seq<ElRecord>, r: ElRecord)
    requires r.elGrowth.None?
    ensures PercentGrowth(rs + [r]) == PercentGrowth(rs)
  {
    CountsAppend(rs, r);
  }

  /** Proficiency points: rate and cuts rounded to 4 places; only schools
      with at least `nCount` tested students get points. */
  function ProficiencyPoints(rs: seq<ElRecord>, nCount: nat, st: ElBanding.RefStats): (points: Option<nat>)
    ensures points.Some? ==> NumberTested(rs) >= nCount && NumberTested(rs) > 0 && points.value <= 5
  {
    var pct := PercentProficient(Seqs.Count((r: ElRecord) => r.elProf == Some(4), rs), NumberTested(rs));
    ElBanding.StatePoints(pct, NumberTested(rs), nCount, st, 4)
  }

  /** Growth points: rate and cuts rounded to 2 places; only schools with at
      least `nCount` students with a growth record get points. */
  function GrowthPoints(rs: seq<ElRecord>, nCount: nat, st: ElBanding.RefStats): (points: Option<nat>)
    ensures points.Some? ==> W2Count(rs) >= nCount && W2Count(rs) > 0 && points.value <= 5
  {
    ElBanding.StatePoints(PercentGrowth(rs), W2Count(rs), nCount, st, 2)
  }

  /** Total EL points: proficiency plus growth, none when either is none. */
  function TotalPoints(prof: Option<nat>, growth: Option<nat>): (total: Option<real>)
    ensures total.Some? <==> prof.Some? && growth.Some?
    ensures total.Some? ==> total.value == prof.value as real + growth.value as real
  {
    AddStrict(if prof.Some? then Some(prof.value as real) else None,
              if growth.Some? then Some(growth.value as real) else None)
  }

  /** The statewide statistics of a model: strict fences, unrounded. */
  function ModelStats(schools: seq<ElBanding.SchoolRate>, nCount: nat, sqrt: real -> real): (st: ElBanding.RefStats)
    ensures st.mean.Some? ==> |ElBanding.ReferenceSample(schools, nCount)| > 0
  {
    ElBanding.ReferenceStats(ElBanding.ReferenceSample(schools, nCount), true, sqrt)
  }
}
