/** Configuration of the federal CSI/ATSI model: the N-count, the five federal
    school models (`SchoolTypeF` 1 to 5) with their component weights, the
    grade maps, the ATSI subgroup labels, and the text-to-number cell cleaning
    every federal module applies to its input columns. */
module FederalConfig {
  import opened Wrappers
  import opened Numeric
  import Seqs

  /** Default minimum number of students for a federal result to be reported. */
  const NCount: nat := 20

  /** This year's ACT cohort: the students graduating next year. */
  function ActCohort(fiscalYear: int): int { fiscalYear + 1 }

  /** Federal school models: k-2, k-8, 9-12, k-11 and k-12. */
  datatype FedModel = K2 | K8 | HS | K11 | K12

  datatype Component = Proficiency | EL | Growth | CA | GraduationRate | DropoutRate

  const AllComponents: seq<Component> := [Proficiency, EL, Growth, CA, GraduationRate, DropoutRate]

  /** The `SchoolTypeF` code of a model. */
  function Code(m: FedModel): int {
    match m
    case K2 => 1
    case K8 => 2
    case HS => 3
    case K11 => 4
    case K12 => 5
  }

  /** The model a `SchoolTypeF` code names; codes outside 1..5 name none. */
  function ModelOfCode(c: int): (r: Option<FedModel>)
    ensures r.Some? <==> 1 <= c <= 5
    ensures r.Some? ==> Code(r.value) == c
  {
    if c == 1 then Some(K2)
    else if c == 2 then Some(K8)
    else if c == 3 then Some(HS)
    else if c == 4 then Some(K11)
    else if c == 5 then Some(K12)
    else None
  }

  /** Decoding a model's own code gives the model back. */
  lemma CodeRoundTrip(m: FedModel)
    ensures ModelOfCode(Code(m)) == Some(m)
  {
  }

  /** A model's weight for a component, in points out of 100; none when the
      model does not score that component. */
  function Weight(m: FedModel, c: Component): Option<real> {
    match m
    case K2 =>
      (match c
       case Proficiency => Some(80.0)
       case EL => Some(10.0)
       case CA => Some(10.0)
       case _ => None)
    case K8 =>
      (match c
       case Proficiency => Some(60.0)
       case EL => Some(10.0)
       case Growth => Some(20.0)
       case CA => Some(10.0)
       case _ => None)
    case HS =>
      (match c
       case Proficiency => Some(60.0)
       case EL => Some(10.0)
       case GraduationRate => Some(20.0)
       case DropoutRate => Some(10.0)
       case _ => None)
    case K12 =>
      (match c
       case Proficiency => Some(60.0)
       case Growth => Some(15.0)
       case EL => Some(10.0)
       case GraduationRate => Some(5.0)
       case DropoutRate => Some(5.0)
       case CA => Some(5.0))
    case K11 =>
      (match c
       case Proficiency => Some(60.0)
       case Growth => Some(20.0)
       case EL => Some(10.0)
       case DropoutRate => Some(5.0)
       case CA => Some(5.0)
       case _ => None)
  }

  /** Every weight is a whole number of points. */
  lemma WeightsWhole(m: FedModel, c: Component)
    requires Weight(m, c).Some?
    ensures Weight(m, c).value == Weight(m, c).value.Floor as real
    ensures 0 <= Weight(m, c).value.Floor <= 80
  {
  }

  /** Every weight, a missing one read as 0, lies between 0 and 80 points. */
  lemma WeightsNonnegative(m: FedModel, c: Component)
    ensures 0.0 <= Weight(m, c).GetOr(0.0) <= 80.0
  {
  }

  /** The weight a scorer multiplies by: the component weight over 100, for
      the models that have the component. */
  function WeightFraction(m: FedModel, c: Component): (w: Option<real>)
    ensures w.Some? <==> Weight(m, c).Some?
    ensures w.Some? ==> w.value * 100.0 == Weight(m, c).value && 0.0 <= w.value <= 0.8
  {
    if Weight(m, c).Some? then Some(Weight(m, c).value / 100.0) else None
  }

  /** Sum of a model's weights over a list of components (absent ones count 0). */
  function WeightSum(m: FedModel, cs: seq<Component>): real {
    if |cs| == 0 then 0.0 else Weight(m, cs[0]).GetOr(0.0) + WeightSum(m, cs[1..])
  }

  /** Every federal model's component weights add up to 100 points. */
  lemma WeightsSumTo100(m: FedModel)
    ensures WeightSum(m, AllComponents) == 100.0
  {
  }

  /** Which models score which components: k-2 only Proficiency, EL and CA;
      Graduation Rate only 9-12 and k-12; Dropout Rate only 9-12, k-11 and k-12;
      every model scores Proficiency and EL. */
  lemma ComponentPresence(m: FedModel)
    ensures Weight(m, Proficiency).Some? && Weight(m, EL).Some?
    ensures m == K2 ==> Weight(m, Growth).None? && Weight(m, GraduationRate).None? && Weight(m, DropoutRate).None?
    ensures Weight(m, GraduationRate).Some? <==> (m == HS || m == K12)
    ensures Weight(m, DropoutRate).Some? <==> (m == HS || m == K11 || m == K12)
    ensures Weight(m, CA).Some? <==> m != HS
    ensures Weight(m, Growth).Some? <==> (m == K8 || m == K11 || m == K12)
  {
  }

  /** Grades scored in Proficiency; 101 is the pseudo-grade of third graders
      who were second graders the year before (the k-2 measure). */
  function ProficiencyGrades(m: FedModel): set<int> {
    match m
    case K2 => {101}
    case K8 => {3, 4, 5, 6, 7, 8}
    case HS => {11}
    case K11 => {3, 4, 5, 6, 7, 8, 11}
    case K12 => {3, 4, 5, 6, 7, 8, 11}
  }

  /** k-2 uses only grade 101, 9-12 only grade 11, and k-11 and k-12 add
      grade 11 to the k-8 grades 3 to 8. */
  lemma ProficiencyGradeFacts()
    ensures ProficiencyGrades(K2) == {101}
    ensures ProficiencyGrades(HS) == {11}
    ensures ProficiencyGrades(K11) == ProficiencyGrades(K8) + {11}
    ensures ProficiencyGrades(K12) == ProficiencyGrades(K8) + {11}
    ensures 11 !in ProficiencyGrades(K8)
  {
  }

  /** Grades scored in Chronic Absenteeism; the 9-12 model has none. */
  function CaGrades(m: FedModel): set<int> {
    match m
    case K2 => {1, 2}
    case HS => {}
    case _ => {1, 2, 3, 4, 5, 6, 7, 8}
  }

  /** Grades scored in Growth; k-2 and 9-12 have none. */
  function GrowthGrades(m: FedModel): set<int> {
    match m
    case K8 => {4, 5, 6, 7, 8}
    case K11 => {4, 5, 6, 7, 8, 11}
    case K12 => {4, 5, 6, 7, 8, 11}
    case _ => {}
  }

  /** Grades scored in EL; -1 is kindergarten. */
  function ElGrades(m: FedModel): set<int> {
    match m
    case K2 => {-1, 1, 2}
    case K8 => {-1, 1, 2, 3, 4, 5, 6, 7, 8}
    case HS => {9, 10, 11, 12}
    case K11 => {-1, 1, 2, 3, 4, 5, 6, 7, 8, 9, 10, 11}
    case K12 => {-1, 1, 2, 3, 4, 5, 6, 7, 8, 9, 10, 11, 12}
  }

  /** A model has grades for a component's records exactly when it weights that
      component: the grade maps and the weight table agree. */
  lemma GradeMapsMatchWeights(m: FedModel)
    ensures CaGrades(m) != {} <==> Weight(m, CA).Some?
    ensures GrowthGrades(m) != {} <==> Weight(m, Growth).Some?
  {
    if m != HS { assert 1 in CaGrades(m); }
    if m == K8 || m == K11 || m == K12 { assert 4 in GrowthGrades(m); }
  }

  /** The subgroup columns of an ATSI aggregation. */
  datatype SubgroupColumn = Ethnicity | Sped | IncomeEligibility | ElFep

  /** A raw subgroup cell: a flag value or an ethnicity letter. */
  datatype RawValue = Flag(n: int) | Letter(c: char)

  /** A subgroup cell after relabelling: a display label, or the raw value
      left as it was because the map has no entry for it. */
  datatype SubgroupValue = Label(name: string) | Unmapped(raw: RawValue)

  /** The ATSI relabelling (pandas `replace` with a nested map): flag value 1
      of the three flag columns and the seven ethnicity letters get labels;
      every other value, including ethnicity 'U', is left unmapped. */
  function Relabel(col: SubgroupColumn, v: RawValue): (r: SubgroupValue)
    ensures r.Unmapped? ==> r.raw == v
  {
    match col
    case Sped => if v == Flag(1) then Label("SWD") else Unmapped(v)
    case IncomeEligibility => if v == Flag(1) then Label("IE12") else Unmapped(v)
    case ElFep => if v == Flag(1) then Label("ELFEP14") else Unmapped(v)
    case Ethnicity =>
      if v == Letter('H') then Label("HispanicLatino")
      else if v == Letter('W') then Label("White")
      else if v == Letter('B') then Label("AfricanAmerican")
      else if v == Letter('I') then Label("NativeAmerican")
      else if v == Letter('A') then Label("Asian")
      else if v == Letter('P') then Label("PacificIslander")
      else if v == Letter('R') then Label("TwoorMoreRaces")
      else Unmapped(v)
  }

  /** The seven ethnicity letters that have a label. */
  const EthnicityLetters: set<char> := {'H', 'W', 'B', 'I', 'A', 'P', 'R'}

  /** An ethnicity value is labelled exactly when it is one of the seven
      letters, so 'U' stays unmapped; different letters get different labels. */
  lemma EthnicityRelabel(c: char, d: char)
    ensures Relabel(Ethnicity, Letter(c)).Label? <==> c in EthnicityLetters
    ensures Relabel(Ethnicity, Letter('U')) == Unmapped(Letter('U'))
    ensures c in EthnicityLetters && d in EthnicityLetters && c != d ==>
              Relabel(Ethnicity, Letter(c)) != Relabel(Ethnicity, Letter(d))
  {
  }

  /** A flag column labels exactly the value 1. */
  lemma FlagRelabel(col: SubgroupColumn, n: int)
    requires col != Ethnicity
    ensures Relabel(col, Flag(n)).Label? <==> n == 1
  {
  }

  /** Groups the ATSI aggregations drop: the flag value 0 ("not in the
      subgroup") and the unknown ethnicity 'U'. */
  predicate ExcludedSubgroup(v: SubgroupValue) {
    v == Unmapped(Flag(0)) || v == Unmapped(Letter('U'))
  }

  /** A record whose subgroup labels `groups` give `v` in column `col`. */
  predicate InSubgroup(groups: map<SubgroupColumn, SubgroupValue>, col: SubgroupColumn, v: SubgroupValue) {
    col in groups && groups[col] == v
  }

  /** The records of one ATSI subgroup, in order: every record of the
      subgroup, each as often as it occurs, and no other. */
  function SubgroupRecords<R(==,!new)>(recs: seq<R>, groups: R -> map<SubgroupColumn, SubgroupValue>,
                                  col: SubgroupColumn, v: SubgroupValue): (out: seq<R>)
    ensures |out| <= |recs|
    ensures forall i :: 0 <= i < |out| ==> out[i] in recs && InSubgroup(groups(out[i]), col, v)
    ensures forall i :: 0 <= i < |recs| && InSubgroup(groups(recs[i]), col, v) ==> recs[i] in out
    ensures (forall i :: 0 <= i < |recs| ==> InSubgroup(groups(recs[i]), col, v)) ==> out == recs
  {
    var member := r => InSubgroup(groups(r), col, v);
    var out := Seqs.Filter(member, recs);
    if forall i :: 0 <= i < |recs| ==> member(recs[i]) then
      Seqs.FilterAll(member, recs);
      out
    else out
  }

  /** A raw input cell of a column that should be numeric. */
  datatype Cell = Num(x: real) | Text(s: string) | Null

  /** The text with every '%' removed (`str.replace('%', '')`). */
  function StripPercent(s: string): (r: string)
    ensures '%' !in r
    ensures |r| <= |s|
    ensures '%' !in s ==> r == s
  {
    if |s| == 0 then ""
    else if s[0] == '%' then StripPercent(s[1..])
    else [s[0]] + StripPercent(s[1..])
  }

  predicate IsDigit(c: char) {
    '0' <= c <= '9'
  }

  predicate AllDigits(s: string) {
    forall i :: 0 <= i < |s| ==> IsDigit(s[i])
  }

  function DigitValue(c: char): nat
    requires IsDigit(c)
  {
    (c as int - '0' as int) as nat
  }

  /** Value of a decimal digit string, most significant digit first. */
  function DigitsValue(s: string): nat
    requires AllDigits(s)
  {
    if |s| == 0 then 0 else 10 * DigitsValue(s[..|s| - 1]) + DigitValue(s[|s| - 1])
  }

  /** Index of the first '.' in `s`, or `|s|` when there is none. */
  function DotIndex(s: string): (k: nat)
    ensures k <= |s|
    ensures forall i :: 0 <= i < k ==> s[i] != '.'
    ensures k < |s| ==> s[k] == '.'
  {
    if |s| == 0 then 0
    else if s[0] == '.' then 0
    else 1 + DotIndex(s[1..])
  }

  /** An unsigned decimal: digits, optionally a '.' and more digits, with
      at least one digit on either side of the point ("5", "5.", ".5", "5.25"). */
  function ParseUnsigned(s: string): (r: Option<real>)
    ensures r.Some? ==> r.value >= 0.0
    ensures r.Some? <==> (exists i :: 0 <= i < |s| && IsDigit(s[i])) && AllDigits(s[..DotIndex(s)]) &&
                         (DotIndex(s) < |s| ==> AllDigits(s[DotIndex(s) + 1..]))
    ensures AllDigits(s) && |s| > 0 ==> r == Some(DigitsValue(s) as real)
  {
    var k := DotIndex(s);
    var whole := s[..k];
    if !AllDigits(whole) then None
    else if k == |s| then
      if |whole| == 0 then None
      else
        assert whole == s;
        assert IsDigit(s[0]);
        Some(DigitsValue(whole) as real)
    else
      var frac := s[k + 1..];
      if !AllDigits(frac) then None
      else if |whole| + |frac| == 0 then
        assert |s| == 1 && s[0] == '.';
        None
      else
        assert if |whole| > 0 then IsDigit(s[0]) else s[k + 1] == frac[0] && IsDigit(s[k + 1]);
        Some(DigitsValue(whole) as real + DigitsValue(frac) as real / Pow10(|frac|) as real)
  }

  predicate IsSpace(c: char) {
    c == ' ' || c == '\t' || c == '\n' || c == '\r'
  }

  /** The text without leading and trailing white space. */
  function Trim(s: string): (t: string)
    ensures |t| <= |s|
    ensures |t| > 0 ==> !IsSpace(t[0]) && !IsSpace(t[|t| - 1])
    ensures forall i :: 0 <= i < |s| && !IsSpace(s[i]) ==> |t| > 0
    ensures (forall i :: 0 <= i < |s| ==> IsSpace(s[i])) ==> t == []
    ensures |s| > 0 && !IsSpace(s[0]) && !IsSpace(s[|s| - 1]) ==> t == s
  {
    if |s| > 0 && IsSpace(s[0]) then Trim(s[1..])
    else if |s| > 0 && IsSpace(s[|s| - 1]) then Trim(s[..|s| - 1])
    else s
  }

  /** `pd.to_numeric(errors='coerce')` on decimal text: white space around
      it ignored, an optional sign, then an unsigned decimal; anything else
      is not a number. */
  function ParseNumber(s: string): (r: Option<real>)
    ensures (forall i :: 0 <= i < |s| ==> IsSpace(s[i])) ==> r.None?
  {
    var t := Trim(s);
    var signed := |t| > 0 && (t[0] == '-' || t[0] == '+');
    var u := ParseUnsigned(if signed then t[1..] else t);
    if u.Some? && signed && t[0] == '-' then Some(-u.value) else u
  }

  /** An unsigned decimal `u` keeps its value behind a '+'. */
  lemma ParsePlusSign(u: string, x: real)
    requires ParseUnsigned(u) == Some(x)
    ensures ParseNumber("+" + u) == Some(x)
  {
    var s := "+" + u;
    UnsignedAfterSign('+', u);
    assert ParseUnsigned(s[1..]) == Some(x);
  }

  /** An unsigned decimal `u` behind a '-' is its negation. */
  lemma ParseMinusSign(u: string, x: real)
    requires ParseUnsigned(u) == Some(x)
    ensures ParseNumber("-" + u) == Some(-x)
  {
    var s := "-" + u;
    UnsignedAfterSign('-', u);
    assert ParseUnsigned(s[1..]) == Some(x);
    assert Trim(s)[0] == '-';
  }

  lemma UnsignedAfterSign(c: char, u: string)
    requires ParseUnsigned(u).Some? && !IsSpace(c)
    ensures Trim([c] + u) == [c] + u && ([c] + u)[1..] == u
  {
    var s := [c] + u;
    UnsignedEndsInDigitOrPoint(u);
    assert s[|s| - 1] == u[|u| - 1];
  }

  lemma UnsignedEndsInDigitOrPoint(u: string)
    requires ParseUnsigned(u).Some?
    ensures |u| > 0 && (IsDigit(u[|u| - 1]) || u[|u| - 1] == '.')
  {
    var k := DotIndex(u);
    var i :| 0 <= i < |u| && IsDigit(u[i]);
    var last := |u| - 1;
    if last < k {
      assert u[..k][last] == u[last];
    } else if last > k {
      assert u[k + 1..][last - k - 1] == u[last];
    }
  }

  lemma UnsignedStartsWithDigitOrPoint(u: string)
    requires ParseUnsigned(u).Some?
    ensures |u| > 0 && (IsDigit(u[0]) || u[0] == '.')
  {
    var k := DotIndex(u);
    var i :| 0 <= i < |u| && IsDigit(u[i]);
    if 0 < k {
      assert u[..k][0] == u[0];
    }
  }

  /** An unsigned decimal is a number of the same value. */
  lemma ParseUnsignedText(u: string, x: real)
    requires ParseUnsigned(u) == Some(x)
    ensures ParseNumber(u) == Some(x)
  {
    UnsignedStartsWithDigitOrPoint(u);
    UnsignedEndsInDigitOrPoint(u);
    assert Trim(u) == u;
  }

  /** Trimming twice trims nothing more. */
  lemma TrimIdempotent(s: string)
    ensures Trim(Trim(s)) == Trim(s)
  {
  }

  /** A number reads the same without its surrounding white space. */
  lemma ParseTrimmed(s: string)
    ensures ParseNumber(Trim(s)) == ParseNumber(s)
  {
    TrimIdempotent(s);
  }

  /** White space around an unsigned decimal `u` is ignored. */
  lemma ParsePadded(u: string, x: real)
    requires ParseUnsigned(u) == Some(x)
    ensures ParseNumber(" " + u + " ") == Some(x)
  {
    UnsignedStartsWithDigitOrPoint(u);
    UnsignedEndsInDigitOrPoint(u);
    var padded := " " + u + " ";
    assert padded[1..] == u + " " && (u + " ")[..|u|] == u;
    assert Trim(padded) == u;
    ParseTrimmed(padded);
    ParseUnsignedText(u, x);
  }

  /** A digit string `d` may end in a bare point. */
  lemma ParseTrailingPoint(d: string)
    requires |d| > 0 && AllDigits(d)
    ensures ParseNumber(d + ".") == Some(DigitsValue(d) as real)
  {
    var s := d + ".";
    DotIndexAfterDigits(d, ".");
    assert s[..|d|] == d && s[|d| + 1..] == "";
    assert IsDigit(d[0]) && s[0] == d[0];
    ParseUnsignedText(s, DigitsValue(d) as real);
  }

  /** A digit string `d` after a bare point is a fraction of `|d|` places. */
  lemma ParseLeadingPoint(d: string)
    requires |d| > 0 && AllDigits(d)
    ensures ParseNumber("." + d) == Some(DigitsValue(d) as real / Pow10(|d|) as real)
  {
    UnsignedLeadingPoint(d);
    ParseUnsignedText("." + d, DigitsValue(d) as real / Pow10(|d|) as real);
  }

  lemma UnsignedLeadingPoint(d: string)
    requires |d| > 0 && AllDigits(d)
    ensures ParseUnsigned("." + d) == Some(DigitsValue(d) as real / Pow10(|d|) as real)
  {
    var s := "." + d;
    assert DotIndex(s) == 0 && s[..0] == "" && s[1..] == d;
    assert DigitsValue("") == 0;
  }

  /** A sign or a point alone is not a number. */
  lemma ParseBareSymbols()
    ensures ParseNumber("-") == None && ParseNumber("+") == None && ParseNumber(".") == None
  {
    assert Trim("-") == "-" && Trim("+") == "+" && Trim(".") == ".";
    assert "-"[1..] == "" && "+"[1..] == "";
  }

  lemma {:induction false} DotIndexAfterDigits(d: string, rest: string)
    requires AllDigits(d)
    ensures DotIndex(d + rest) == |d| + DotIndex(rest)
  {
    if |d| > 0 {
      assert IsDigit(d[0]) && (d + rest)[0] == d[0];
      assert (d + rest)[1..] == d[1..] + rest;
      DotIndexAfterDigits(d[1..], rest);
    } else {
      assert d + rest == rest;
    }
  }

  /** `columns_to_numeric` on one cell of a column whose values are not
      already numbers: strip '%', then parse, unparseable text becoming null. */
  function CleanCell(c: Cell): (r: Option<real>)
    ensures c.Num? ==> r == Some(c.x)
    ensures c.Null? ==> r.None?
  {
    match c
    case Num(x) => Some(x)
    case Null => None
    case Text(s) => ParseNumber(StripPercent(s))
  }

  /** `columns_to_numeric` on one column: the cells in order, each cleaned. */
  function CleanColumn(col: seq<Cell>): (r: seq<Option<real>>)
    ensures |r| == |col|
    ensures forall i :: 0 <= i < |col| ==> r[i] == CleanCell(col[i])
  {
    if |col| == 0 then [] else [CleanCell(col[0])] + CleanColumn(col[1..])
  }

  /** A column that is already numeric (numbers and nulls) keeps its values. */
  lemma NumericColumnUnchanged(col: seq<Cell>)
    requires forall i :: 0 <= i < |col| ==> !col[i].Text?
    ensures forall i :: 0 <= i < |col| ==>
              CleanColumn(col)[i] == (if col[i].Num? then Some(col[i].x) else None)
  {
  }

  /** Decimal digits of a natural number, most significant first. */
  function ShowNat(n: nat): (s: string)
    ensures |s| > 0 && AllDigits(s)
    ensures '.' !in s && '%' !in s && s[0] != '-'
  {
    if n < 10 then ["0123456789"[n]]
    else ShowNat(n / 10) + ["0123456789"[n % 10]]
  }

  lemma {:induction false} ShowNatValue(n: nat)
    ensures DigitsValue(ShowNat(n)) == n
  {
    var s := ShowNat(n);
    if n >= 10 {
      ShowNatValue(n / 10);
      assert s[..|s| - 1] == ShowNat(n / 10);
    }
  }

  /** Reading back a whole number written in decimal, with or without a
      trailing percent sign, gives the number. */
  lemma ParseShowNat(n: nat)
    ensures ParseNumber(ShowNat(n)) == Some(n as real)
    ensures CleanCell(Text(ShowNat(n) + "%")) == Some(n as real)
  {
    var s := ShowNat(n);
    ShowNatValue(n);
    assert IsDigit(s[0]) && IsDigit(s[|s| - 1]);
    assert Trim(s) == s;
    assert ParseUnsigned(s) == Some(n as real);
    StripPercentAppend(s);
  }

  lemma {:induction false} StripPercentAppend(s: string)
    requires '%' !in s
    ensures StripPercent(s + "%") == s
  {
    if |s| > 0 {
      assert (s + "%")[1..] == s[1..] + "%";
      StripPercentAppend(s[1..]);
      assert s == [s[0]] + s[1..];
    }
  }
}
