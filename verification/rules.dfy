/** Ordered rule tables: a column is assigned rule by rule, each rule
    overwriting the value wherever its condition holds, so the last rule
    that holds decides. Several indicators assign their points this way. */
module Rules {
  import opened Wrappers

  /** A points rule: `points` is assigned where `holds`. */
  datatype Rule = Rule(points: real, holds: bool)

  /** Assigning rules in order, each overwriting the value where it holds. */
  function ApplyRules(rules: seq<Rule>, current: Option<real>): (r: Option<real>)
    ensures (forall i :: 0 <= i < |rules| ==> !rules[i].holds) ==> r == current
    ensures forall i :: 0 <= i < |rules| && rules[i].holds && (forall j :: i < j < |rules| ==> !rules[j].holds)
              ==> r == Some(rules[i].points)
  {
    if |rules| == 0 then current
    else
      var r := ApplyRules(rules[1..], if rules[0].holds then Some(rules[0].points) else current);
      assert forall i :: 1 <= i < |rules| ==> rules[i] == rules[1..][i - 1];
      r
  }

  /** numpy's `select`: the first rule that holds decides, and `default`
      stands when none does. */
  function Select(rules: seq<Rule>, default: Option<real>): (r: Option<real>)
    ensures (forall i :: 0 <= i < |rules| ==> !rules[i].holds) ==> r == default
    ensures forall i :: 0 <= i < |rules| && rules[i].holds && (forall j :: 0 <= j < i ==> !rules[j].holds)
              ==> r == Some(rules[i].points)
    ensures default.Some? ==> r.Some?
  {
    if |rules| == 0 then default
    else if rules[0].holds then Some(rules[0].points)
    else
      assert forall i :: 1 <= i < |rules| ==> rules[i] == rules[1..][i - 1];
      Select(rules[1..], default)
  }

  function Reverse(rules: seq<Rule>): (r: seq<Rule>)
    ensures |r| == |rules|
    ensures forall k :: 0 <= k < |r| ==> r[k] == rules[|rules| - 1 - k]
  {
    if |rules| == 0 then [] else Reverse(rules[1..]) + [rules[0]]
  }

  /** First-wins selection is last-wins assignment of the reversed table. */
  lemma SelectIsReversedAssignment(rules: seq<Rule>, default: Option<real>)
    ensures Select(rules, default) == ApplyRules(Reverse(rules), default)
  {
    var rev := Reverse(rules);
    if i :| 0 <= i < |rules| && rules[i].holds {
      var f := FirstHolding(rules, i);
      assert rev[|rules| - 1 - f] == rules[f];
      assert forall j :: |rules| - 1 - f < j < |rev| ==> rev[j] == rules[|rules| - 1 - j];
    } else {
      assert forall k :: 0 <= k < |rev| ==> rev[k] == rules[|rules| - 1 - k];
    }
  }

  /** Position of the first rule that holds, given that rule `i` does. */
  function FirstHolding(rules: seq<Rule>, i: nat): (f: nat)
    requires i < |rules| && rules[i].holds
    ensures f <= i && rules[f].holds && forall j :: 0 <= j < f ==> !rules[j].holds
  {
    if i == 0 || forall j :: 0 <= j < i ==> !rules[j].holds then i
    else
      var j :| 0 <= j < i && rules[j].holds;
      FirstHolding(rules, j)
  }
}
