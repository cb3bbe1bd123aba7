/** Optional values. `None` stands for a missing (null) cell of a results table:
    "not measured", as opposed to a measured zero. */
module Wrappers {

  datatype Option<+T> = None | Some(value: T) {

    /** The wrapped value, or `default` when there is none (pandas `fillna`). */
    function GetOr(default: T): T {
      match this
      case Some(v) => v
      case None => default
    }
  }

  /** The outcome of an operation that can fail (a raised exception). */
  datatype Result<+T, +E> = Success(value: T) | Failure(error: E)
}

/** Column arithmetic over nullable reals with the two null conventions the
    scoring code relies on: pandas `sum` (a null counts as 0) and
    `sum(min_count=1)` (null when every operand is null). */
module Nullable {
  import opened Wrappers

  /** Sum of the present values; nulls count as 0. */
  function SumSkipNull(xs: seq<Option<real>>): real {
    if |xs| == 0 then 0.0 else xs[0].GetOr(0.0) + SumSkipNull(xs[1..])
  }

  predicate AllNull(xs: seq<Option<real>>) {
    forall i :: 0 <= i < |xs| ==> xs[i].None?
  }

  /** Number of present values. */
  function CountPresent(xs: seq<Option<real>>): nat {
    if |xs| == 0 then 0 else (if xs[0].Some? then 1 else 0) + CountPresent(xs[1..])
  }

  /** pandas `sum(min_count=1)`: the sum of the present values, or null when there are none. */
  function SumMinCount1(xs: seq<Option<real>>): Option<real> {
    if AllNull(xs) then None else Some(SumSkipNull(xs))
  }

  /** `a + b` on nullable operands: null when either is null. */
  function AddStrict(a: Option<real>, b: Option<real>): Option<real> {
    if a.Some? && b.Some? then Some(a.value + b.value) else None
  }

  /** `loc[x > cap] = cap`: a null stays null. */
  function CapAt(x: Option<real>, cap: real): Option<real> {
    if x.Some? && x.value > cap then Some(cap) else x
  }

  /** N-count suppression: a value is reported only when its count reaches `nCount`. */
  function Suppress(x: Option<real>, count: nat, nCount: nat): (r: Option<real>)
    ensures r.None? <==> x.None? || count < nCount
    ensures r.Some? ==> r == x
  {
    if count < nCount then None else x
  }

  /** Every present value lies in `[0, hi]`. */
  predicate PresentWithin(xs: seq<Option<real>>, hi: real) {
    forall i :: 0 <= i < |xs| && xs[i].Some? ==> 0.0 <= xs[i].value <= hi
  }

  /** A two-column row sum skipping nulls. */
  lemma SumSkipNullPair(a: Option<real>, b: Option<real>)
    ensures SumSkipNull([a, b]) == a.GetOr(0.0) + b.GetOr(0.0)
  {
    assert [a, b][1..] == [b];
    assert [b][1..] == [];
    assert SumSkipNull([b]) == b.GetOr(0.0) + SumSkipNull([]);
    assert SumSkipNull([a, b]) == a.GetOr(0.0) + SumSkipNull([b]);
  }

  /** Nulls contribute nothing: the sum skipping nulls of an all-null column is 0,
      and it is null-free exactly when some value is present. */
  lemma {:induction false} AllNullSumsToZero(xs: seq<Option<real>>)
    requires AllNull(xs)
    ensures SumSkipNull(xs) == 0.0
    ensures CountPresent(xs) == 0
  {
    if |xs| > 0 {
      AllNullSumsToZero(xs[1..]);
    }
  }

  /** The present values bound the sum: it lies in `[0, hi * CountPresent(xs)]`. */
  lemma {:induction false} SumSkipNullWithin(xs: seq<Option<real>>, hi: real)
    requires PresentWithin(xs, hi)
    ensures 0.0 <= SumSkipNull(xs) <= hi * CountPresent(xs) as real
  {
    if |xs| > 0 {
      assert PresentWithin(xs[1..], hi) by {
        forall i | 0 <= i < |xs[1..]| && xs[1..][i].Some?
          ensures 0.0 <= xs[1..][i].value <= hi
        {
          assert xs[1..][i] == xs[i + 1];
        }
      }
      SumSkipNullWithin(xs[1..], hi);
    }
  }

  /** A present value exists exactly when the count of present values is positive. */
  lemma {:induction false} CountPresentPositive(xs: seq<Option<real>>)
    ensures CountPresent(xs) > 0 <==> !AllNull(xs)
  {
    if |xs| > 0 {
      CountPresentPositive(xs[1..]);
      if xs[0].None? && !AllNull(xs) {
        var i :| 0 <= i < |xs| && xs[i].Some?;
        assert xs[1..][i - 1] == xs[i];
      }
    }
  }

  /** The present values in order; pandas `mean` and `std` skip nulls. */
  function PresentValues(xs: seq<Option<real>>): (vs: seq<real>)
    ensures |vs| == 0 <==> AllNull(xs)
    ensures forall j :: 0 <= j < |vs| ==> exists i :: 0 <= i < |xs| && xs[i] == Some(vs[j])
    ensures forall i :: 0 <= i < |xs| && xs[i].Some? ==> xs[i].value in vs
    ensures forall v :: multiset(vs)[v] == multiset(xs)[Some(v)]
  {
    var vs := Presents(xs);
    forall i | 0 <= i < |xs| && xs[i].Some? ensures xs[i].value in vs {
      assert multiset(xs)[Some(xs[i].value)] > 0;
    }
    forall j | 0 <= j < |vs| ensures exists i :: 0 <= i < |xs| && xs[i] == Some(vs[j]) {
      assert multiset(vs)[vs[j]] > 0;
      assert Some(vs[j]) in xs;
    }
    vs
  }

  /** Each present value as often as it occurs, in order of occurrence. */
  function Presents(xs: seq<Option<real>>): (vs: seq<real>)
    ensures forall v :: multiset(vs)[v] == multiset(xs)[Some(v)]
  {
    if |xs| == 0 then []
    else
      assert multiset(xs) == multiset{xs[0]} + multiset(xs[1..]) by { assert xs == [xs[0]] + xs[1..]; }
      if xs[0].Some? then [xs[0].value] + Presents(xs[1..]) else Presents(xs[1..])
  }
}
