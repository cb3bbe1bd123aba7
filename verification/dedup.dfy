/** De-duplication of record lists, as the scorers do it with
    `sort_values(...).duplicated(keys)` or `drop_duplicates(keys)`: one record
    per key, either the best one under a ranking or the first one. */
module Dedup {
  import Seqs

  /** Lexicographic "ranks at least as high" on ranking pairs (for example
      grade, then EL proficiency level). */
  predicate AtLeast(a: (int, int), b: (int, int)) {
    a.0 > b.0 || (a.0 == b.0 && a.1 >= b.1)
  }

  lemma AtLeastTransitive(a: (int, int), b: (int, int), c: (int, int))
    requires AtLeast(a, b) && AtLeast(b, c)
    ensures AtLeast(a, c)
  {
  }

  predicate KeysDistinct<K(==,!new), R>(out: seq<R>, key: R -> K) {
    forall i, j :: 0 <= i < j < |out| ==> key(out[i]) != key(out[j])
  }

  /** Masking a table with one record per key keeps one record per key. */
  lemma {:induction false} FilterKeysDistinct<K(!new), R(!new)>(keep: R -> bool, rs: seq<R>, key: R -> K)
    requires KeysDistinct(rs, key)
    ensures KeysDistinct(Seqs.Filter(keep, rs), key)
  {
    if |rs| > 0 {
      var tail := rs[1..];
      assert KeysDistinct(tail, key) by {
        forall i, j | 0 <= i < j < |tail| ensures key(tail[i]) != key(tail[j]) {
          assert tail[i] == rs[i + 1] && tail[j] == rs[j + 1];
        }
      }
      FilterKeysDistinct(keep, tail, key);
      var rest := Seqs.Filter(keep, tail);
      if keep(rs[0]) {
        var out := [rs[0]] + rest;
        assert Seqs.Filter(keep, rs) == out;
        forall i, j | 0 <= i < j < |out| ensures key(out[i]) != key(out[j]) {
          assert out[j] == rest[j - 1];
          if i == 0 {
            var k :| 0 <= k < |tail| && tail[k] == rest[j - 1];
            assert tail[k] == rs[k + 1];
          } else {
            assert out[i] == rest[i - 1];
          }
        }
      }
    }
  }

  /** Some record of `out` has key `k`. */
  predicate HasKey<K(==,!new), R>(out: seq<R>, key: R -> K, k: K) {
    exists i :: 0 <= i < |out| && key(out[i]) == k
  }

  /** Position of the record with key `k`, if any. */
  function IndexOfKey<K(==,!new), R>(out: seq<R>, key: R -> K, k: K): (p: int)
    ensures -1 <= p < |out|
    ensures p >= 0 ==> key(out[p]) == k
    ensures p < 0 <==> !HasKey(out, key, k)
  {
    if |out| == 0 then -1
    else if key(out[|out| - 1]) == k then |out| - 1
    else
      var p := IndexOfKey(out[..|out| - 1], key, k);
      assert forall i :: 0 <= i < |out| - 1 ==> out[..|out| - 1][i] == out[i];
      p
  }

  /** Adds `r` to a de-duplicated list: it replaces the record with its key
      when it ranks at least as high, and is appended when its key is new.
      Records are offered from the last to the first, so of records that tie
      the earliest one stays, as after a stable descending sort and
      `duplicated`. */
  function Offer<K(==,!new), R>(r: R, out: seq<R>, key: R -> K, score: R -> (int, int)): (res: seq<R>)
    requires KeysDistinct(out, key)
    ensures KeysDistinct(res, key)
    ensures forall i :: 0 <= i < |res| ==> res[i] == r || res[i] in out
    ensures forall i :: 0 <= i < |res| ==>
              res[i] == r || (i < |out| && res[i] == out[i] && (key(out[i]) == key(r) ==> !AtLeast(score(r), score(out[i]))))
    ensures forall k :: HasKey(res, key, k) <==> (k == key(r) || HasKey(out, key, k))
    ensures forall i :: 0 <= i < |res| && key(res[i]) == key(r) ==> AtLeast(score(res[i]), score(r))
    ensures forall i, j :: 0 <= i < |res| && 0 <= j < |out| && key(res[i]) == key(out[j]) ==>
              AtLeast(score(res[i]), score(out[j]))
  {
    var p := IndexOfKey(out, key, key(r));
    if p < 0 then
      var res := out + [r];
      assert key(res[|out|]) == key(r);
      assert forall i :: 0 <= i < |out| ==> res[i] == out[i];
      res
    else
      var res := out[p := if AtLeast(score(r), score(out[p])) then r else out[p]];
      assert forall i :: 0 <= i < |res| ==> key(res[i]) == key(out[i]);
      res
  }

  /** Offering the head of `rs` to a list that ranks over the tail gives a
      list that ranks over all of `rs`. */
  lemma OfferRanksAll<K(!new), R>(rs: seq<R>, rest: seq<R>, key: R -> K, score: R -> (int, int))
    requires |rs| > 0 && KeysDistinct(rest, key)
    requires forall k :: HasKey(rest, key, k) <==> HasKey(rs[1..], key, k)
    requires forall i, j :: 0 <= i < |rest| && 0 <= j < |rs[1..]| && key(rest[i]) == key(rs[1..][j]) ==>
               AtLeast(score(rest[i]), score(rs[1..][j]))
    ensures forall i, j ::
              0 <= i < |Offer(rs[0], rest, key, score)| && 0 <= j < |rs| && key(Offer(rs[0], rest, key, score)[i]) == key(rs[j])
              ==> AtLeast(score(Offer(rs[0], rest, key, score)[i]), score(rs[j]))
  {
    var out := Offer(rs[0], rest, key, score);
    forall i, j | 0 <= i < |out| && 0 <= j < |rs| && key(out[i]) == key(rs[j])
      ensures AtLeast(score(out[i]), score(rs[j]))
    {
      if j > 0 {
        var k := key(rs[j]);
        assert rs[j] == rs[1..][j - 1];
        assert HasKey(rs[1..], key, k);
        var i' :| 0 <= i' < |rest| && key(rest[i']) == k;
        assert AtLeast(score(rest[i']), score(rs[1..][j - 1]));
        AtLeastTransitive(score(out[i]), score(rest[i']), score(rs[j]));
      }
    }
  }

  /** Every record before position `j` with the key of `rs[j]` that
      passes `keep` ranks strictly lower than it. */
  predicate EarlierLower<K(==,!new), R>(rs: seq<R>, keep: R -> bool, key: R -> K, score: R -> (int, int), j: int)
    requires 0 <= j < |rs|
  {
    forall j' :: 0 <= j' < j && keep(rs[j']) && key(rs[j']) == key(rs[j]) ==> !AtLeast(score(rs[j']), score(rs[j]))
  }

  /** `x` is a record of `rs` that passes `keep` and ranks strictly higher
      than the earlier records of its key that pass. */
  ghost predicate FirstIn<K(!new), R>(rs: seq<R>, keep: R -> bool, x: R, key: R -> K, score: R -> (int, int)) {
    exists j :: 0 <= j < |rs| && rs[j] == x && keep(rs[j]) && EarlierLower(rs, keep, key, score, j)
  }

  ghost predicate KeptFirst<K(!new), R>(rs: seq<R>, keep: R -> bool, out: seq<R>, key: R -> K, score: R -> (int, int)) {
    forall i :: 0 <= i < |out| ==> FirstIn(rs, keep, out[i], key, score)
  }

  /** A record first in the tail stays first in the whole table unless the
      head passes, has its key and ranks at least as high. */
  lemma FirstInCons<K(!new), R>(rs: seq<R>, keep: R -> bool, x: R, key: R -> K, score: R -> (int, int))
    requires |rs| > 0 && FirstIn(rs[1..], keep, x, key, score)
    requires keep(rs[0]) && key(rs[0]) == key(x) ==> !AtLeast(score(rs[0]), score(x))
    ensures FirstIn(rs, keep, x, key, score)
  {
    var tail := rs[1..];
    var j :| 0 <= j < |tail| && tail[j] == x && keep(tail[j]) && EarlierLower(tail, keep, key, score, j);
    assert rs[j + 1] == tail[j];
    forall j' | 0 <= j' < j + 1 && keep(rs[j']) && key(rs[j']) == key(rs[j + 1])
      ensures !AtLeast(score(rs[j']), score(rs[j + 1]))
    {
      if j' > 0 {
        assert rs[j'] == tail[j' - 1];
      }
    }
    assert EarlierLower(rs, keep, key, score, j + 1);
  }

  /** A record that fails `keep`, put in front of the table, changes
      nothing about which records come first. */
  lemma KeptFirstSkip<K(!new), R>(rs: seq<R>, keep: R -> bool, out: seq<R>, key: R -> K, score: R -> (int, int))
    requires |rs| > 0 && !keep(rs[0]) && KeptFirst(rs[1..], keep, out, key, score)
    ensures KeptFirst(rs, keep, out, key, score)
  {
    forall i | 0 <= i < |out| ensures FirstIn(rs, keep, out[i], key, score) {
      FirstInCons(rs, keep, out[i], key, score);
    }
  }

  /** Offering the head of the table to the records kept from its tail
      keeps the records that come first in the whole table. */
  lemma KeptFirstOffer<K(!new), R>(rs: seq<R>, keep: R -> bool, rest: seq<R>, key: R -> K, score: R -> (int, int))
    requires |rs| > 0 && keep(rs[0]) && KeysDistinct(rest, key) && KeptFirst(rs[1..], keep, rest, key, score)
    ensures KeptFirst(rs, keep, Offer(rs[0], rest, key, score), key, score)
  {
    var out := Offer(rs[0], rest, key, score);
    forall i | 0 <= i < |out| ensures FirstIn(rs, keep, out[i], key, score) {
      if out[i] == rs[0] {
        assert EarlierLower(rs, keep, key, score, 0);
      } else {
        assert i < |rest| && out[i] == rest[i];
        FirstInCons(rs, keep, rest[i], key, score);
      }
    }
  }

  /** One record per key, the highest-ranked one; of records that tie at
      the top, the first: every earlier record of its key ranks strictly
      lower (`FirstIn` with every record passing). */
  function KeepBest<K(==,!new), R>(rs: seq<R>, key: R -> K, score: R -> (int, int)): (out: seq<R>)
    ensures KeysDistinct(out, key)
    ensures forall i :: 0 <= i < |out| ==> out[i] in rs
    ensures forall k :: HasKey(out, key, k) <==> HasKey(rs, key, k)
    ensures forall i, j :: 0 <= i < |out| && 0 <= j < |rs| && key(out[i]) == key(rs[j]) ==>
              AtLeast(score(out[i]), score(rs[j]))
    ensures forall i :: 0 <= i < |out| ==> FirstIn(rs, _ => true, out[i], key, score)
  {
    if |rs| == 0 then []
    else
      var rest := KeepBest(rs[1..], key, score);
      var out := Offer(rs[0], rest, key, score);
      assert forall j :: 1 <= j < |rs| ==> rs[j] == rs[1..][j - 1];
      assert forall k :: HasKey(rs, key, k) <==> (k == key(rs[0]) || HasKey(rs[1..], key, k));
      OfferRanksAll(rs, rest, key, score);
      KeptFirstOffer(rs, _ => true, rest, key, score);
      out
  }

  /** Of two records with one key and one rank, only the first is kept. */
  lemma TwoTiedKeepFirst<K(!new), R>(a: R, b: R, key: R -> K, score: R -> (int, int))
    requires key(a) == key(b) && score(a) == score(b)
    ensures KeepBest([a, b], key, score) == [a]
  {
    assert [a, b][1..] == [b] && [b][1..] == [];
    var one := KeepBest([b], key, score);
    assert one == Offer(b, [], key, score) == [b];
    assert IndexOfKey(one, key, key(a)) == 0;
    assert KeepBest([a, b], key, score) == Offer(a, one, key, score);
  }

  /** `rs[j]` is the record a filter on `keep` followed by `KeepBest`
      keeps for its key: it passes the filter, ranks at least as high as
      every record of its key that passes, and every earlier such record
      ranks strictly lower. */
  predicate Chosen<K(==,!new), R>(rs: seq<R>, keep: R -> bool, key: R -> K, score: R -> (int, int), j: int)
    requires 0 <= j < |rs|
  {
    && keep(rs[j])
    && (forall i :: 0 <= i < |rs| && keep(rs[i]) && key(rs[i]) == key(rs[j]) ==> AtLeast(score(rs[j]), score(rs[i])))
    && EarlierLower(rs, keep, key, score, j)
  }

  /** `x` is the chosen record of its key. */
  ghost predicate ChosenIn<K(!new), R>(rs: seq<R>, keep: R -> bool, x: R, key: R -> K, score: R -> (int, int)) {
    exists j :: 0 <= j < |rs| && rs[j] == x && Chosen(rs, keep, key, score, j)
  }

  /** Key `k` has a chosen record. */
  ghost predicate HasChosen<K(!new), R>(rs: seq<R>, keep: R -> bool, k: K, key: R -> K, score: R -> (int, int)) {
    exists j :: 0 <= j < |rs| && key(rs[j]) == k && Chosen(rs, keep, key, score, j)
  }

  /** A key has at most one chosen record. */
  lemma ChosenUnique<K(!new), R>(rs: seq<R>, keep: R -> bool, key: R -> K, score: R -> (int, int), j1: int, j2: int)
    requires 0 <= j1 < |rs| && 0 <= j2 < |rs| && key(rs[j1]) == key(rs[j2])
    requires Chosen(rs, keep, key, score, j1) && Chosen(rs, keep, key, score, j2)
    ensures j1 == j2
  {
  }

  /** The records `KeepBest` keeps from a filtered table, followed back to
      the table: each passes the filter and every earlier record of its key
      that passes ranks strictly lower. */
  lemma {:induction false} KeepBestOfFilterFirst<K(!new), R(!new)>(keep: R -> bool, rs: seq<R>, key: R -> K, score: R -> (int, int))
    ensures KeptFirst(rs, keep, KeepBest(Seqs.Filter(keep, rs), key, score), key, score)
  {
    if |rs| > 0 {
      var tail := rs[1..];
      KeepBestOfFilterFirst(keep, tail, key, score);
      var f := Seqs.Filter(keep, rs);
      var rest := KeepBest(Seqs.Filter(keep, tail), key, score);
      if keep(rs[0]) {
        assert f == [rs[0]] + Seqs.Filter(keep, tail);
        assert f[1..] == Seqs.Filter(keep, tail) && f[0] == rs[0];
        KeptFirstOffer(rs, keep, rest, key, score);
      } else {
        assert f == Seqs.Filter(keep, tail);
        KeptFirstSkip(rs, keep, rest, key, score);
      }
    }
  }

  /** Filtering on `keep` and then keeping the best record per key keeps,
      of the records that pass, exactly one per key: its chosen record. */
  lemma KeepBestOfFilter<K(!new), R(!new)>(keep: R -> bool, rs: seq<R>, key: R -> K, score: R -> (int, int))
    ensures forall i :: 0 <= i < |KeepBest(Seqs.Filter(keep, rs), key, score)| ==>
              ChosenIn(rs, keep, KeepBest(Seqs.Filter(keep, rs), key, score)[i], key, score)
    ensures forall j :: 0 <= j < |rs| && Chosen(rs, keep, key, score, j) ==> rs[j] in KeepBest(Seqs.Filter(keep, rs), key, score)
    ensures forall i :: 0 <= i < |rs| && keep(rs[i]) ==> HasChosen(rs, keep, key(rs[i]), key, score)
  {
    var f := Seqs.Filter(keep, rs);
    var out := KeepBest(f, key, score);
    KeepBestOfFilterFirst(keep, rs, key, score);
    KeptChosen(keep, rs, f, out, key, score);
    ChosenExists(keep, rs, f, out, key, score);
    ChosenKept(keep, rs, f, out, key, score);
  }

  /** A record kept first from the filtered table is its key's chosen
      record, since it also ranks over every record of its key. */
  lemma KeptChosen<K(!new), R(!new)>(keep: R -> bool, rs: seq<R>, f: seq<R>, out: seq<R>, key: R -> K, score: R -> (int, int))
    requires f == Seqs.Filter(keep, rs) && out == KeepBest(f, key, score)
    requires KeptFirst(rs, keep, out, key, score)
    ensures forall i :: 0 <= i < |out| ==> ChosenIn(rs, keep, out[i], key, score)
  {
    forall i | 0 <= i < |out| ensures ChosenIn(rs, keep, out[i], key, score) {
      assert FirstIn(rs, keep, out[i], key, score);
      var j :| 0 <= j < |rs| && rs[j] == out[i] && keep(rs[j]) && EarlierLower(rs, keep, key, score, j);
      forall i' | 0 <= i' < |rs| && keep(rs[i']) && key(rs[i']) == key(rs[j])
        ensures AtLeast(score(rs[j]), score(rs[i']))
      {
        var p :| 0 <= p < |f| && f[p] == rs[i'];
      }
      assert Chosen(rs, keep, key, score, j);
    }
  }

  /** Every key that passes the filter has a chosen record. */
  lemma ChosenExists<K(!new), R(!new)>(keep: R -> bool, rs: seq<R>, f: seq<R>, out: seq<R>, key: R -> K, score: R -> (int, int))
    requires f == Seqs.Filter(keep, rs) && out == KeepBest(f, key, score)
    requires forall i :: 0 <= i < |out| ==> ChosenIn(rs, keep, out[i], key, score)
    ensures forall i :: 0 <= i < |rs| && keep(rs[i]) ==> HasChosen(rs, keep, key(rs[i]), key, score)
  {
    forall i | 0 <= i < |rs| && keep(rs[i]) ensures HasChosen(rs, keep, key(rs[i]), key, score) {
      var p :| 0 <= p < |f| && f[p] == rs[i];
      assert HasKey(f, key, key(rs[i]));
      var k :| 0 <= k < |out| && key(out[k]) == key(rs[i]);
      assert ChosenIn(rs, keep, out[k], key, score);
      var j :| 0 <= j < |rs| && rs[j] == out[k] && Chosen(rs, keep, key, score, j);
    }
  }

  /** Every chosen record is kept. */
  lemma ChosenKept<K(!new), R(!new)>(keep: R -> bool, rs: seq<R>, f: seq<R>, out: seq<R>, key: R -> K, score: R -> (int, int))
    requires f == Seqs.Filter(keep, rs) && out == KeepBest(f, key, score)
    requires forall i :: 0 <= i < |out| ==> ChosenIn(rs, keep, out[i], key, score)
    ensures forall j :: 0 <= j < |rs| && Chosen(rs, keep, key, score, j) ==> rs[j] in out
  {
    forall j | 0 <= j < |rs| && Chosen(rs, keep, key, score, j) ensures rs[j] in out {
      var p :| 0 <= p < |f| && f[p] == rs[j];
      assert HasKey(f, key, key(rs[j]));
      var k :| 0 <= k < |out| && key(out[k]) == key(rs[j]);
      assert ChosenIn(rs, keep, out[k], key, score);
      var j2 :| 0 <= j2 < |rs| && rs[j2] == out[k] && Chosen(rs, keep, key, score, j2);
      ChosenUnique(rs, keep, key, score, j, j2);
    }
  }

  /** No earlier record of `rs` shares the key of record `j`. */
  predicate FirstOfKey<K(==,!new), R>(rs: seq<R>, key: R -> K, j: int)
    requires 0 <= j < |rs|
  {
    forall j' :: 0 <= j' < j ==> key(rs[j']) != key(rs[j])
  }

  /** One record per key, the first one in list order (`drop_duplicates`). */
  function KeepFirst<K(==,!new), R>(rs: seq<R>, key: R -> K): (out: seq<R>)
    ensures KeysDistinct(out, key)
    ensures forall k :: HasKey(out, key, k) <==> HasKey(rs, key, k)
    ensures forall i :: 0 <= i < |out| ==>
              exists j :: 0 <= j < |rs| && rs[j] == out[i] && FirstOfKey(rs, key, j)
  {
    if |rs| == 0 then []
    else
      var n := |rs| - 1;
      var prefix := rs[..n];
      var rest := KeepFirst(prefix, key);
      assert forall j :: 0 <= j < n ==> rs[j] == prefix[j];
      assert forall k :: HasKey(rs, key, k) <==> HasKey(prefix, key, k) || k == key(rs[n]);
      if HasKey(prefix, key, key(rs[n])) then rest
      else
        var out := rest + [rs[n]];
        assert key(out[|rest|]) == key(rs[n]);
        assert FirstOfKey(rs, key, n);
        assert forall i :: 0 <= i < |rest| ==> out[i] == rest[i];
        out
  }
}
