/** Late self-reported submissions: every original row of a school that
    submitted late is dropped, and the late rows are appended. The CCRI and
    Growth-to-Grad inputs are updated this way. */
module LateSubmissions {
  import opened Wrappers

  /** The rows whose school is not among `ids`. */
  function Without<R>(rows: seq<R>, id: R -> int, ids: set<int>): (out: seq<R>)
    ensures |out| <= |rows|
    ensures forall i :: 0 <= i < |out| ==> id(out[i]) !in ids && out[i] in rows
    ensures forall i :: 0 <= i < |rows| && id(rows[i]) !in ids ==> rows[i] in out
  {
    if |rows| == 0 then []
    else
      var rest := Without(rows[1..], id, ids);
      assert forall i :: 1 <= i < |rows| ==> rows[i] == rows[1..][i - 1];
      if id(rows[0]) in ids then rest else [rows[0]] + rest
  }

  /** Each row of a school not among `ids` is kept as often as it occurs;
      no row of a school among them is kept. */
  lemma {:induction false} WithoutCounts<R(!new)>(rows: seq<R>, id: R -> int, ids: set<int>)
    ensures forall r :: multiset(Without(rows, id, ids))[r] == if id(r) in ids then 0 else multiset(rows)[r]
  {
    if |rows| > 0 {
      WithoutCounts(rows[1..], id, ids);
      assert rows == [rows[0]] + rows[1..];
      assert multiset(rows) == multiset{rows[0]} + multiset(rows[1..]);
    }
  }

  function Ids<R>(rows: seq<R>, id: R -> int): (s: set<int>)
    ensures forall i :: 0 <= i < |rows| ==> id(rows[i]) in s
    ensures forall k :: k in s ==> exists i :: 0 <= i < |rows| && id(rows[i]) == k
  {
    set i | 0 <= i < |rows| :: id(rows[i])
  }

  /** The original rows of the schools without a late submission, then the
      late rows. */
  function Replace<R>(original: seq<R>, late: seq<R>, id: R -> int): (out: seq<R>)
    ensures |late| <= |out| <= |original| + |late|
    ensures out[|out| - |late|..] == late
    ensures forall i :: 0 <= i < |out| - |late| ==> out[i] in original && id(out[i]) !in Ids(late, id)
    ensures forall i :: 0 <= i < |original| && id(original[i]) !in Ids(late, id) ==> original[i] in out
  {
    var kept := Without(original, id, Ids(late, id));
    assert (kept + late)[|kept|..] == late;
    assert forall i :: 0 <= i < |kept| ==> (kept + late)[i] == kept[i];
    kept + late
  }

  /** A late row's eligibility as the late-submission step reads it
      (`True if x == 1 else False`): a reported value is kept, and a missing
      one becomes not eligible. */
  function ReadEligibility(reported: Option<bool>): (e: Option<bool>)
    ensures e.Some?
    ensures reported.Some? ==> e == reported
    ensures reported.None? ==> e == Some(false)
  {
    match reported
    case Some(x) => Some(x)
    case None => Some(false)
  }

  /** The replacement where each late row is first read by `read`, which
      keeps its school: the original rows of the schools without a late row,
      in order, then the late rows as read. */
  function ReplaceRead<R(!new)>(original: seq<R>, late: seq<R>, id: R -> int, read: R -> R): (out: seq<R>)
    requires forall r :: id(read(r)) == id(r)
    ensures |late| <= |out|
    ensures out[..|out| - |late|] == Without(original, id, Ids(late, id))
    ensures forall k :: 0 <= k < |late| ==> out[|out| - |late| + k] == read(late[k])
    ensures forall i :: 0 <= i < |out| - |late| ==> out[i] in original && id(out[i]) !in Ids(late, id)
    ensures forall i :: 0 <= i < |original| && id(original[i]) !in Ids(late, id) ==> original[i] in out
  {
    var readRows := seq(|late|, k requires 0 <= k < |late| => read(late[k]));
    assert Ids(readRows, id) == Ids(late, id) by {
      forall x | x in Ids(late, id) ensures x in Ids(readRows, id) {
        var k :| 0 <= k < |late| && id(late[k]) == x;
        assert id(readRows[k]) == x;
      }
    }
    var out := Replace(original, readRows, id);
    assert out == Without(original, id, Ids(late, id)) + readRows;
    out
  }

  /** After the replacement a row occurs as often as the late rows hold it,
      plus as often as the original rows do when its school was not late. */
  lemma ReplaceCounts<R(!new)>(original: seq<R>, late: seq<R>, id: R -> int)
    ensures forall r :: multiset(Replace(original, late, id))[r] ==
              (if id(r) in Ids(late, id) then 0 else multiset(original)[r]) + multiset(late)[r]
  {
    var ids := Ids(late, id);
    WithoutCounts(original, id, ids);
    assert Replace(original, late, id) == Without(original, id, ids) + late;
  }

  lemma {:induction false} WithoutAppend<R>(a: seq<R>, b: seq<R>, id: R -> int, ids: set<int>)
    ensures Without(a + b, id, ids) == Without(a, id, ids) + Without(b, id, ids)
  {
    if |a| > 0 {
      assert (a + b)[1..] == a[1..] + b;
      WithoutAppend(a[1..], b, id, ids);
    } else {
      assert a + b == b;
    }
  }

  lemma {:induction false} WithoutOwnIds<R>(rows: seq<R>, id: R -> int, ids: set<int>)
    requires forall i :: 0 <= i < |rows| ==> id(rows[i]) in ids
    ensures Without(rows, id, ids) == []
  {
    if |rows| > 0 {
      assert forall i :: 0 <= i < |rows[1..]| ==> rows[1..][i] == rows[i + 1];
      WithoutOwnIds(rows[1..], id, ids);
    }
  }

  lemma {:induction false} WithoutTwice<R>(rows: seq<R>, id: R -> int, ids: set<int>)
    ensures Without(Without(rows, id, ids), id, ids) == Without(rows, id, ids)
  {
    if |rows| > 0 {
      WithoutTwice(rows[1..], id, ids);
    }
  }

  /** Applying the same late submissions twice changes nothing more. */
  lemma ReplaceIdempotent<R>(original: seq<R>, late: seq<R>, id: R -> int)
    ensures Replace(Replace(original, late, id), late, id) == Replace(original, late, id)
  {
    var ids := Ids(late, id);
    var kept := Without(original, id, ids);
    WithoutAppend(kept, late, id, ids);
    WithoutTwice(original, id, ids);
    WithoutOwnIds(late, id, ids);
  }
}
