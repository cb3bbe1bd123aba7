/** The required-columns check the proficiency and Growth-to-Grad scorers
    run before anything else: a frame lacking a column is rejected with an
    error naming every missing column, in the order they are required. */
module Columns {
  import opened Wrappers

  /** The required columns absent from the frame, in required order. */
  function MissingColumns(required: seq<string>, present: set<string>): (missing: seq<string>)
    ensures |missing| <= |required|
    ensures forall c :: c in missing <==> c in required && c !in present
  {
    if |required| == 0 then []
    else
      var rest := MissingColumns(required[1..], present);
      assert forall c :: c in required <==> c == required[0] || c in required[1..];
      if required[0] in present then rest else [required[0]] + rest
  }

  /** Accepts a frame holding every required column; otherwise fails with
      the list of the missing ones, which is never empty. */
  function CheckColumns(required: seq<string>, present: set<string>): (r: Result<(), seq<string>>)
    ensures r.Success? <==> forall c :: c in required ==> c in present
    ensures r.Failure? ==> |r.error| > 0 && forall c :: c in r.error <==> c in required && c !in present
  {
    var missing := MissingColumns(required, present);
    if |missing| == 0 then Success(())
    else
      assert missing[0] in missing;
      Failure(missing)
  }

  /** Adding a column to the frame can only shorten the list of missing ones. */
  lemma {:induction false} MissingColumnsShrink(required: seq<string>, present: set<string>, c: string)
    ensures |MissingColumns(required, present + {c})| <= |MissingColumns(required, present)|
  {
    if |required| > 0 {
      MissingColumnsShrink(required[1..], present, c);
    }
  }
}
