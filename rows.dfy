/** The shape shared by the two loops of the core that rewrite a list of CSV
    rows in place, `for row in rows: <update row>` (integrate.py, joinDictData;
    addVesselName.py, main): each row is replaced by its updated value in list
    order, and the first row whose update raises stops the loop with the rows
    before it already updated and the rows from it on untouched. */
module Rows {
  import opened PyResult

  /** The rows of `rows` after the loop, and how the loop ended. */
  function ApplyRows<T>(rows: seq<T>, update: T -> Result<T>): (r: (seq<T>, Outcome))
    ensures |r.0| == |rows|
    ensures r.1.Raised? ==> exists i :: 0 <= i < |rows| && update(rows[i]) == Err(r.1.error)
    decreases |rows|
  {
    if |rows| == 0 then ([], Completed)
    else match update(rows[0])
      case Err(e) => (rows, Raised(e))
      case Ok(updated) =>
        var (rest, outcome) := ApplyRows(rows[1..], update);
        assert forall i :: 0 <= i < |rows| - 1 ==> rows[1..][i] == rows[i + 1];
        ([updated] + rest, outcome)
  }

  /** The index of the first row on which `update` raises, or `|rows|` if there is none. */
  function FirstFailure<T>(rows: seq<T>, update: T -> Result<T>): (k: nat)
    ensures k <= |rows|
    ensures forall i :: 0 <= i < k ==> update(rows[i]).Ok?
    ensures k < |rows| ==> update(rows[k]).Err?
    decreases |rows|
  {
    if |rows| == 0 then 0
    else if update(rows[0]).Err? then 0
    else 1 + FirstFailure(rows[1..], update)
  }

  /** What the loop leaves behind: the same number of rows, the rows before the
      first failure updated, the rest unchanged, and the exception of the
      first failing row if there is one. */
  lemma {:induction false} ApplyRowsEffect<T>(rows: seq<T>, update: T -> Result<T>)
    ensures var (out, outcome) := ApplyRows(rows, update);
            var k := FirstFailure(rows, update);
            && |out| == |rows|
            && (forall i :: 0 <= i < k ==> out[i] == update(rows[i]).value)
            && (forall i :: k <= i < |rows| ==> out[i] == rows[i])
            && outcome == if k == |rows| then Completed else Raised(update(rows[k]).error)
    decreases |rows|
  {
    if |rows| > 0 && update(rows[0]).Ok? {
      ApplyRowsEffect(rows[1..], update);
      var (rest, outcome) := ApplyRows(rows[1..], update);
      var out := [update(rows[0]).value] + rest;
      assert forall i :: 1 <= i < |out| ==> out[i] == rest[i - 1];
    }
  }

  /** When the rows before `k` succeed and row `k` raises, the loop stops
      there: the rows before `k` are updated, row `k` and the rest are kept,
      and the exception is row `k`'s. */
  lemma ApplyRowsStopsAt<T>(rows: seq<T>, update: T -> Result<T>, k: nat)
    requires k < |rows| && update(rows[k]).Err?
    requires forall i :: 0 <= i < k ==> update(rows[i]).Ok?
    ensures var (out, outcome) := ApplyRows(rows, update);
            && outcome == Raised(update(rows[k]).error)
            && |out| == |rows|
            && (forall i :: 0 <= i < k ==> out[i] == update(rows[i]).value)
            && (forall i :: k <= i < |rows| ==> out[i] == rows[i])
  {
    ApplyRowsEffect(rows, update);
    assert FirstFailure(rows, update) == k;
  }

  /** The loop completes exactly when no row raises. */
  lemma ApplyRowsCompletes<T>(rows: seq<T>, update: T -> Result<T>)
    ensures ApplyRows(rows, update).1 == Completed <==>
            forall i :: 0 <= i < |rows| ==> update(rows[i]).Ok?
  {
    ApplyRowsEffect(rows, update);
  }

  /** A loop state that matches "rows before `i` updated, the others untouched,
      and row `i` raises unless `i` is the end" is the result of ApplyRows. */
  lemma ApplyRowsStoppedAt<T>(before: seq<T>, update: T -> Result<T>, after: seq<T>, i: nat)
    requires |after| == |before| && i <= |before|
    requires forall j :: 0 <= j < i ==> update(before[j]).Ok? && after[j] == update(before[j]).value
    requires forall j :: i <= j < |before| ==> after[j] == before[j]
    requires i < |before| ==> update(before[i]).Err?
    ensures ApplyRows(before, update) ==
            (after, if i == |before| then Completed else Raised(update(before[i]).error))
  {
    ApplyRowsEffect(before, update);
    var k := FirstFailure(before, update);
    assert k == i;
    var out := ApplyRows(before, update).0;
    assert |out| == |after|;
    assert forall j :: 0 <= j < |out| ==> out[j] == after[j];
    assert out == after;
  }
}
