/** The history window of aggregated occupancy vectors (a `deque` with
    `maxlen = max_states`) and its read-out with the sensor-fault column mask
    (`get_state`). */
module History {
  import opened Wrappers
  import Seqs
  import opened Occupancy

  /** `_get_initial_state`: twelve zeros, whatever the junction's movement count. */
  function InitialRow(): (row: Row)
    ensures |row| == 12
  {
    seq(12, _ => 0.0)
  }

  /** A bounded deque: appending to a full deque drops its leftmost row. */
  datatype Window = Window(rows: seq<Row>, maxlen: nat) {
    predicate Valid() {
      |rows| <= maxlen
    }
  }

  /** `deque([initial] * max_states, maxlen=max_states)`; `deque` rejects a
      negative `maxlen` with ValueError. */
  function Initial(maxStates: int): (r: Result<Window, PyError>)
    ensures r.Failure? <==> maxStates < 0
    ensures r.Failure? ==> r.error == ValueError
    ensures r.Success? ==> r.value.Valid() && r.value.maxlen == maxStates
    ensures r.Success? ==> |r.value.rows| == maxStates
    ensures r.Success? ==> forall i :: 0 <= i < maxStates ==> r.value.rows[i] == InitialRow()
  {
    if maxStates < 0 then Failure(ValueError)
    else Success(Window(seq(maxStates, _ => InitialRow()), maxStates))
  }

  /** `deque.append(row)`. */
  function Append(w: Window, row: Row): (w': Window)
    requires w.Valid()
    ensures w'.Valid() && w'.maxlen == w.maxlen
    ensures |w.rows| < w.maxlen ==> w'.rows == w.rows + [row]
    ensures |w.rows| == w.maxlen ==> |w'.rows| == w.maxlen
    ensures w.maxlen > 0 ==> |w'.rows| > 0 && w'.rows[|w'.rows| - 1] == row
    ensures |w.rows| == w.maxlen > 0 ==> w'.rows[..|w'.rows| - 1] == w.rows[1..]
  {
    if |w.rows| < w.maxlen then Window(w.rows + [row], w.maxlen)
    else if w.maxlen == 0 then w
    else Window(w.rows[1..] + [row], w.maxlen)
  }

  /** Appending a sequence of rows in order. */
  function AppendAll(w: Window, rows: seq<Row>): (w': Window)
    requires w.Valid()
    ensures w'.Valid() && w'.maxlen == w.maxlen
  {
    if |rows| == 0 then w else Append(AppendAll(w, rows[..|rows| - 1]), rows[|rows| - 1])
  }

  /** A full window stays full and holds exactly the newest `maxlen` rows ever
      appended, oldest first. */
  lemma {:induction false} AppendAllKeepsNewest(w: Window, rows: seq<Row>)
    requires w.Valid() && |w.rows| == w.maxlen
    ensures |AppendAll(w, rows).rows| == w.maxlen
    ensures AppendAll(w, rows).rows == (w.rows + rows)[|rows|..]
  {
    if |rows| > 0 {
      var init := rows[..|rows| - 1];
      var last := rows[|rows| - 1];
      AppendAllKeepsNewest(w, init);
      var prev := AppendAll(w, init);
      assert AppendAll(w, rows) == Append(prev, last);
      assert rows == init + [last];
      assert w.rows + rows == (w.rows + init) + [last];
      if w.maxlen > 0 {
        assert AppendAll(w, rows).rows == prev.rows[1..] + [last];
        SlideWindow(w.rows, init, last);
      } else {
        assert |w.rows + rows| == |rows|;
      }
    }
  }

  /** Sliding a window over `a + init` one step further to take in `x`. */
  lemma SlideWindow<T>(a: seq<T>, init: seq<T>, x: T)
    requires |a| > 0
    ensures (a + init)[|init|..][1..] + [x] == ((a + init) + [x])[|init| + 1..]
  {
    var s := a + init;
    assert s[|init|..][1..] == s[|init| + 1..];
    assert (s + [x])[|init| + 1..] == s[|init| + 1..] + [x];
  }

  /** After `max_states` appends the initial zero rows are gone. */
  lemma InitialRowsEvicted(maxStates: nat, rows: seq<Row>)
    requires |rows| >= maxStates
    ensures AppendAll(Initial(maxStates).value, rows).rows == rows[|rows| - maxStates..]
  {
    var w0 := Initial(maxStates).value;
    AppendAllKeepsNewest(w0, rows);
    TailOfConcat(w0.rows, rows);
  }

  /** Dropping `|b|` items from `a + b` leaves the last `|a|` items of `b`. */
  lemma TailOfConcat<T>(a: seq<T>, b: seq<T>)
    requires |b| >= |a|
    ensures (a + b)[|b|..] == b[|b| - |a|..]
  {
    var t := (a + b)[|b|..];
    forall k | 0 <= k < |a|
      ensures t[k] == b[|b| - |a| + k]
    {
      assert t[k] == (a + b)[|b| + k];
    }
  }

  /** `find_index(movement_ids, key)`: the first position of the key, or None;
      a None key is never found. */
  function FindIndex(movementIds: seq<string>, key: Option<string>): (r: Option<nat>)
    ensures r.None? <==> key.None? || key.value !in movementIds
    ensures r.Some? ==> r.value < |movementIds| && movementIds[r.value] == key.value
    ensures r.Some? ==> key.value !in movementIds[..r.value]
  {
    match key
    case None => None
    case Some(k) => Seqs.IndexOf(movementIds, k)
  }

  /** `tsc_state[:, c] = -1`: column `c` of every row becomes -1. */
  function MaskColumn(rows: seq<Row>, c: nat): (r: seq<Row>)
    ensures |r| == |rows|
    ensures forall i :: 0 <= i < |rows| ==> |r[i]| == |rows[i]|
    ensures forall i, j :: 0 <= i < |rows| && 0 <= j < |rows[i]| ==>
              r[i][j] == if j == c then -1.0 else rows[i][j]
  {
    seq(|rows|, i requires 0 <= i < |rows| =>
      seq(|rows[i]|, j requires 0 <= j < |rows[i]| => if j == c then -1.0 else rows[i][j]))
  }

  /** `get_state`: the window as a 2-D array with the faulted movement's column
      set to -1 in every row, historical rows included. A ragged window cannot
      become an array (ValueError); a column index past the array's width, or any
      index into an empty window, is an IndexError. */
  function GetState(w: Window, movementIds: seq<string>, notWorkElement: Option<string>): (r: Result<seq<Row>, PyError>)
    ensures !Rectangular(w.rows) ==> r == Failure(ValueError)
    ensures FindIndex(movementIds, notWorkElement).None? && Rectangular(w.rows) ==> r == Success(w.rows)
    ensures r.Success? ==> |r.value| == |w.rows|
    ensures r.Success? ==> forall i, j :: 0 <= i < |w.rows| && 0 <= j < |w.rows[i]| ==>
      |r.value[i]| == |w.rows[i]| &&
      r.value[i][j] == if Some(j) == FindIndex(movementIds, notWorkElement) then -1.0 else w.rows[i][j]
    ensures r.Failure? && Rectangular(w.rows) ==>
      r.error == IndexError && FindIndex(movementIds, notWorkElement).Some? &&
      (|w.rows| == 0 || FindIndex(movementIds, notWorkElement).value >= |w.rows[0]|)
  {
    if !Rectangular(w.rows) then Failure(ValueError)
    else
      match FindIndex(movementIds, notWorkElement)
      case None => Success(w.rows)
      case Some(c) =>
        if |w.rows| == 0 || c >= |w.rows[0]| then Failure(IndexError)
        else Success(MaskColumn(w.rows, c))
  }

  /** Masking a column twice is masking it once. */
  lemma MaskColumnIdempotent(rows: seq<Row>, c: nat)
    ensures MaskColumn(MaskColumn(rows, c), c) == MaskColumn(rows, c)
  {
    var once := MaskColumn(rows, c);
    var twice := MaskColumn(once, c);
    forall i | 0 <= i < |rows|
      ensures twice[i] == once[i]
    {
    }
  }

  /** Reading the window twice under the same fault gives the same array, and
      reading an already-masked window under that fault changes nothing. */
  lemma GetStateIdempotent(w: Window, movementIds: seq<string>, notWorkElement: Option<string>)
    requires GetState(w, movementIds, notWorkElement).Success?
    ensures GetState(Window(GetState(w, movementIds, notWorkElement).value, w.maxlen), movementIds, notWorkElement)
            == GetState(w, movementIds, notWorkElement)
  {
    var masked := GetState(w, movementIds, notWorkElement).value;
    match FindIndex(movementIds, notWorkElement)
    case None =>
    case Some(c) =>
      MaskColumnIdempotent(w.rows, c);
      assert Rectangular(masked);
  }
}
