/** The occupancy buffer (`OccupancyList`): it records one occupancy vector per
    simulator substep while a decision step is gated, then reduces the buffer
    to the element-wise mean divided by 100 and empties it. The class is
    defined twice in the source, identically; both copies are this module. */
module Occupancy {
  import opened Wrappers
  import opened PyValues
  import Seqs

  /** One occupancy vector, one entry per movement. */
  type Row = seq<real>

  /** A reading as the agent tools report it: `Percent(v)` stands for the text
      `f"{v*100}%"` (its exact digits are not modelled), `Missing` for "-1". */
  datatype OccText = Missing | Percent(fraction: real)

  /** The buffered vectors, oldest first. */
  datatype Buffer = Buffer(elements: seq<Row>)

  /** A freshly constructed (or cleared) buffer. */
  function NewBuffer(): Buffer {
    Buffer([])
  }

  /** A Python list whose every element is a `float`. */
  predicate IsFloatList(v: PyValue) {
    v.PyList? && forall i :: 0 <= i < |v.items| ==> v.items[i].PyFloat?
  }

  /** A row as the Python list of floats it stands for. */
  function ToPyList(row: Row): (v: PyValue)
    ensures IsFloatList(v)
  {
    PyList(seq(|row|, i requires 0 <= i < |row| => PyFloat(row[i])))
  }

  /** The floats of a float list, in order. */
  function FloatsOf(v: PyValue): (row: Row)
    requires IsFloatList(v)
    ensures ToPyList(row) == v
  {
    seq(|v.items|, i requires 0 <= i < |v.items| => v.items[i].f)
  }

  /** `add_element`: a non-list is a TypeError, a list holding anything but
      floats is a ValueError; otherwise the buffer grows by exactly that vector.
      The empty list is accepted. */
  function AddElement(b: Buffer, element: PyValue): (r: Result<Buffer, PyError>)
    ensures r.Success? <==> IsFloatList(element)
    ensures !element.PyList? ==> r == Failure(TypeError)
    ensures element.PyList? && !IsFloatList(element) ==> r == Failure(ValueError)
    ensures r.Success? ==>
      && |r.value.elements| == |b.elements| + 1
      && r.value.elements[..|b.elements|] == b.elements
      && ToPyList(r.value.elements[|b.elements|]) == element
  {
    if !element.PyList? then Failure(TypeError)
    else if !IsFloatList(element) then Failure(ValueError)
    else Success(Buffer(b.elements + [FloatsOf(element)]))
  }

  /** All rows have the same length, so `np.array` builds a 2-D array. */
  predicate Rectangular(rows: seq<Row>) {
    forall i :: 0 <= i < |rows| ==> |rows[i]| == |rows[0]|
  }

  /** Column `j` of a rectangular array: the reference for the mean. */
  function Column(rows: seq<Row>, j: nat): (c: seq<real>)
    requires forall i :: 0 <= i < |rows| ==> j < |rows[i]|
    ensures |c| == |rows|
  {
    seq(|rows|, i requires 0 <= i < |rows| => rows[i][j])
  }

  /** Element-wise sum of the rows, built row by row. */
  function ColumnTotals(rows: seq<Row>, width: nat): (t: Row)
    requires forall i :: 0 <= i < |rows| ==> |rows[i]| == width
    ensures |t| == width
    ensures forall j :: 0 <= j < width ==> t[j] == Seqs.Sum(Column(rows, j))
  {
    if |rows| == 0 then seq(width, _ => 0.0)
    else
      var prev := ColumnTotals(rows[..|rows| - 1], width);
      var last := rows[|rows| - 1];
      var t := seq(width, j requires 0 <= j < width => prev[j] + last[j]);
      assert forall j :: 0 <= j < width ==>
        Column(rows, j)[..|rows| - 1] == Column(rows[..|rows| - 1], j);
      t
  }

  /** `calculate_average`: the element-wise mean of the buffered vectors divided
      by 100, and the emptied buffer. The source does not guard an empty buffer,
      so one recorded vector is required; a ragged buffer cannot become a numpy
      array and raises ValueError, leaving the buffer as it was. */
  function CalculateAverage(b: Buffer): (r: Result<(Row, Buffer), PyError>)
    requires |b.elements| > 0
    ensures r.Failure? <==> !Rectangular(b.elements)
    ensures r.Failure? ==> r.error == ValueError
    ensures r.Success? ==> r.value.1 == NewBuffer()
    ensures r.Success? ==>
      && |r.value.0| == |b.elements[0]|
      && forall j :: 0 <= j < |r.value.0| ==>
           r.value.0[j] == Seqs.Sum(Column(b.elements, j)) / (|b.elements| as real * 100.0)
  {
    if !Rectangular(b.elements) then Failure(ValueError)
    else
      var n := |b.elements| as real;
      var width := |b.elements[0]|;
      var totals := ColumnTotals(b.elements, width);
      Success((seq(width, j requires 0 <= j < width => totals[j] / (n * 100.0)), NewBuffer()))
  }

  /** Readings in percent units, [0, 100], average to fractions in [0, 1]. */
  lemma AverageIsFraction(b: Buffer)
    requires |b.elements| > 0 && Rectangular(b.elements)
    requires forall i, j :: 0 <= i < |b.elements| && 0 <= j < |b.elements[i]| ==>
               0.0 <= b.elements[i][j] <= 100.0
    ensures CalculateAverage(b).Success?
    ensures forall j :: 0 <= j < |CalculateAverage(b).value.0| ==>
              0.0 <= CalculateAverage(b).value.0[j] <= 1.0
  {
    var avg := CalculateAverage(b).value.0;
    var n := |b.elements| as real;
    forall j | 0 <= j < |avg|
      ensures 0.0 <= avg[j] <= 1.0
    {
      Seqs.SumBounds(Column(b.elements, j), 0.0, 100.0);
      FractionBounds(Seqs.Sum(Column(b.elements, j)), n * 100.0);
    }
  }

  /** A quantity within [0, d] divided by a positive `d` lies within [0, 1]. */
  lemma FractionBounds(x: real, d: real)
    requires d > 0.0 && 0.0 <= x <= d
    ensures 0.0 <= x / d <= 1.0
  {
  }

  /** A buffer holding `k` copies of one vector averages to that vector / 100. */
  lemma AverageOfRepeatedRow(b: Buffer, v: Row)
    requires |b.elements| > 0
    requires forall i :: 0 <= i < |b.elements| ==> b.elements[i] == v
    ensures CalculateAverage(b) == Success((seq(|v|, j requires 0 <= j < |v| => v[j] / 100.0), NewBuffer()))
  {
    assert Rectangular(b.elements);
    var avg := CalculateAverage(b).value.0;
    var n := |b.elements| as real;
    forall j | 0 <= j < |v|
      ensures avg[j] == v[j] / 100.0
    {
      var col := Column(b.elements, j);
      Seqs.SumConstant(col, v[j]);
      assert avg[j] == Seqs.Sum(col) / (n * 100.0);
      DivideOutCount(n, Seqs.Sum(col), v[j]);
    }
    assert avg == seq(|v|, j requires 0 <= j < |v| => v[j] / 100.0);
  }

  /** A total of `n` copies of `x`, divided by `n·100`, is `x / 100` for a positive count `n`. */
  lemma DivideOutCount(n: real, total: real, x: real)
    requires n > 0.0 && total == n * x
    ensures total / (n * 100.0) == x / 100.0
  {
    assert total / (n * 100.0) * (n * 100.0) == n * x;
  }

  /** Two substeps [10, 20] and [30, 40] (percent) average to [0.2, 0.3]. */
  lemma AverageExample()
    ensures CalculateAverage(Buffer([[10.0, 20.0], [30.0, 40.0]])) == Success(([0.2, 0.3], NewBuffer()))
  {
    var rows := [[10.0, 20.0], [30.0, 40.0]];
    var b := Buffer(rows);
    assert Rectangular(rows);
    assert Column(rows, 0) == [10.0, 30.0];
    assert Column(rows, 1) == [20.0, 40.0];
    assert Seqs.Sum([10.0, 30.0]) == 40.0 by {
      assert [10.0, 30.0][..1] == [10.0];
      assert [10.0][..0] == [];
    }
    assert Seqs.Sum([20.0, 40.0]) == 60.0 by {
      assert [20.0, 40.0][..1] == [20.0];
      assert [20.0][..0] == [];
    }
    var avg := CalculateAverage(b).value.0;
    assert |avg| == 2;
    assert avg[0] == 0.2;
    assert avg[1] == 0.3;
    assert avg == [0.2, 0.3];
  }

  /** Recording vectors one by one into a fresh buffer keeps exactly the
      recorded vectors, in order: nothing from before and nothing twice. */
  lemma {:induction false} RecordAll(vs: seq<PyValue>)
    requires forall i :: 0 <= i < |vs| ==> IsFloatList(vs[i])
    ensures RecordEach(NewBuffer(), vs).Success?
    ensures |RecordEach(NewBuffer(), vs).value.elements| == |vs|
    ensures forall i :: 0 <= i < |vs| ==>
              ToPyList(RecordEach(NewBuffer(), vs).value.elements[i]) == vs[i]
  {
    if |vs| > 0 {
      RecordAll(vs[..|vs| - 1]);
    }
  }

  /** Recording succeeds exactly when every vector is a list of numbers, and
      then adds one row per vector. */
  lemma {:induction false} RecordEachFloats(b: Buffer, vs: seq<PyValue>)
    ensures RecordEach(b, vs).Success? <==> forall j :: 0 <= j < |vs| ==> IsFloatList(vs[j])
    ensures RecordEach(b, vs).Success? ==> |RecordEach(b, vs).value.elements| == |b.elements| + |vs|
  {
    if |vs| > 0 {
      var init := vs[..|vs| - 1];
      RecordEachFloats(b, init);
      assert forall j :: 0 <= j < |init| ==> init[j] == vs[j];
    }
  }

  /** Recording a list of vectors in order, stopping at the first exception. */
  function RecordEach(b: Buffer, vs: seq<PyValue>): (r: Result<Buffer, PyError>)
  {
    if |vs| == 0 then Success(b)
    else
      match RecordEach(b, vs[..|vs| - 1])
      case Failure(e) => Failure(e)
      case Success(b') => AddElement(b', vs[|vs| - 1])
  }
}
