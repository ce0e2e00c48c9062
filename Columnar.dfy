/** The part of the columnar engine (Spark) that path traversal relies on, by its documented
    semantics: rows of values, column expressions evaluated per row, and select with
    posexplode_outer. Columns are addressed by position, as Spark resolves a column reference
    to one attribute of the plan rather than to a name. */
module Columnar {
  import opened Options

  /** A cell value: SQL null, a scalar, a struct or an array. */
  datatype Value =
    | Null
    | IntValue(i: int)
    | StringValue(s: string)
    | BoolValue(b: bool)
    | StructValue(fields: map<string, Value>)
    | ArrayValue(items: seq<Value>)

  type Row = seq<Value>

  /** A dataset: its number of columns and its rows. */
  datatype Dataset = Dataset(width: nat, rows: seq<Row>)

  /** Every row has one cell per column. */
  ghost predicate WellFormed(d: Dataset)
  {
    forall i | 0 <= i < |d.rows| :: |d.rows[i]| == d.width
  }

  /** Column expressions. */
  datatype Column =
    | ColumnAt(position: nat)                      // a column of the dataset
    | GetField(parent: Column, name: string)       // parent.getField(name)
    | NullWhenNull(test: Column, otherwise: Column) // when(test.isNull(), lit(null)).otherwise(otherwise)
    | ExpandedEid(eid: Option<Column>, index: Column)  // an element id extended by an index

  /** The items of an element-id value; an absent element id, or a null one, has none. */
  function EidItems(eid: Option<Column>, row: Row): seq<Value>
    decreases eid, 0
  {
    match eid
    case None => []
    case Some(c) => match Eval(c, row) case ArrayValue(items) => items case _ => []
  }

  /** The value of a column expression in one row. A reference past the end of the row, or a
      field of something that is not a struct holding it, is null. */
  function Eval(c: Column, row: Row): Value
    decreases c, 1
  {
    match c
    case ColumnAt(p) => if p < |row| then row[p] else Null
    case GetField(parent, name) =>
      (match Eval(parent, row)
       case StructValue(fields) => if name in fields then fields[name] else Null
       case _ => Null)
    case NullWhenNull(test, otherwise) =>
      if Eval(test, row) == Null then Null else Eval(otherwise, row)
    case ExpandedEid(eid, index) => ArrayValue(EidItems(eid, row) + [Eval(index, row)])
  }

  /** The column reads only the first `width` cells of a row. */
  predicate Within(c: Column, width: nat)
  {
    match c
    case ColumnAt(p) => p < width
    case GetField(parent, _) => Within(parent, width)
    case NullWhenNull(test, otherwise) => Within(test, width) && Within(otherwise, width)
    case ExpandedEid(eid, index) => (eid.Some? ==> Within(eid.value, width)) && Within(index, width)
  }

  /** A column that reads only the first `width` cells also reads only the first `wider`. */
  lemma {:induction false} WithinWider(c: Column, width: nat, wider: nat)
    requires Within(c, width) && width <= wider
    ensures Within(c, wider)
  {
    match c
    case ColumnAt(_) =>
    case GetField(parent, _) => WithinWider(parent, width, wider);
    case NullWhenNull(test, otherwise) =>
      WithinWider(test, width, wider);
      WithinWider(otherwise, width, wider);
    case ExpandedEid(eid, index) =>
      if eid.Some? { WithinWider(eid.value, width, wider); }
      WithinWider(index, width, wider);
  }

  /** Appending cells to a row does not change the value of a column that reads only the
      cells already there: the existing columns keep their values after a select that adds
      columns. */
  lemma {:induction false} EvalExtend(c: Column, row: Row, extra: Row)
    requires Within(c, |row|)
    ensures Eval(c, row + extra) == Eval(c, row)
  {
    match c
    case ColumnAt(p) =>
      assert (row + extra)[p] == row[p];
    case GetField(parent, _) => EvalExtend(parent, row, extra);
    case NullWhenNull(test, otherwise) =>
      EvalExtend(test, row, extra);
      EvalExtend(otherwise, row, extra);
    case ExpandedEid(eid, index) =>
      if eid.Some? { EvalExtend(eid.value, row, extra); }
      EvalExtend(index, row, extra);
  }

  /** posexplode_outer on one value: (index, element) for each element of a non-empty array,
      and the single pair (null, null) for a null or empty array. */
  function PosExplodeOuter(v: Value): (pairs: seq<(Value, Value)>)
    ensures |pairs| >= 1
    ensures (v == Null || v == ArrayValue([])) ==> pairs == [(Null, Null)]
    ensures v.ArrayValue? && |v.items| > 0 ==>
      |pairs| == |v.items| && forall i | 0 <= i < |pairs| :: pairs[i] == (IntValue(i), v.items[i])
  {
    match v
    case ArrayValue(items) =>
      if |items| == 0 then [(Null, Null)]
      else seq(|items|, i requires 0 <= i < |items| => (IntValue(i), items[i]))
    case _ => [(Null, Null)]
  }

  /** The rows one input row becomes when `field` is exploded: the row's own cells followed by
      an index cell and a value cell; never fewer than one. */
  function ExplodeRow(row: Row, field: Column): (out: seq<Row>)
    ensures |out| >= 1
  {
    var pairs := PosExplodeOuter(Eval(field, row));
    seq(|pairs|, i requires 0 <= i < |pairs| => row + [pairs[i].0, pairs[i].1])
  }

  /** Each exploded row starts with the cells of its input row and adds two. */
  lemma ExplodeRowKeepsCells(row: Row, field: Column)
    ensures forall o | o in ExplodeRow(row, field) :: |o| == |row| + 2 && o[..|row|] == row
  {
  }

  /** A null or empty array gives exactly one row, with a null index and a null value; an
      n-element array gives n rows, the i-th holding index i and the i-th element. */
  lemma ExplodeRowCases(row: Row, field: Column)
    ensures var v := Eval(field, row);
      (v == Null || v == ArrayValue([])) ==> ExplodeRow(row, field) == [row + [Null, Null]]
    ensures var v := Eval(field, row);
      v.ArrayValue? && |v.items| > 0 ==>
        |ExplodeRow(row, field)| == |v.items| &&
        forall i | 0 <= i < |v.items| :: ExplodeRow(row, field)[i] == row + [IntValue(i), v.items[i]]
  {
  }

  /** The concatenation of f(x) over the elements x of xs, in order. */
  function FlatMap<A, B>(xs: seq<A>, f: A -> seq<B>): seq<B>
  {
    if |xs| == 0 then [] else f(xs[0]) + FlatMap(xs[1..], f)
  }

  /** When every element maps to at least one output, there are at least as many outputs as
      elements. */
  lemma {:induction false} FlatMapLength<A, B>(xs: seq<A>, f: A -> seq<B>)
    requires forall i | 0 <= i < |xs| :: |f(xs[i])| >= 1
    ensures |FlatMap(xs, f)| >= |xs|
  {
    if |xs| > 0 {
      assert forall i | 0 <= i < |xs[1..]| :: xs[1..][i] == xs[i + 1];
      FlatMapLength(xs[1..], f);
    }
  }

  /** Where the outputs of element i start: after those of the elements before it. */
  function BlockStart<A, B>(xs: seq<A>, f: A -> seq<B>, i: nat): (k: nat)
    requires i <= |xs|
    ensures k + (if i < |xs| then |f(xs[i])| else 0) <= |FlatMap(xs, f)|
  {
    if i == 0 then 0
    else
      assert i < |xs| ==> xs[1..][i - 1] == xs[i];
      |f(xs[0])| + BlockStart(xs[1..], f, i - 1)
  }

  /** A block found in the second half of a concatenation is found in the whole, shifted by
      the length of the first half. */
  lemma BlockOfAppend<T>(whole: seq<T>, a: seq<T>, b: seq<T>, block: seq<T>, k: nat)
    requires whole == a + b
    requires k + |block| <= |b| && b[k..k + |block|] == block
    ensures |a| + k + |block| <= |whole| && whole[|a| + k..|a| + k + |block|] == block
  {
  }

  /** The outputs of every element appear as one contiguous block, in element order. */
  lemma {:induction false} FlatMapBlock<A, B>(xs: seq<A>, f: A -> seq<B>, i: nat)
    requires i < |xs|
    ensures var k := BlockStart(xs, f, i);
      FlatMap(xs, f)[k..k + |f(xs[i])|] == f(xs[i])
  {
    var out := FlatMap(xs, f);
    var first := f(xs[0]);
    var rest := FlatMap(xs[1..], f);
    assert out == first + rest;
    if i == 0 {
      assert out[0..|first|] == first;
    } else {
      FlatMapBlock(xs[1..], f, i - 1);
      assert xs[1..][i - 1] == xs[i];
      var k := BlockStart(xs[1..], f, i - 1);
      BlockOfAppend(out, first, rest, f(xs[i]), k);
    }
  }

  /** Every output comes from the block of some element. */
  lemma {:induction false} FlatMapOrigin<A, B>(xs: seq<A>, f: A -> seq<B>, j: nat)
    requires j < |FlatMap(xs, f)|
    ensures exists i :: 0 <= i < |xs| && FlatMap(xs, f)[j] in f(xs[i])
  {
    var first := f(xs[0]);
    var rest := FlatMap(xs[1..], f);
    if j < |first| {
      assert FlatMap(xs, f)[j] == first[j];
    } else {
      assert FlatMap(xs, f)[j] == rest[j - |first|];
      FlatMapOrigin(xs[1..], f, j - |first|);
      var i :| 0 <= i < |xs[1..]| && rest[j - |first|] in f(xs[1..][i]);
      assert xs[1..][i] == xs[i + 1];
    }
  }

  /** The rows of all input rows, exploded in order; no input row is lost. */
  function ExplodeRows(rows: seq<Row>, field: Column): (out: seq<Row>)
    ensures |out| >= |rows|
  {
    var f := (r: Row) => ExplodeRow(r, field);
    FlatMapLength(rows, f);
    FlatMap(rows, f)
  }

  /** Exploding rows of `width` cells gives rows of width + 2 cells. */
  lemma ExplodeRowsWidth(rows: seq<Row>, field: Column, width: nat)
    requires forall i | 0 <= i < |rows| :: |rows[i]| == width
    ensures forall j | 0 <= j < |ExplodeRows(rows, field)| :: |ExplodeRows(rows, field)[j]| == width + 2
  {
    forall j | 0 <= j < |ExplodeRows(rows, field)| ensures |ExplodeRows(rows, field)[j]| == width + 2 {
      ExplodeRowsLineage(rows, field, j);
    }
  }

  /** Lineage: every output row is one of the rows some input row explodes into, so it starts
      with that input row's cells and every column of the input dataset is kept. */
  lemma ExplodeRowsLineage(rows: seq<Row>, field: Column, j: nat)
    requires j < |ExplodeRows(rows, field)|
    ensures exists i :: (0 <= i < |rows| && ExplodeRows(rows, field)[j] in ExplodeRow(rows[i], field)
      && |ExplodeRows(rows, field)[j]| == |rows[i]| + 2
      && ExplodeRows(rows, field)[j][..|rows[i]|] == rows[i])
  {
    var f := (r: Row) => ExplodeRow(r, field);
    FlatMapOrigin(rows, f, j);
    var i :| 0 <= i < |rows| && FlatMap(rows, f)[j] in f(rows[i]);
    ExplodeRowKeepsCells(rows[i], field);
  }

  /** The rows every input row explodes into appear in the output as one contiguous block, in
      input order. */
  lemma ExplodeRowsCoverage(rows: seq<Row>, field: Column, i: nat)
    requires i < |rows|
    ensures var k := BlockStart(rows, (r: Row) => ExplodeRow(r, field), i);
      k + |ExplodeRow(rows[i], field)| <= |ExplodeRows(rows, field)| &&
      ExplodeRows(rows, field)[k..k + |ExplodeRow(rows[i], field)|] == ExplodeRow(rows[i], field)
  {
    FlatMapBlock(rows, (r: Row) => ExplodeRow(r, field), i);
  }

  /** The k-th row that input row i explodes into is an output row that starts with all of
      row i's cells, so every column reading only those cells reads the same value there. */
  lemma ExplodedRowKeepsColumns(rows: seq<Row>, field: Column, i: nat, k: nat, c: Column)
    requires i < |rows| && k < |ExplodeRow(rows[i], field)|
    requires Within(c, |rows[i]|)
    ensures var o := ExplodeRow(rows[i], field)[k];
      && o in ExplodeRows(rows, field)
      && o[..|rows[i]|] == rows[i]
      && Eval(c, o) == Eval(c, rows[i])
  {
    var row := rows[i];
    var block := ExplodeRow(row, field);
    var o := block[k];
    ExplodeRowsCoverage(rows, field, i);
    var start := BlockStart(rows, (r: Row) => ExplodeRow(r, field), i);
    assert o == ExplodeRows(rows, field)[start + k];
    ExplodeRowKeepsCells(row, field);
    assert o in block;
    assert o == row + o[|row|..];
    EvalExtend(c, row, o[|row|..]);
  }

  /** select(all existing columns, posexplode_outer(field) as (index, value)): the index lands at
      position width and the value at width + 1. */
  function SelectWithPosExplode(d: Dataset, field: Column): (r: Dataset)
    requires WellFormed(d)
    ensures r.width == d.width + 2 && WellFormed(r)
    ensures |r.rows| >= |d.rows|
  {
    ExplodeRowsWidth(d.rows, field, d.width);
    Dataset(d.width + 2, ExplodeRows(d.rows, field))
  }

  /** The index and value cells of the k-th row a row explodes into, and the element id that
      extends an element id of the input row by that index. */
  lemma ExplodedCells(row: Row, field: Column, k: nat, eid: Option<Column>)
    requires k < |ExplodeRow(row, field)|
    requires eid.Some? ==> Within(eid.value, |row|)
    ensures var o := ExplodeRow(row, field)[k];
      var v := Eval(field, row);
      var w := |row|;
      && ((v == Null || v == ArrayValue([])) ==>
            |ExplodeRow(row, field)| == 1 && o[w] == Null && o[w + 1] == Null
            && Eval(ExpandedEid(eid, ColumnAt(w)), o) == ArrayValue(EidItems(eid, row) + [Null]))
      && (v.ArrayValue? && |v.items| > 0 ==>
            o[w] == IntValue(k) && o[w + 1] == v.items[k]
            && Eval(ExpandedEid(eid, ColumnAt(w)), o) == ArrayValue(EidItems(eid, row) + [IntValue(k)]))
  {
    var o := ExplodeRow(row, field)[k];
    ExplodeRowCases(row, field);
    ExplodeRowKeepsCells(row, field);
    assert o in ExplodeRow(row, field);
    assert o == row + o[|row|..];
    if eid.Some? { EvalExtend(eid.value, row, o[|row|..]); }
  }
}
