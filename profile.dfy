/**
 The analysis step of the data-analysis screen (DataAnalysisScreen.jsx,
 lines 26-34): the summary record built from the parsed rows, and the column
 labelling run over the keys of the first row. Also the consistency between
 the two helpers: on a rectangular dataset, the present cells seen column by
 column and the missing cells counted row by row make up every cell.
 */
module Profile {
  import opened Cells
  import opened DatePattern
  import opened MissingValues
  import opened ColumnTypes

  /** The `dataSummary` object. */
  datatype DataSummary = DataSummary(rows: nat, columns: nat, missingValues: nat, duplicateRows: nat)

  /** Lines 26-34: build the summary and label the columns of the first row. */
  method Analyze(data: seq<Row>) returns (summary: DataSummary, types: TypeProfile)
    ensures summary.rows == |data|
    ensures summary.columns == (if data == [] then 0 else |data[0]|)
    ensures summary.missingValues == MissingCount(data)
    ensures summary.duplicateRows == 0
    ensures types.columns == LabelMap(data, Header(data))
    ensures types.numeric == Tally(data, Header(data), Numeric)
    ensures types.datetime == Tally(data, Header(data), Datetime)
    ensures types.categorical == Tally(data, Header(data), Categorical) + Tally(data, Header(data), Unknown)
    ensures types.numeric + types.categorical + types.datetime == summary.columns
    ensures data != [] && WellFormedRow(data[0]) ==> |types.columns| == summary.columns
    ensures data == [] ==> summary == DataSummary(0, 0, 0, 0) && types == TypeProfile(0, 0, 0, map[])
  {
    var header := Header(data);
    var missing := CountMissingValues(data);
    summary := DataSummary(|data|, |header|, missing, 0);
    if data != [] && WellFormedRow(data[0]) {
      HeaderDistinct(data);
    }
    types := DetectColumnTypes(data, header);
  }

  // ---------------------------------------------------------------------
  // Present cells by column plus missing cells by row make up every cell.

  /** 1 when the row's cell in `column` is present, 0 otherwise. */
  function PresentIn(row: Row, column: string): nat
  {
    if IsMissing(Get(row, column)) then 0 else 1
  }

  /** The present cells of one row over the given columns. */
  function RowPresent(row: Row, columns: seq<string>): nat
  {
    if columns == [] then 0
    else RowPresent(row, columns[..|columns| - 1]) + PresentIn(row, columns[|columns| - 1])
  }

  /** The number of present values over all the given columns: the sum of
      the lengths of the filtered column lists the inferrer builds. */
  function PresentTotal(rows: seq<Row>, columns: seq<string>): nat
  {
    if columns == [] then 0
    else PresentTotal(rows, columns[..|columns| - 1]) + |Present(ColumnCells(rows, columns[|columns| - 1]))|
  }

  /** Looking a key up in a split row. */
  lemma {:induction false} GetAppend(a: Row, b: Row, column: string)
    ensures Get(a + b, column) == if column in Keys(a) then Get(a, column) else Get(b, column)
  {
    if a == [] {
      assert a + b == b;
    } else {
      assert (a + b)[0] == a[0] && (a + b)[1..] == a[1..] + b;
      assert column in Keys(a) <==> column == a[0].key || column in Keys(a[1..]);
      GetAppend(a[1..], b, column);
    }
  }

  lemma {:induction false} RowPresentSame(r1: Row, r2: Row, columns: seq<string>)
    requires forall i :: 0 <= i < |columns| ==> Get(r1, columns[i]) == Get(r2, columns[i])
    ensures RowPresent(r1, columns) == RowPresent(r2, columns)
  {
    if columns != [] {
      RowPresentSame(r1, r2, columns[..|columns| - 1]);
    }
  }

  lemma KeysSnoc(row: Row)
    requires row != []
    ensures Keys(row) == Keys(row[..|row| - 1]) + [row[|row| - 1].key]
  {
    var l, r := Keys(row), Keys(row[..|row| - 1]) + [row[|row| - 1].key];
    assert |l| == |r|;
    forall i | 0 <= i < |l| ensures l[i] == r[i] {
      if i < |row| - 1 { assert row[..|row| - 1][i] == row[i]; }
    }
  }

  /** Appending a property does not change the lookup of the earlier keys. */
  lemma GetEarlierKeys(init: Row, f: Field)
    ensures forall i :: 0 <= i < |Keys(init)| ==> Get(init + [f], Keys(init)[i]) == Get(init, Keys(init)[i])
  {
    forall i | 0 <= i < |Keys(init)| ensures Get(init + [f], Keys(init)[i]) == Get(init, Keys(init)[i]) {
      GetAppend(init, [f], Keys(init)[i]);
    }
  }

  /** Appending a property with a new key makes that key look up its value. */
  lemma GetNewKey(init: Row, f: Field)
    requires f.key !in Keys(init)
    ensures Get(init + [f], f.key) == f.value
  {
    GetAppend(init, [f], f.key);
  }

  lemma RowPresentSnoc(row: Row, ks: seq<string>, k: string)
    ensures RowPresent(row, ks + [k]) == RowPresent(row, ks) + PresentIn(row, k)
  {
    assert (ks + [k])[..|ks|] == ks;
  }

  lemma MissingInRowSnoc(init: Row, f: Field)
    ensures MissingInRow(init + [f]) == MissingInRow(init) + (if IsMissing(f.value) then 1 else 0)
  {
    assert (init + [f])[..|init|] == init;
  }

  /** Appending a property with a new key adds one cell, counted either as
      present under that key or as missing. */
  lemma RowSplitStep(init: Row, f: Field)
    requires f.key !in Keys(init)
    requires RowPresent(init, Keys(init)) + MissingInRow(init) == |init|
    ensures RowPresent(init + [f], Keys(init + [f])) + MissingInRow(init + [f]) == |init| + 1
  {
    var row := init + [f];
    var ks := Keys(init);
    KeysSnoc(row);
    assert row[..|row| - 1] == init;
    RowPresentSnoc(row, ks, f.key);
    GetEarlierKeys(init, f);
    RowPresentSame(row, init, ks);
    GetNewKey(init, f);
    MissingInRowSnoc(init, f);
  }

  /** In a row without repeated keys, every property is either present or
      missing, once. */
  lemma {:induction false} RowSplit(row: Row)
    requires WellFormedRow(row)
    ensures RowPresent(row, Keys(row)) + MissingInRow(row) == |row|
  {
    if row != [] {
      var n := |row|;
      var init, f := row[..n - 1], row[n - 1];
      assert row == init + [f];
      assert forall i :: 0 <= i < n - 1 ==> init[i] == row[i];
      RowSplit(init);
      RowSplitStep(init, f);
    }
  }

  /** One more row adds its cell to a column's present values when it is present. */
  lemma PresentColumnSnoc(rows: seq<Row>, c: string)
    requires rows != []
    ensures |Present(ColumnCells(rows, c))| ==
            |Present(ColumnCells(rows[..|rows| - 1], c))| + PresentIn(rows[|rows| - 1], c)
  {
    var init, last := rows[..|rows| - 1], rows[|rows| - 1];
    assert rows == init + [last];
    ColumnCellsAppend(init, [last], c);
    assert ColumnCells([last], c) == [Get(last, c)];
    PresentAppend(ColumnCells(init, c), [Get(last, c)]);
  }

  /** One more row adds its present cells to the per-column total. */
  lemma {:induction false} PresentTotalSnoc(rows: seq<Row>, columns: seq<string>)
    requires rows != []
    ensures PresentTotal(rows, columns) ==
            PresentTotal(rows[..|rows| - 1], columns) + RowPresent(rows[|rows| - 1], columns)
  {
    if columns != [] {
      PresentTotalSnoc(rows, columns[..|columns| - 1]);
      PresentColumnSnoc(rows, columns[|columns| - 1]);
    }
  }

  lemma DistinctKeysWellFormed(row: Row)
    requires Distinct(Keys(row))
    ensures WellFormedRow(row)
  {
    forall i, j | 0 <= i < j < |row| ensures row[i].key != row[j].key {
      assert Keys(row)[i] == row[i].key && Keys(row)[j] == row[j].key;
    }
  }

  lemma {:induction false} PresentTotalNoRows(columns: seq<string>)
    ensures PresentTotal([], columns) == 0
  {
    if columns != [] {
      PresentTotalNoRows(columns[..|columns| - 1]);
    }
  }

  lemma MulSucc(a: nat, b: nat)
    ensures (a + 1) * b == a * b + b
  {
  }

  /** Every row has exactly the given keys, in that order. */
  predicate Rectangular(rows: seq<Row>, columns: seq<string>)
  {
    forall r :: 0 <= r < |rows| ==> Keys(rows[r]) == columns
  }

  /** The last row of a rectangular dataset splits into present and missing
      cells over the columns, and the rows before it are rectangular. */
  lemma RectangularSnoc(rows: seq<Row>, columns: seq<string>)
    requires rows != [] && Distinct(columns) && Rectangular(rows, columns)
    ensures Rectangular(rows[..|rows| - 1], columns)
    ensures RowPresent(rows[|rows| - 1], columns) + MissingInRow(rows[|rows| - 1]) == |columns|
  {
    var last := rows[|rows| - 1];
    assert Keys(last) == columns;
    DistinctKeysWellFormed(last);
    RowSplit(last);
  }

  /** When every row has exactly the header's keys, the present values of all
      columns plus the missing count equal rows times columns. */
  lemma {:induction false} CellsPartition(rows: seq<Row>, columns: seq<string>)
    requires Distinct(columns)
    requires Rectangular(rows, columns)
    ensures PresentTotal(rows, columns) + MissingCount(rows) == |rows| * |columns|
  {
    if rows == [] {
      PresentTotalNoRows(columns);
    } else {
      var init, last := rows[..|rows| - 1], rows[|rows| - 1];
      RectangularSnoc(rows, columns);
      CellsPartition(init, columns);
      PresentTotalSnoc(rows, columns);
      MulSucc(|init|, |columns|);
    }
  }
}
