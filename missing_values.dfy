/**
 `countMissingValues` (DataAnalysisScreen.jsx, lines 44-54): the number of
 cells, over every row and every own property of that row, holding `null`,
 `undefined` or the empty string.
 */
module MissingValues {
  import opened Cells

  /** The missing cells of one row. */
  function MissingInRow(row: Row): (n: nat)
    ensures n <= |row|
  {
    if row == [] then 0
    else MissingInRow(row[..|row| - 1]) + (if IsMissing(row[|row| - 1].value) then 1 else 0)
  }

  /** The missing cells of a sequence of rows, row by row. */
  function MissingCount(rows: seq<Row>): (n: nat)
    ensures n <= CellCount(rows)
  {
    if rows == [] then 0
    else MissingCount(rows[..|rows| - 1]) + MissingInRow(rows[|rows| - 1])
  }

  /** The number of cells: every own property of every row. */
  function CellCount(rows: seq<Row>): nat
  {
    if rows == [] then 0 else CellCount(rows[..|rows| - 1]) + |rows[|rows| - 1]|
  }

  /** The source's nested loop: every row, then every value of that row,
      incrementing a counter for each missing one. */
  method CountMissingValues(rows: seq<Row>) returns (count: nat)
    ensures count == MissingCount(rows)
    ensures count == MarkerOccurrences(AllValues(rows))
    ensures count <= CellCount(rows)
  {
    count := 0;
    var i := 0;
    while i < |rows|
      invariant 0 <= i <= |rows|
      invariant count == MissingCount(rows[..i])
    {
      var row := rows[i];
      var values := Values(row);
      var j := 0;
      while j < |values|
        invariant 0 <= j <= |values|
        invariant count == MissingCount(rows[..i]) + MissingInRow(row[..j])
      {
        if values[j] == Null || values[j] == Undefined || values[j] == Str("") {
          count := count + 1;
        }
        assert row[..j + 1][..j] == row[..j];
        j := j + 1;
      }
      assert row[..j] == row;
      assert rows[..i + 1][..i] == rows[..i];
      i := i + 1;
    }
    assert rows[..i] == rows;
    MissingCountIsMarkerCount(rows);
  }

  /** Every value of every row, row after row. */
  function AllValues(rows: seq<Row>): (vs: seq<Cell>)
    ensures |vs| == CellCount(rows)
  {
    if rows == [] then [] else AllValues(rows[..|rows| - 1]) + Values(rows[|rows| - 1])
  }

  /** How often the three missing markers occur among some values. */
  function MarkerOccurrences(vs: seq<Cell>): nat
  {
    multiset(vs)[Null] + multiset(vs)[Undefined] + multiset(vs)[Str("")]
  }

  /** Appending one value adds one marker occurrence exactly when it is missing. */
  lemma MarkerOccurrencesSnoc(vs: seq<Cell>, v: Cell)
    ensures MarkerOccurrences(vs + [v]) == MarkerOccurrences(vs) + (if IsMissing(v) then 1 else 0)
  {
    assert multiset(vs + [v]) == multiset(vs) + multiset{v};
  }

  lemma ValuesSnoc(row: Row)
    requires row != []
    ensures Values(row) == Values(row[..|row| - 1]) + [row[|row| - 1].value]
  {
    var init := row[..|row| - 1];
    var l, r := Values(row), Values(init) + [row[|row| - 1].value];
    assert |l| == |r|;
    forall i | 0 <= i < |l| ensures l[i] == r[i] {
      if i < |init| { assert init[i] == row[i]; }
    }
  }

  /** The count of a row is exactly the number of its values that are one of
      the three missing markers. */
  lemma {:induction false} MissingInRowIsMarkerCount(row: Row)
    ensures MissingInRow(row) == MarkerOccurrences(Values(row))
  {
    if row != [] {
      var init := row[..|row| - 1];
      var v := row[|row| - 1].value;
      MissingInRowIsMarkerCount(init);
      ValuesSnoc(row);
      MarkerOccurrencesSnoc(Values(init), v);
    }
  }

  /** The total count is exactly the number of values, over all rows, that
      are one of the three missing markers. */
  lemma {:induction false} MissingCountIsMarkerCount(rows: seq<Row>)
    ensures MissingCount(rows) == MarkerOccurrences(AllValues(rows))
  {
    if rows != [] {
      var init, last := rows[..|rows| - 1], rows[|rows| - 1];
      MissingCountIsMarkerCount(init);
      MissingInRowIsMarkerCount(last);
      assert multiset(AllValues(rows)) == multiset(AllValues(init)) + multiset(Values(last));
    }
  }

  /** A row has no missing cell exactly when its count is zero. */
  lemma {:induction false} MissingInRowZero(row: Row)
    ensures MissingInRow(row) == 0 <==> forall i :: 0 <= i < |row| ==> !IsMissing(row[i].value)
  {
    if row != [] {
      var init := row[..|row| - 1];
      MissingInRowZero(init);
      assert forall i :: 0 <= i < |init| ==> init[i] == row[i];
    }
  }

  /** Counting two batches of rows separately and adding gives the count of
      the concatenation. */
  lemma {:induction false} MissingAdditive(a: seq<Row>, b: seq<Row>)
    ensures MissingCount(a + b) == MissingCount(a) + MissingCount(b)
    decreases |b|
  {
    if b == [] {
      assert a + b == a;
    } else {
      var b' := b[..|b| - 1];
      assert (a + b)[..|a + b| - 1] == a + b';
      MissingAdditive(a, b');
    }
  }

  /** The count over all rows is zero exactly when no row has a missing cell. */
  lemma {:induction false} MissingCountZero(rows: seq<Row>)
    ensures MissingCount(rows) == 0 <==> forall r :: 0 <= r < |rows| ==> MissingInRow(rows[r]) == 0
  {
    if rows != [] {
      var init := rows[..|rows| - 1];
      MissingCountZero(init);
      assert forall r :: 0 <= r < |init| ==> init[r] == rows[r];
    }
  }
}
