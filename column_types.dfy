/**
 `detectColumnTypes` (DataAnalysisScreen.jsx, lines 56-94): for each column
 name, keep that column's present values over all rows, and label the column
 by its FIRST present value only: `datetime` for a date-like string, then
 `numeric` for a number, otherwise `categorical`; `unknown` when no value is
 present. Three counters tally the labels, and an `unknown` column is counted
 as categorical.
 */
module ColumnTypes {
  import opened Cells
  import opened DatePattern

  datatype ColumnType = Unknown | Datetime | Numeric | Categorical
  {
    /** The label the source writes into `types.columns`. */
    function Name(): string
    {
      match this
      case Unknown => "unknown"
      case Datetime => "datetime"
      case Numeric => "numeric"
      case Categorical => "categorical"
    }
  }

  /** The object `detectColumnTypes` returns. */
  datatype TypeProfile = TypeProfile(numeric: nat, categorical: nat, datetime: nat,
                                     columns: map<string, ColumnType>)

  /** `data.map(row => row[column])` */
  function ColumnCells(rows: seq<Row>, column: string): (cells: seq<Cell>)
    ensures |cells| == |rows|
    ensures forall i :: 0 <= i < |rows| ==> cells[i] == Get(rows[i], column)
  {
    if rows == [] then [] else [Get(rows[0], column)] + ColumnCells(rows[1..], column)
  }

  /** `.filter(val => val !== null && val !== undefined && val !== '')` */
  function Present(cells: seq<Cell>): (vs: seq<Cell>)
    ensures |vs| <= |cells|
    ensures forall i :: 0 <= i < |vs| ==> !IsMissing(vs[i])
  {
    if cells == [] then []
    else (if IsMissing(cells[0]) then [] else [cells[0]]) + Present(cells[1..])
  }

  /** The label of a column whose first present value is `v` (lines 73-90). */
  function Classify(v: Cell): (t: ColumnType)
    ensures t != Unknown
    ensures t == Datetime ==> v.Str?
  {
    if v.Str? && IsDateLike(v.s) then Datetime
    else if v.Num? then Numeric
    else Categorical
  }

  /** The label `detectColumnTypes` gives `column`. */
  function InferType(rows: seq<Row>, column: string): (t: ColumnType)
    ensures t == Unknown ==> forall i :: 0 <= i < |rows| ==> IsMissing(Get(rows[i], column))
  {
    PresentEmpty(ColumnCells(rows, column));
    var values := Present(ColumnCells(rows, column));
    if |values| == 0 then Unknown else Classify(values[0])
  }

  /** How many of `columns` get label `t`. */
  function Tally(rows: seq<Row>, columns: seq<string>, t: ColumnType): (n: nat)
    ensures n <= |columns|
  {
    if columns == [] then 0
    else Tally(rows, columns[..|columns| - 1], t)
         + (if InferType(rows, columns[|columns| - 1]) == t then 1 else 0)
  }

  /** The label map `types.columns` holds once `columns` are processed. */
  function LabelMap(rows: seq<Row>, columns: seq<string>): map<string, ColumnType>
  {
    map c | c in columns :: InferType(rows, c)
  }

  /** The map has one entry per distinct column name: never more entries
      than names, and exactly one per name when no name repeats. */
  lemma LabelMapSize(rows: seq<Row>, columns: seq<string>)
    ensures |LabelMap(rows, columns)| <= |columns|
    ensures Distinct(columns) ==> |LabelMap(rows, columns)| == |columns|
  {
    assert LabelMap(rows, columns).Keys == set c | c in columns;
    SeqSetCard(columns);
    if Distinct(columns) {
      DistinctCard(columns);
    }
  }

  /** One more column: one more entry in the map and one more in one tally. */
  lemma DetectStep(rows: seq<Row>, columns: seq<string>, i: nat)
    requires i < |columns|
    ensures LabelMap(rows, columns[..i + 1]) == LabelMap(rows, columns[..i])[columns[i] := InferType(rows, columns[i])]
    ensures forall t :: Tally(rows, columns[..i + 1], t) == Tally(rows, columns[..i], t) + (if InferType(rows, columns[i]) == t then 1 else 0)
  {
    assert columns[..i + 1][..i] == columns[..i];
    assert forall c :: c in columns[..i + 1] <==> c in columns[..i] || c == columns[i];
  }

  /** The source's loop over the column names, updating one `types` object. */
  method DetectColumnTypes(rows: seq<Row>, columns: seq<string>) returns (types: TypeProfile)
    ensures types.columns == LabelMap(rows, columns)
    ensures types.columns.Keys == set c | c in columns
    ensures forall c :: c in columns ==> types.columns[c] == InferType(rows, c)
    ensures types.numeric == Tally(rows, columns, Numeric)
    ensures types.datetime == Tally(rows, columns, Datetime)
    ensures types.categorical == Tally(rows, columns, Categorical) + Tally(rows, columns, Unknown)
    ensures types.numeric + types.categorical + types.datetime == |columns|
    ensures Distinct(columns) ==> |types.columns| == |columns|
    ensures columns == [] ==> types == TypeProfile(0, 0, 0, map[])
  {
    types := TypeProfile(0, 0, 0, map[]);
    var i := 0;
    while i < |columns|
      invariant 0 <= i <= |columns|
      invariant types.columns == LabelMap(rows, columns[..i])
      invariant types.numeric == Tally(rows, columns[..i], Numeric)
      invariant types.datetime == Tally(rows, columns[..i], Datetime)
      invariant types.categorical == Tally(rows, columns[..i], Categorical) + Tally(rows, columns[..i], Unknown)
    {
      var column := columns[i];
      var values := Present(ColumnCells(rows, column));
      DetectStep(rows, columns, i);
      if |values| == 0 {
        types := types.(columns := types.columns[column := Unknown], categorical := types.categorical + 1);
      } else if values[0].Str? && IsDateLike(values[0].s) {
        types := types.(columns := types.columns[column := Datetime], datetime := types.datetime + 1);
      } else if values[0].Num? {
        types := types.(columns := types.columns[column := Numeric], numeric := types.numeric + 1);
      } else {
        types := types.(columns := types.columns[column := Categorical], categorical := types.categorical + 1);
      }
      i := i + 1;
    }
    assert columns[..i] == columns;
    TallyPartition(rows, columns);
    LabelMapSize(rows, columns);
  }

  // ---------------------------------------------------------------------
  // Properties of the labelling.

  /** Every column gets exactly one of the four labels, so the four tallies
      add up to the number of columns. */
  lemma {:induction false} TallyPartition(rows: seq<Row>, columns: seq<string>)
    ensures Tally(rows, columns, Numeric) + Tally(rows, columns, Categorical)
          + Tally(rows, columns, Unknown) + Tally(rows, columns, Datetime) == |columns|
  {
    if columns != [] {
      TallyPartition(rows, columns[..|columns| - 1]);
    }
  }

  /** The tally of two column lists laid end to end is the sum of their tallies. */
  lemma {:induction false} TallyAppend(rows: seq<Row>, a: seq<string>, b: seq<string>, t: ColumnType)
    ensures Tally(rows, a + b, t) == Tally(rows, a, t) + Tally(rows, b, t)
    decreases |b|
  {
    if b == [] {
      assert a + b == a;
    } else {
      var b' := b[..|b| - 1];
      assert (a + b)[..|a + b| - 1] == a + b';
      TallyAppend(rows, a, b', t);
    }
  }

  /** Swapping two neighbouring columns leaves every tally unchanged; since
      such swaps produce every reordering, the counters do not depend on the
      order in which the columns are listed. */
  lemma TallySwap(rows: seq<Row>, a: seq<string>, x: string, y: string, b: seq<string>, t: ColumnType)
    ensures Tally(rows, a + [x, y] + b, t) == Tally(rows, a + [y, x] + b, t)
  {
    TallyAppend(rows, a + [x, y], b, t);
    TallyAppend(rows, a, [x, y], t);
    TallyAppend(rows, a + [y, x], b, t);
    TallyAppend(rows, a, [y, x], t);
    assert [x, y][..1] == [x] && [y, x][..1] == [y];
  }

  /** The label map depends only on which names are listed, not on their
      order or repetitions. */
  lemma LabelMapSameSet(rows: seq<Row>, c1: seq<string>, c2: seq<string>)
    requires (set c | c in c1) == (set c | c in c2)
    ensures LabelMap(rows, c1) == LabelMap(rows, c2)
  {
    assert forall c :: c in c1 <==> c in (set c | c in c1);
  }

  /** The checks run in a fixed order: a date-like string (in the sense of
      the regular expression) is `datetime`, otherwise a number is `numeric`,
      and booleans and all other strings are `categorical`. */
  lemma ClassifyRules(v: Cell)
    ensures Classify(v) != Unknown
    ensures v.Num? ==> Classify(v) == Numeric
    ensures v.Bool? || v.Obj? ==> Classify(v) == Categorical
    ensures v.Str? ==> (Classify(v) == Datetime <==> PatternMatches(v.s))
    ensures v.Str? ==> (Classify(v) == Categorical <==> !PatternMatches(v.s))
    ensures Classify(v) == Datetime ==> v.Str?
  {
    if v.Str? {
      IsDateLikeIffPattern(v.s);
    }
  }

  /** Filtering distributes over concatenation. */
  lemma {:induction false} PresentAppend(a: seq<Cell>, b: seq<Cell>)
    ensures Present(a + b) == Present(a) + Present(b)
  {
    if a == [] {
      assert a + b == b;
    } else {
      assert (a + b)[0] == a[0] && (a + b)[1..] == a[1..] + b;
      PresentAppend(a[1..], b);
    }
  }

  /** Nothing passes the filter exactly when every cell is missing. */
  lemma {:induction false} PresentEmpty(cells: seq<Cell>)
    ensures |Present(cells)| == 0 <==> forall i :: 0 <= i < |cells| ==> IsMissing(cells[i])
  {
    if cells != [] {
      PresentEmpty(cells[1..]);
      assert forall i :: 1 <= i < |cells| ==> cells[i] == cells[1..][i - 1];
    }
  }

  /** The first value to pass the filter is the first present cell. */
  lemma {:induction false} PresentFirst(cells: seq<Cell>, j: nat)
    requires j < |cells| && !IsMissing(cells[j])
    requires forall i :: 0 <= i < j ==> IsMissing(cells[i])
    ensures |Present(cells)| > 0 && Present(cells)[0] == cells[j]
  {
    if j > 0 {
      PresentFirst(cells[1..], j - 1);
    }
  }

  /** Splitting the rows splits the column. */
  lemma {:induction false} ColumnCellsAppend(a: seq<Row>, b: seq<Row>, column: string)
    ensures ColumnCells(a + b, column) == ColumnCells(a, column) + ColumnCells(b, column)
  {
  }

  /** A column is `unknown` exactly when every row's cell in it is missing:
      an absent key, `null`, `undefined` or the empty string. */
  lemma InferUnknownIff(rows: seq<Row>, column: string)
    ensures InferType(rows, column) == Unknown <==>
            forall i :: 0 <= i < |rows| ==> IsMissing(Get(rows[i], column))
  {
    var cells := ColumnCells(rows, column);
    PresentEmpty(cells);
    if |Present(cells)| > 0 {
      ClassifyRules(Present(cells)[0]);
    }
  }

  /** The label is the classification of the first row whose cell in the
      column is present. */
  lemma InferFirstPresent(rows: seq<Row>, column: string, j: nat)
    requires j < |rows| && !IsMissing(Get(rows[j], column))
    requires forall i :: 0 <= i < j ==> IsMissing(Get(rows[i], column))
    ensures InferType(rows, column) == Classify(Get(rows[j], column))
  {
    PresentFirst(ColumnCells(rows, column), j);
  }

  /** Once the first present value is fixed, the rows after it do not matter. */
  lemma InferIgnoresLaterRows(rows: seq<Row>, column: string, j: nat, tail: seq<Row>)
    requires j < |rows| && !IsMissing(Get(rows[j], column))
    requires forall i :: 0 <= i < j ==> IsMissing(Get(rows[i], column))
    ensures InferType(rows[..j + 1] + tail, column) == InferType(rows, column)
  {
    var rows' := rows[..j + 1] + tail;
    assert forall i :: 0 <= i <= j ==> rows'[i] == rows[i];
    InferFirstPresent(rows, column, j);
    InferFirstPresent(rows', column, j);
  }

  /** Inserting a row whose cell in the column is missing (or, read the other
      way, removing one) leaves the label unchanged. */
  lemma InferIgnoresMissingRow(rows: seq<Row>, column: string, k: nat, r: Row)
    requires k <= |rows| && IsMissing(Get(r, column))
    ensures InferType(rows[..k] + [r] + rows[k..], column) == InferType(rows, column)
  {
    var a, b := rows[..k], rows[k..];
    assert rows == a + b;
    ColumnCellsAppend(a, b, column);
    ColumnCellsInsert(a, r, b, column);
    PresentSkipsMissing(ColumnCells(a, column), Get(r, column), ColumnCells(b, column));
  }

  lemma ColumnCellsInsert(a: seq<Row>, r: Row, b: seq<Row>, column: string)
    ensures ColumnCells(a + [r] + b, column) == ColumnCells(a, column) + [Get(r, column)] + ColumnCells(b, column)
  {
    ColumnCellsAppend(a + [r], b, column);
    ColumnCellsAppend(a, [r], column);
    assert ColumnCells([r], column) == [Get(r, column)];
  }

  lemma PresentSkipsMissing(ca: seq<Cell>, g: Cell, cb: seq<Cell>)
    requires IsMissing(g)
    ensures Present(ca + [g] + cb) == Present(ca + cb)
  {
    PresentAppend(ca + [g], cb);
    PresentAppend(ca, [g]);
    PresentAppend(ca, cb);
    assert Present([g]) == [];
  }
}
