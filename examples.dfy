/**
 Worked datasets, written out by hand as the rows the CSV parser produces
 with a header line and dynamic typing: numeric fields become numbers,
 other fields stay strings, and an empty field becomes `null`.
 */
module Examples {
  import opened Cells
  import opened DatePattern
  import opened MissingValues
  import opened ColumnTypes
  import opened Profile

  /** One line of the sales data after parsing. */
  function SalesRow(line: (string, string, string, int)): Row
  {
    [Field("date", Str(line.0)), Field("region", Str(line.1)), Field("product", Str(line.2)), Field("sales", Num(line.3))]
  }

  /** `mockCSVData` (sampleData.js, lines 26-36), the dataset the landing
      page hands to the analysis screen, one tuple per line. */
  const SalesLines: seq<(string, string, string, int)> := [
    ("2024-01-15", "North", "Widget A", 1245),
    ("2024-01-16", "South", "Widget B", 892),
    ("2024-01-16", "East", "Widget A", 1347),
    ("2024-01-17", "West", "Widget C", 765),
    ("2024-01-18", "North", "Widget B", 1080),
    ("2024-01-19", "East", "Widget C", 925),
    ("2024-01-20", "South", "Widget A", 1532),
    ("2024-01-21", "West", "Widget B", 687),
    ("2024-01-22", "North", "Widget A", 1321),
    ("2024-01-23", "South", "Widget C", 945)
  ]

  /** The parsed rows of `mockCSVData`. */
  const SalesRows: seq<Row> := seq(|SalesLines|, i requires 0 <= i < |SalesLines| => SalesRow(SalesLines[i]))

  lemma SalesShape()
    ensures |SalesRows| == 10
    ensures Header(SalesRows) == ["date", "region", "product", "sales"]
  {
  }

  /** `date` is datetime: its first value is an ISO date. */
  lemma SalesDateLabel()
    ensures InferType(SalesRows, "date") == Datetime
  {
    assert Get(SalesRows[0], "date") == Str("2024-01-15");
    InferFirstPresent(SalesRows, "date", 0);
    IsoDateExample();
  }

  /** `region` is categorical: its first value is a plain word. */
  lemma SalesRegionLabel()
    ensures InferType(SalesRows, "region") == Categorical
  {
    assert Get(SalesRows[0], "region") == Str("North");
    InferFirstPresent(SalesRows, "region", 0);
    NotNorthExample();
  }

  lemma SalesProductLabel()
    ensures InferType(SalesRows, "product") == Categorical
  {
    assert Get(SalesRows[0], "product") == Str("Widget A");
    InferFirstPresent(SalesRows, "product", 0);
    NotWidgetExample();
  }

  /** `sales` is numeric: its first value parsed as a number. */
  lemma SalesAmountLabel()
    ensures InferType(SalesRows, "sales") == Numeric
  {
    assert Get(SalesRows[0], "sales") == Num(1245);
    InferFirstPresent(SalesRows, "sales", 0);
  }

  lemma NotNorthExample()
    ensures !IsDateLike("North")
  {
  }

  lemma NotWidgetExample()
    ensures !IsDateLike("Widget A")
  {
  }

  lemma SalesRowNoMissing(line: (string, string, string, int))
    requires line.0 != "" && line.1 != "" && line.2 != ""
    ensures MissingInRow(SalesRow(line)) == 0
  {
    MissingInRowZero(SalesRow(line));
  }

  /** No cell of the sales data is missing. */
  lemma SalesNoMissing()
    ensures MissingCount(SalesRows) == 0
  {
    forall r | 0 <= r < |SalesRows| ensures MissingInRow(SalesRows[r]) == 0 {
      SalesRowNoMissing(SalesLines[r]);
    }
    MissingCountZero(SalesRows);
  }
  /** Transactions with gaps: `date,amt` over the lines `2024-01-15,10`,
      `2024-01-16,` and `,20`. */
  const GapRows: seq<Row> := [
    [Field("date", Str("2024-01-15")), Field("amt", Num(10))],
    [Field("date", Str("2024-01-16")), Field("amt", Null)],
    [Field("date", Null), Field("amt", Num(20))]
  ]

  lemma GapMissing()
    ensures MissingCount(GapRows) == 2
  {
    assert MissingInRow(GapRows[0]) == 0 by { MissingInRowZero(GapRows[0]); }
    assert MissingInRow(GapRows[1]) == 1;
    assert MissingInRow(GapRows[2]) == 1;
    var a, b, c := [GapRows[0]], [GapRows[1]], [GapRows[2]];
    assert a[..0] == [] && b[..0] == [] && c[..0] == [];
    assert GapRows == a + b + c;
    MissingAdditive(a + b, c);
    MissingAdditive(a, b);
  }

  lemma GapDateLabel()
    ensures InferType(GapRows, "date") == Datetime
  {
    assert Get(GapRows[0], "date") == Str("2024-01-15");
    InferFirstPresent(GapRows, "date", 0);
    IsoDateExample();
  }

  lemma GapAmountLabel()
    ensures InferType(GapRows, "amt") == Numeric
  {
    assert Get(GapRows[0], "amt") == Num(10);
    InferFirstPresent(GapRows, "amt", 0);
  }

  /** A column that starts with gaps is labelled by its first present value;
      a later text value does not change the label. */
  const LateRows: seq<Row> := [
    [Field("x", Null), Field("flag", Bool(true)), Field("note", Str(""))],
    [Field("x", Str("")), Field("flag", Bool(false)), Field("note", Undefined)],
    [Field("x", Num(5)), Field("flag", Null)],
    [Field("x", Str("n/a")), Field("flag", Num(1))]
  ]

  lemma LateNumericLabel()
    ensures InferType(LateRows, "x") == Numeric
  {
    assert Get(LateRows[0], "x") == Null;
    assert Get(LateRows[1], "x") == Str("");
    assert Get(LateRows[2], "x") == Num(5);
    InferFirstPresent(LateRows, "x", 2);
  }

  /** A boolean first value gives `categorical`. */
  lemma LateBooleanLabel()
    ensures InferType(LateRows, "flag") == Categorical
  {
    assert Get(LateRows[0], "flag") == Bool(true);
    InferFirstPresent(LateRows, "flag", 0);
  }

  /** Only missing markers and absent keys: `unknown`. */
  lemma LateUnknownLabel()
    ensures InferType(LateRows, "note") == Unknown
  {
    assert Get(LateRows[0], "note") == Str("");
    assert Get(LateRows[1], "note") == Undefined;
    assert Get(LateRows[2], "note") == Undefined;
    assert Get(LateRows[3], "note") == Undefined;
    InferUnknownIff(LateRows, "note");
  }

  /** A ragged dataset: the second row lacks the key `b`. */
  const RaggedRows: seq<Row> := [
    [Field("a", Num(1)), Field("b", Str("x"))],
    [Field("a", Num(1))]
  ]

  /** The two helpers disagree on absent keys: the column filter treats the
      second row's `b` as missing (`undefined`), while the missing count skips
      it because it is not an own property. So present plus missing is 3 out
      of the 4 cells that rows times columns assumes. */
  lemma RaggedPartitionGap()
    ensures PresentTotal(RaggedRows, Header(RaggedRows)) + MissingCount(RaggedRows) == 3
    ensures |RaggedRows| * |Header(RaggedRows)| == 4
  {
    var cols := ["a", "b"];
    assert Header(RaggedRows) == cols;
    assert cols[..1] == ["a"] && ["a"][..0] == [];
    assert ColumnCells(RaggedRows, "a") == [Num(1), Num(1)];
    assert Present([Num(1), Num(1)]) == [Num(1), Num(1)];
    assert ColumnCells(RaggedRows, "b") == [Str("x"), Undefined];
    assert Present([Str("x"), Undefined]) == [Str("x")];
    assert PresentTotal(RaggedRows, cols) == 3;
    assert MissingInRow(RaggedRows[0]) == 0 && MissingInRow(RaggedRows[1]) == 0;
    assert RaggedRows[..1] == [RaggedRows[0]] && RaggedRows[..1][..0] == [];
  }
}
