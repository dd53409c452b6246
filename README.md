# Data profiling helpers of the analysis screen

This project models the data-profiling step of the data-analysis screen in
Dafny and proves properties about it. The screen gets the rows the CSV parser
produces (header line on, dynamic typing on, empty lines skipped). It then
computes three things in `src/components/analysis/DataAnalysisScreen.jsx`:

- `countMissingValues`: the number of cells, over every own property of every
  row, that hold `null`, `undefined` or the empty string.
- `detectColumnTypes`: for each column name taken from the first row, it picks
  one label (`datetime`, `numeric`, `categorical` or `unknown`) by looking only
  at the column's first present value. It also keeps three counters, and an
  `unknown` column increments the `categorical` counter.
- the `dataSummary` record: the row count, the first row's key count, the
  missing count, and a duplicate count that is always 0.

Modules, one per concern:

- `Cells` (`cells.dfy`): the parsed data. A `Cell` is `Null | Undefined |
  Str | Num | Bool | Obj`. A row is the ordered list of its own properties.
  `Get` is `row[column]`: it gives `undefined` for an absent key. `Header` is
  `Object.keys(data[0] || {})`.
- `DatePattern` (`date_pattern.dfy`): the date regex written by hand as
  `IsDateLike`. `MatchesPrefix` is an independent atom-by-atom reading of the
  same regular expression, and the two are proved equal on every string.
- `MissingValues` (`missing_values.dfy`): the nested counting loop, proved
  against a recursive count. Also proved: the count equals the number of
  missing-marker occurrences, it never exceeds the cell count, and it adds up
  over concatenated rows.
- `ColumnTypes` (`column_types.dfy`): the labelling loop, proved against
  `InferType`, plus the properties of the labelling.
- `Profile` (`profile.dfy`): lines 26-34 as one method. Also proved: present
  values by column plus missing cells by row make up every cell of a
  rectangular dataset.
- `Examples` (`examples.dfy`): the bundled `mockCSVData` and two small
  datasets, written out as parsed rows.

The model covers only what the helpers compute:

- The duplicate-row count is the constant 0. No duplicates are detected.
- No insights or recommendations are computed; those panels are static text.
- The missing-value rate is not computed by the helpers (see Left out).

## Model

| member | source | states |
|---|---|---|
| `Cells.Get` | src/components/analysis/DataAnalysisScreen.jsx:65 | `row[column]` is the value of the first property named `column`, and `undefined` when the row has no such key |
| `Cells.Keys` | src/components/analysis/DataAnalysisScreen.jsx:28 | `Object.keys(row)` lists the row's keys, one per property, in the row's order |
| `Cells.Values` | src/components/analysis/DataAnalysisScreen.jsx:47 | `Object.values(row)` lists the row's values, one per property, in the row's order; `MissingValues.MissingInRowIsMarkerCount` counts the missing markers among them |
| `Cells.Header` | src/components/analysis/DataAnalysisScreen.jsx:28 | the column list is the key list of the first row, in order, and is empty when there are no rows |
| `DatePattern.IsDateLike` | src/components/analysis/DataAnalysisScreen.jsx:74-75 | `datePattern.test(s)`: a string it accepts is at least 6 characters long (`D-D-DD`) and starts with a digit; `DatePattern.IsDateLikeIffPattern` proves it equal to the regular expression |
| `DatePattern.IsDateLikeIffPattern` | src/components/analysis/DataAnalysisScreen.jsx:74 | the hand-written predicate accepts exactly the strings with a prefix matching `\d{4}[-/]\d{1,2}[-/]\d{1,2}` or `\d{1,2}[-/]\d{1,2}[-/]\d{2,4}`, with each `\d{lo,hi}` free to take any count a backtracking matcher would try |
| `DatePattern.DateLikeExtend` | src/components/analysis/DataAnalysisScreen.jsx:74 | there is no end anchor: appending any characters to a date-like string keeps it date-like |
| `DatePattern.MatchesPrefixExtend` | src/components/analysis/DataAnalysisScreen.jsx:74 | a start-anchored atom sequence that matches a string also matches every extension of it |
| `DatePattern.IsoDateExample` | src/components/analysis/DataAnalysisScreen.jsx:74 | `2024-01-15` is date-like |
| `DatePattern.IsoDateTimeExample` | src/components/analysis/DataAnalysisScreen.jsx:74 | `2024-01-15T00` is date-like, so trailing text is accepted |
| `DatePattern.ShortYearFirstExample` | src/components/analysis/DataAnalysisScreen.jsx:74 | `2024/1/5` is date-like: one-digit month and day, slash separators |
| `DatePattern.YearLastExample` | src/components/analysis/DataAnalysisScreen.jsx:74 | `12/31/99` is date-like through the year-last alternative |
| `DatePattern.OneDigitYearExample` | src/components/analysis/DataAnalysisScreen.jsx:74 | `1/2/3` is not date-like: a year at the end needs at least two digits |
| `DatePattern.NoSeparatorExample` | src/components/analysis/DataAnalysisScreen.jsx:74 | `20240115` is not date-like: separators are required |
| `DatePattern.FiveDigitYearExample` | src/components/analysis/DataAnalysisScreen.jsx:74 | `12345-1-1` is not date-like: neither alternative allows five leading digits |
| `MissingValues.MissingInRow` | src/components/analysis/DataAnalysisScreen.jsx:47-51 | the missing cells of one row are at most its number of properties |
| `MissingValues.MissingCount` | src/components/analysis/DataAnalysisScreen.jsx:44-54 | the row-by-row count of missing cells never exceeds the total number of cells |
| `MissingValues.CountMissingValues` | src/components/analysis/DataAnalysisScreen.jsx:44-54 | the nested loop returns the number of missing values over all own properties of all rows, which equals the number of `null`, `undefined` and `''` occurrences among all row values and is at most the number of cells |
| `MissingValues.MissingInRowIsMarkerCount` | src/components/analysis/DataAnalysisScreen.jsx:47-50 | a row's count is the number of its values equal to `null`, `undefined` or `''` |
| `MissingValues.MissingCountIsMarkerCount` | src/components/analysis/DataAnalysisScreen.jsx:44-54 | the dataset count is the number of missing-marker occurrences among the values of all rows |
| `MissingValues.MissingInRowZero` | src/components/analysis/DataAnalysisScreen.jsx:48 | a row counts zero exactly when none of its values is missing |
| `MissingValues.MissingAdditive` | src/components/analysis/DataAnalysisScreen.jsx:44-54 | the count of two concatenated row sequences is the sum of their counts |
| `MissingValues.MissingCountZero` | src/components/analysis/DataAnalysisScreen.jsx:44-54 | the dataset count is zero exactly when every row counts zero |
| `ColumnTypes.ColumnCells` | src/components/analysis/DataAnalysisScreen.jsx:65 | `data.map(row => row[column])` has one cell per row, the row's `row[column]`; `ColumnTypes.ColumnCellsAppend` splits it with the rows |
| `ColumnTypes.Present` | src/components/analysis/DataAnalysisScreen.jsx:65 | the filter keeps at most as many values as it is given, and only non-missing ones; `ColumnTypes.PresentEmpty`, `PresentFirst` and `PresentAppend` give the rest |
| `ColumnTypes.Classify` | src/components/analysis/DataAnalysisScreen.jsx:73-90 | a present first value always gets a real label, never `unknown`, and only a string can be `datetime`; `ColumnTypes.ClassifyRules` gives the full case split |
| `ColumnTypes.InferType` | src/components/analysis/DataAnalysisScreen.jsx:65-90 | a column labelled `unknown` has a missing cell in every row; `ColumnTypes.InferUnknownIff` gives both directions |
| `ColumnTypes.Tally` | src/components/analysis/DataAnalysisScreen.jsx:57-91 | a counter never exceeds the number of columns; `ColumnTypes.TallyPartition` shows the four label counts add up to it |
| `ColumnTypes.LabelMapSize` | src/components/analysis/DataAnalysisScreen.jsx:57-91 | the label map `types.columns` has at most one entry per listed name, and exactly one per name when no name repeats |
| `ColumnTypes.TallyAppend` | src/components/analysis/DataAnalysisScreen.jsx:64-91 | the counters of two column lists laid end to end are the sums of their counters |
| `ColumnTypes.TallySwap` | src/components/analysis/DataAnalysisScreen.jsx:64-91 | swapping two neighbouring columns changes no counter, so the counters do not depend on column order |
| `ColumnTypes.LabelMapSameSet` | src/components/analysis/DataAnalysisScreen.jsx:64-91 | two column lists with the same names, in any order, give the same label map |
| `ColumnTypes.DetectColumnTypes` | src/components/analysis/DataAnalysisScreen.jsx:56-94 | the loop labels every listed column with `InferType` and adds no other key; `numeric` and `datetime` count the columns with those labels; `categorical` counts both the `categorical` and the `unknown` columns; the three counters add up to the number of listed columns; with distinct names the map has one entry per column; with no columns the result is all zero and empty |
| `ColumnTypes.TallyPartition` | src/components/analysis/DataAnalysisScreen.jsx:64-91 | every column gets exactly one of the four labels, so the four per-label counts add up to the number of columns |
| `ColumnTypes.ClassifyRules` | src/components/analysis/DataAnalysisScreen.jsx:73-90 | the checks run in order: a string matching the date pattern is `datetime`, a non-matching string is `categorical`, a number is `numeric` and never `datetime`, a boolean or object is `categorical`, and a present value is never `unknown` |
| `ColumnTypes.InferUnknownIff` | src/components/analysis/DataAnalysisScreen.jsx:65-70 | a column is `unknown` exactly when every row's cell in it is an absent key, `null`, `undefined` or `''` |
| `ColumnTypes.InferFirstPresent` | src/components/analysis/DataAnalysisScreen.jsx:65-86 | the label is the classification of the cell in the first row where the column's value is present |
| `ColumnTypes.InferIgnoresLaterRows` | src/components/analysis/DataAnalysisScreen.jsx:65-82 | replacing all rows after the first present value with any rows leaves the label unchanged |
| `ColumnTypes.InferIgnoresMissingRow` | src/components/analysis/DataAnalysisScreen.jsx:65 | inserting (or removing) a row whose cell in the column is missing leaves the label unchanged |
| `ColumnTypes.PresentEmpty` | src/components/analysis/DataAnalysisScreen.jsx:65 | the filter keeps nothing exactly when every cell is missing |
| `ColumnTypes.PresentFirst` | src/components/analysis/DataAnalysisScreen.jsx:65 | the first value the filter keeps is the first present cell |
| `ColumnTypes.PresentAppend` | src/components/analysis/DataAnalysisScreen.jsx:65 | filtering distributes over concatenation |
| `Profile.Analyze` | src/components/analysis/DataAnalysisScreen.jsx:26-34 | `rows` is the row count; `columns` is the first row's key count, or 0 without rows; `missingValues` is the missing count; `duplicateRows` is 0; the labels are computed over the first row's keys, and their three counters add up to `columns`; empty input gives an all-zero summary and an empty label map |
| `Profile.CellsPartition` | src/components/analysis/DataAnalysisScreen.jsx:44-65 | when every row has exactly the header's keys, the present values kept by the column filter, summed over all columns, plus the missing count equal rows times columns |
| `Profile.RowSplit` | src/components/analysis/DataAnalysisScreen.jsx:44-65 | in a row without repeated keys, each property is counted either as present by its column or as missing, once |
| `Examples.RaggedPartitionGap` | src/components/analysis/DataAnalysisScreen.jsx:44-65 | without the rectangular premise the partition fails: rows `{a:1,b:'x'}` and `{a:1}` give 3 present plus 0 missing, against 2 rows times 2 columns |
| `Examples.SalesShape` | src/mockData/sampleData.js:26-36 | the bundled sales data parses to 10 rows with the columns `date`, `region`, `product`, `sales` |
| `Examples.SalesDateLabel` | src/mockData/sampleData.js:26-36 | its `date` column is `datetime` |
| `Examples.SalesRegionLabel` | src/mockData/sampleData.js:26-36 | its `region` column is `categorical` |
| `Examples.SalesProductLabel` | src/mockData/sampleData.js:26-36 | its `product` column is `categorical` |
| `Examples.SalesAmountLabel` | src/mockData/sampleData.js:26-36 | its `sales` column is `numeric` |
| `Examples.SalesNoMissing` | src/mockData/sampleData.js:26-36 | it has no missing values |
| `Examples.GapMissing` | src/components/analysis/DataAnalysisScreen.jsx:44-54 | rows with two `null` cells count 2 missing values |
| `Examples.GapDateLabel` | src/components/analysis/DataAnalysisScreen.jsx:73-78 | a column whose later value is `null` is still `datetime` from its first value |
| `Examples.GapAmountLabel` | src/components/analysis/DataAnalysisScreen.jsx:81-85 | a numeric column with a gap is `numeric` |
| `Examples.LateNumericLabel` | src/components/analysis/DataAnalysisScreen.jsx:65-85 | a column that starts with `null` and `''` is labelled by its third value, a number, even though a later value is text |
| `Examples.LateBooleanLabel` | src/components/analysis/DataAnalysisScreen.jsx:88-90 | a column whose first value is a boolean is `categorical` |
| `Examples.LateUnknownLabel` | src/components/analysis/DataAnalysisScreen.jsx:65-70 | a column holding only `''`, `undefined` and absent keys is `unknown` |

## Left out

- CSV parsing (`Papa.parse`, lines 15-19) is a library call. The model takes its output, the sequence of row objects, as input. So it has no parse errors and no skipped-line policy.
- React state, `useEffect` and the 2-second `setTimeout` (lines 6-42) are UI plumbing and a timer. `Analyze` is the body of the timer callback without the state setters.
- The missing-value percentage shown on screen (line 159) is floating-point division and is not modelled. Its denominator, rows times columns, is zero for an empty dataset, and the screen then shows NaN. It does not show 0.
- Duplicate-row detection is not modelled because the code does none. `duplicateRows` is the literal 0.
- Insight and recommendation texts, accuracy figures and charts (lines 96-361, and the dashboard, landing page and routing files) are static presentation. They are not derived from the data.
- `Cells.Get`: properties inherited from `Object.prototype` are not modelled. A row lacking a key named like `toString` would give an inherited function in JavaScript, not `undefined`.
- `Cells.Header`: `Object.keys` lists integer-like keys first, in ascending order. The model takes the row's own order. `ColumnTypes.TallySwap` and `ColumnTypes.LabelMapSameSet` show that the counters and the label map do not depend on that order.
- `Profile.CellsPartition` holds only for rectangular data. The two helpers disagree on absent keys: the column filter sees `row[column]` as `undefined`, a missing value, but the missing count only walks a row's own properties. `Examples.RaggedPartitionGap` shows the gap.
- Numbers are modelled as unbounded integers. The helpers only test `typeof`, so the payload is never used. NaN and floating point do not matter here.
- Object values (surplus-field arrays, dates) are modelled as one `Obj` case, because the helpers only see that they are non-missing and not strings or numbers.
