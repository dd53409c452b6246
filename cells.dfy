/**
 The parsed dataset as the profiling helpers receive it: an ordered sequence of
 rows, each row the own properties of a JavaScript object produced by the CSV
 parser with dynamic typing switched on.
 */
module Cells {

  /** A dynamically typed cell value. The numeric payload is never used in
      arithmetic by the profiling helpers, so an integer stands for it. `Obj`
      stands for any object value (an array of surplus fields, a `Date`),
      whose contents the helpers never inspect. */
  datatype Cell = Null | Undefined | Str(s: string) | Num(n: int) | Bool(b: bool) | Obj

  /** One own property of a row object, in insertion order. */
  datatype Field = Field(key: string, value: Cell)

  type Row = seq<Field>

  /** The three values the helpers treat as "missing": `null`, `undefined`
      and the empty string. Zero and `false` are present values. */
  predicate IsMissing(v: Cell)
  {
    v == Null || v == Undefined || v == Str("")
  }

  /** `Object.keys(row)`. */
  function Keys(row: Row): (ks: seq<string>)
    ensures |ks| == |row|
    ensures forall i :: 0 <= i < |row| ==> ks[i] == row[i].key
  {
    if row == [] then [] else [row[0].key] + Keys(row[1..])
  }

  /** `Object.values(row)`. */
  function Values(row: Row): (vs: seq<Cell>)
    ensures |vs| == |row|
    ensures forall i :: 0 <= i < |row| ==> vs[i] == row[i].value
  {
    if row == [] then [] else [row[0].value] + Values(row[1..])
  }

  /** `row[column]`: the value of the property named `column`, or `undefined`
      when the row has no such property. */
  function Get(row: Row, column: string): (v: Cell)
    ensures (forall i :: 0 <= i < |row| ==> row[i].key != column) ==> v == Undefined
    ensures forall i :: (0 <= i < |row| && row[i].key == column &&
                         (forall j :: 0 <= j < i ==> row[j].key != column)) ==> v == row[i].value
  {
    if row == [] then Undefined
    else if row[0].key == column then row[0].value
    else Get(row[1..], column)
  }

  /** A row that a JavaScript object can produce: no key occurs twice. */
  predicate WellFormedRow(row: Row)
  {
    forall i, j :: 0 <= i < j < |row| ==> row[i].key != row[j].key
  }

  predicate Distinct(s: seq<string>)
  {
    forall i, j :: 0 <= i < j < |s| ==> s[i] != s[j]
  }

  /** The column list the screen passes around: the keys of the first row,
      or none when there are no rows (`Object.keys(results.data[0] || {})`). */
  function Header(rows: seq<Row>): (cols: seq<string>)
    ensures rows == [] ==> cols == []
    ensures rows != [] ==> |cols| == |rows[0]| && forall i :: 0 <= i < |cols| ==> cols[i] == rows[0][i].key
  {
    if rows == [] then [] else Keys(rows[0])
  }

  lemma HeaderDistinct(rows: seq<Row>)
    requires rows != [] ==> WellFormedRow(rows[0])
    ensures Distinct(Header(rows))
  {
  }

  /** A sequence has at most as many distinct elements as it is long. */
  lemma {:induction false} SeqSetCard(s: seq<string>)
    ensures |set x | x in s| <= |s|
  {
    if s != [] {
      SeqSetCard(s[1..]);
      assert (set x | x in s) == (set x | x in s[1..]) + {s[0]};
    }
  }

  /** The number of distinct elements of a sequence without repetitions is its length. */
  lemma {:induction false} DistinctCard(s: seq<string>)
    requires Distinct(s)
    ensures |set x | x in s| == |s|
  {
    if s != [] {
      DistinctCard(s[1..]);
      assert (set x | x in s) == (set x | x in s[1..]) + {s[0]};
      assert s[0] !in (set x | x in s[1..]);
    }
  }
}
