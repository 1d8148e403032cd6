/** A pandas DataFrame as the core uses it: a set of column names and a sequence of rows, each
    row mapping column names to cells. Row order is the frame's order; the index labels pandas
    keeps alongside are not represented. */
module Frames {
  import opened Text
  import opened Seqs
  import opened Schemas

  /** A cell: a number, a string, or the undefined value (NaN or an infinity) that a division by
      zero produces. */
  datatype Cell = Num(x: real) | Str(s: string) | Undefined

  type Row = map<string, Cell>

  datatype Frame = Frame(columns: set<string>, rows: seq<Row>)

  /** `row[col]`; a row lacking the column reads as undefined. */
  function Get(row: Row, col: string): Cell {
    if col in row then row[col] else Undefined
  }

  /** `df[col]` as a sequence of cells. */
  function Column(rows: seq<Row>, col: string): (cells: seq<Cell>)
    ensures |cells| == |rows|
  {
    seq(|rows|, i requires 0 <= i < |rows| => Get(rows[i], col))
  }

  /** `df['species']`. */
  function Labels(rows: seq<Row>): (labels: seq<Cell>)
    ensures |labels| == |rows|
  {
    Column(rows, SpeciesColumn)
  }

  /** pandas' `is_numeric_dtype(df[col])`: no cell of the column holds text (undefined cells are
      NaN, which a float column may hold). */
  predicate NumericDtype(rows: seq<Row>, col: string) {
    forall i :: 0 <= i < |rows| ==> !Get(rows[i], col).Str?
  }

  /** The values pandas' reductions see: the numbers of the column in row order, NaN skipped. */
  function NumValues(rows: seq<Row>, col: string): (xs: seq<real>)
    ensures |xs| <= |rows|
  {
    if rows == [] then []
    else
      var cell := Get(rows[|rows| - 1], col);
      NumValues(rows[..|rows| - 1], col) + (if cell.Num? then [cell.x] else [])
  }

  /** Every number in the column is among the values the reductions see, and only those are. */
  lemma {:induction false} NumValuesSpec(rows: seq<Row>, col: string)
    ensures forall i :: 0 <= i < |rows| && Get(rows[i], col).Num? ==> Get(rows[i], col).x in NumValues(rows, col)
    ensures forall x :: x in NumValues(rows, col) ==> exists i :: 0 <= i < |rows| && Get(rows[i], col) == Num(x)
  {
    if rows != [] {
      var init := rows[..|rows| - 1];
      NumValuesSpec(init, col);
      assert forall i :: 0 <= i < |init| ==> rows[i] == init[i];
    }
  }

  /** Whether a row's label equals tag under pandas' `==`, where NaN equals nothing. */
  predicate Labelled(row: Row, tag: Cell) {
    !tag.Undefined? && Get(row, SpeciesColumn) == tag
  }

  /** `df[df['species'] == tag]`: the rows carrying the label, in order. */
  function WithLabel(rows: seq<Row>, tag: Cell): seq<Row> {
    if rows == [] then []
    else
      var last := rows[|rows| - 1];
      WithLabel(rows[..|rows| - 1], tag) + (if Labelled(last, tag) then [last] else [])
  }

  /** `df[df['species'].str.lower() == name.lower()]`; a label that is not a string never matches. */
  function WithLabelIgnoringCase(rows: seq<Row>, name: string): seq<Row> {
    if rows == [] then []
    else
      var last := rows[|rows| - 1];
      var tag := Get(last, SpeciesColumn);
      WithLabelIgnoringCase(rows[..|rows| - 1], name) +
        (if tag.Str? && Lower(tag.s) == Lower(name) then [last] else [])
  }

  /** a is b with some elements left out: an order-preserving subsequence. */
  predicate Subsequence<T(==)>(a: seq<T>, b: seq<T>)
    decreases |b|
  {
    a == [] ||
    (b != [] &&
      ((a[|a| - 1] == b[|b| - 1] && Subsequence(a[..|a| - 1], b[..|b| - 1])) ||
       Subsequence(a, b[..|b| - 1])))
  }

  /** Every element of a subsequence is an element of the whole. */
  lemma {:induction false} SubsequenceMembers<T>(a: seq<T>, b: seq<T>)
    requires Subsequence(a, b)
    ensures forall x :: x in a ==> x in b
    decreases |b|
  {
    if a != [] {
      if a[|a| - 1] == b[|b| - 1] && Subsequence(a[..|a| - 1], b[..|b| - 1]) {
        SubsequenceMembers(a[..|a| - 1], b[..|b| - 1]);
        assert a == a[..|a| - 1] + [a[|a| - 1]];
        assert b == b[..|b| - 1] + [b[|b| - 1]];
      } else {
        SubsequenceMembers(a, b[..|b| - 1]);
        assert b == b[..|b| - 1] + [b[|b| - 1]];
      }
    }
  }

  /** The label filter keeps exactly the rows with that label, in their order, one per
      occurrence of the label; NaN keeps nothing. */
  lemma WithLabelSpec(rows: seq<Row>, tag: Cell)
    ensures Subsequence(WithLabel(rows, tag), rows)
    ensures forall r :: r in WithLabel(rows, tag) <==> r in rows && Labelled(r, tag)
    ensures |WithLabel(rows, tag)| == if tag.Undefined? then 0 else Count(Labels(rows), tag)
  {
    WithLabelIsSubsequence(rows, tag);
    WithLabelMembers(rows, tag);
    WithLabelCount(rows, tag);
  }

  lemma {:induction false} WithLabelIsSubsequence(rows: seq<Row>, tag: Cell)
    ensures Subsequence(WithLabel(rows, tag), rows)
  {
    if rows != [] {
      var init, last := rows[..|rows| - 1], rows[|rows| - 1];
      WithLabelIsSubsequence(init, tag);
      var w := WithLabel(rows, tag);
      if Labelled(last, tag) {
        assert w == WithLabel(init, tag) + [last];
        assert w[..|w| - 1] == WithLabel(init, tag);
        assert w[|w| - 1] == last;
      } else {
        assert w == WithLabel(init, tag);
        assert w == [] || Subsequence(w, rows[..|rows| - 1]);
      }
    }
  }

  lemma {:induction false} WithLabelMembers(rows: seq<Row>, tag: Cell)
    ensures forall r :: r in WithLabel(rows, tag) <==> r in rows && Labelled(r, tag)
  {
    if rows != [] {
      var init, last := rows[..|rows| - 1], rows[|rows| - 1];
      WithLabelMembers(init, tag);
      assert rows == init + [last];
    }
  }

  lemma {:induction false} WithLabelCount(rows: seq<Row>, tag: Cell)
    ensures |WithLabel(rows, tag)| == if tag.Undefined? then 0 else Count(Labels(rows), tag)
  {
    if rows != [] {
      var init, last := rows[..|rows| - 1], rows[|rows| - 1];
      WithLabelCount(init, tag);
      assert Labels(rows)[..|rows| - 1] == Labels(init);
    }
  }

  /** The case-insensitive filter keeps exactly the rows whose string label matches ignoring case. */
  lemma WithLabelIgnoringCaseSpec(rows: seq<Row>, name: string)
    ensures Subsequence(WithLabelIgnoringCase(rows, name), rows)
    ensures forall r :: r in WithLabelIgnoringCase(rows, name) <==>
      r in rows && Get(r, SpeciesColumn).Str? && Lower(Get(r, SpeciesColumn).s) == Lower(name)
  {
    WithLabelIgnoringCaseIsSubsequence(rows, name);
    WithLabelIgnoringCaseMembers(rows, name);
  }

  lemma {:induction false} WithLabelIgnoringCaseIsSubsequence(rows: seq<Row>, name: string)
    ensures Subsequence(WithLabelIgnoringCase(rows, name), rows)
  {
    if rows != [] {
      var init, last := rows[..|rows| - 1], rows[|rows| - 1];
      WithLabelIgnoringCaseIsSubsequence(init, name);
      var w := WithLabelIgnoringCase(rows, name);
      var tag := Get(last, SpeciesColumn);
      if tag.Str? && Lower(tag.s) == Lower(name) {
        assert w == WithLabelIgnoringCase(init, name) + [last];
        assert w[..|w| - 1] == WithLabelIgnoringCase(init, name);
        assert w[|w| - 1] == last;
      } else {
        assert w == WithLabelIgnoringCase(init, name);
        assert w == [] || Subsequence(w, rows[..|rows| - 1]);
      }
    }
  }

  lemma {:induction false} WithLabelIgnoringCaseMembers(rows: seq<Row>, name: string)
    ensures forall r :: r in WithLabelIgnoringCase(rows, name) <==>
      r in rows && Get(r, SpeciesColumn).Str? && Lower(Get(r, SpeciesColumn).s) == Lower(name)
  {
    if rows != [] {
      var init, last := rows[..|rows| - 1], rows[|rows| - 1];
      WithLabelIgnoringCaseMembers(init, name);
      assert rows == init + [last];
    }
  }


  /** A row filter keeps a numeric column numeric. */
  lemma WithLabelKeepsNumeric(rows: seq<Row>, tag: Cell, col: string)
    requires NumericDtype(rows, col)
    ensures NumericDtype(WithLabel(rows, tag), col)
  {
    WithLabelSpec(rows, tag);
    var w := WithLabel(rows, tag);
    forall i | 0 <= i < |w|
      ensures !Get(w[i], col).Str?
    {
      assert w[i] in rows;
      var j :| 0 <= j < |rows| && rows[j] == w[i];
    }
  }

  /** Every label that occurs, other than NaN, has at least one row. */
  lemma WithLabelOfPresentLabel(rows: seq<Row>, tag: Cell)
    requires tag in Labels(rows) && !tag.Undefined?
    ensures |WithLabel(rows, tag)| > 0
  {
    WithLabelSpec(rows, tag);
    var i :| 0 <= i < |rows| && Labels(rows)[i] == tag;
    assert Labels(rows)[i] == Get(rows[i], SpeciesColumn);
    assert Labelled(rows[i], tag);
  }
}
