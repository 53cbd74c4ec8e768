/** `read_raw_sheet`, after the spreadsheet read: dropping the rows that are
    missing in every column and labelling each remaining row with the file it
    came from. */
module RawSheet {
  import opened Wrappers
  import opened Frames

  const SourceFileColumn: string := "Source_File"

  /** The positions below `n` of the rows that hold at least one value, in
      order. */
  function NonEmptyRows(t: Table, n: nat): (idx: seq<nat>)
    requires WellFormed(t) && n <= t.rows
    ensures IndicesBelow(idx, n) && StrictlyIncreasing(idx)
  {
    if n == 0 then []
    else
      var p := NonEmptyRows(t, n - 1);
      if EmptyRow(t, n - 1) then p else p + [n - 1]
  }

  /** `df.dropna(how='all')`. */
  function DropEmptyRows(t: Table): Table
    requires WellFormed(t)
  {
    SelectRows(t, NonEmptyRows(t, t.rows))
  }

  /** The raw sheet of one file after `dropna(how='all')` and
      `insert(0, 'Source_File', fileName)`. Inserting a column whose name the
      frame already holds raises, and the read then reports failure. */
  function ReadRawSheet(t: Table, fileName: string): Option<Table>
    requires WellFormed(t)
  {
    if HasColumn(t, SourceFileColumn) then None
    else
      var d := DropEmptyRows(t);
      Some(Table(d.rows, [Column(SourceFileColumn, Repeat(d.rows, Text(fileName)), false)] + d.cols))
  }

  // ---------------------------------------------------------- properties

  /** A row is kept exactly when it holds a value. */
  lemma {:induction false} NonEmptyRowsMembers(t: Table, n: nat, i: nat)
    requires WellFormed(t) && n <= t.rows
    ensures i in NonEmptyRows(t, n) <==> i < n && !EmptyRow(t, i)
  {
    if n > 0 {
      NonEmptyRowsMembers(t, n - 1, i);
    }
  }

  /** Dropping the empty rows keeps the columns, keeps every row that holds a
      value, in order, and leaves no row that is missing everywhere. */
  lemma DropEmptyRowsSpec(t: Table)
    requires WellFormed(t)
    ensures var d := DropEmptyRows(t); var idx := NonEmptyRows(t, t.rows);
      && WellFormed(d) && Names(d.cols) == Names(t.cols)
      && (forall k :: 0 <= k < d.rows ==> !EmptyRow(d, k))
      && (forall i :: 0 <= i < t.rows ==> (i in idx <==> !EmptyRow(t, i)))
      && (forall j, k :: 0 <= j < |t.cols| && 0 <= k < d.rows ==> d.cols[j].cells[k] == t.cols[j].cells[idx[k]])
  {
    var d := DropEmptyRows(t);
    var idx := NonEmptyRows(t, t.rows);
    forall k | 0 <= k < d.rows ensures !EmptyRow(d, k) {
      NonEmptyRowsMembers(t, t.rows, idx[k]);
      var j :| 0 <= j < |t.cols| && t.cols[j].cells[idx[k]] != Empty;
      assert d.cols[j].cells[k] != Empty;
    }
    forall i | 0 <= i < t.rows ensures i in idx <==> !EmptyRow(t, i) {
      NonEmptyRowsMembers(t, t.rows, i);
    }
  }

  /** A successful read has `Source_File` first, holding the file name on every
      row, then the sheet's own columns over its non-empty rows. A sheet that
      already has a `Source_File` column fails. */
  lemma ReadRawSheetSpec(t: Table, fileName: string)
    requires WellFormed(t)
    ensures ReadRawSheet(t, fileName).None? <==> HasColumn(t, SourceFileColumn)
    ensures ReadRawSheet(t, fileName).Some? ==>
      var r := ReadRawSheet(t, fileName).value;
      && WellFormed(r)
      && r.rows == |NonEmptyRows(t, t.rows)| <= t.rows
      && Names(r.cols) == [SourceFileColumn] + Names(t.cols)
      && (forall k :: 0 <= k < r.rows ==> r.cols[0].cells[k] == Text(fileName))
      && r.cols[1..] == DropEmptyRows(t).cols
  {
    if !HasColumn(t, SourceFileColumn) {
      var d := DropEmptyRows(t);
      var r := ReadRawSheet(t, fileName).value;
      SelectRowsNames(t, NonEmptyRows(t, t.rows));
      assert r.cols[1..] == d.cols;
      assert Names(r.cols) == [SourceFileColumn] + Names(d.cols);
      CountBelow(NonEmptyRows(t, t.rows), t.rows);
    }
  }

  /** A strictly increasing sequence of indices below `n` has at most `n`
      elements. */
  lemma {:induction false} CountBelow(idx: seq<nat>, n: nat)
    requires IndicesBelow(idx, n) && StrictlyIncreasing(idx)
    ensures |idx| <= n
  {
    if idx != [] {
      var last := idx[|idx| - 1];
      CountBelow(idx[..|idx| - 1], last);
    }
  }
}
