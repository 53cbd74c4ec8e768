/** The data frames the pipeline passes around, reduced to what its
    transformations look at: named columns of tagged cells and a row count. */
module Frames {
  import opened Wrappers
  import opened Seqs

  /** A cell of a data frame. pandas cells are dynamically typed; here they
      are tagged: `Empty` is a missing value (NaN, None or NaT), numbers are
      integers, and a date is an opaque key ordered like the dates. */
  datatype Cell = Empty | Num(n: int) | Text(s: string) | Date(key: int)

  /** A named column. `numeric` says whether pandas gives the column an
      integer or floating dtype (`int64`, `float64`, ...). */
  datatype Column = Column(name: string, cells: seq<Cell>, numeric: bool)

  /** A data frame: the length of its index and its columns in order. Column
      names may repeat, as they can in a pandas frame. */
  datatype Table = Table(rows: nat, cols: seq<Column>)

  /** Every column holds one cell per row. */
  predicate WellFormed(t: Table) {
    forall j :: 0 <= j < |t.cols| ==> |t.cols[j].cells| == t.rows
  }

  function Names(cols: seq<Column>): (r: seq<string>)
    ensures |r| == |cols| && forall j :: 0 <= j < |cols| ==> r[j] == cols[j].name
  {
    seq(|cols|, j requires 0 <= j < |cols| => cols[j].name)
  }

  /** The number of input columns called `name`. */
  function CountNamed(cols: seq<Column>, name: string): nat {
    if cols == [] then 0
    else CountNamed(cols[..|cols| - 1], name) + (if cols[|cols| - 1].name == name then 1 else 0)
  }

  /** `name in df.columns`. */
  predicate HasColumn(t: Table, name: string) {
    name in Names(t.cols)
  }

  /** The position of the first column called `name`, if any. */
  function Find(cols: seq<Column>, name: string): (r: Option<nat>)
    ensures r.None? <==> name !in Names(cols)
    ensures r.Some? ==> r.value < |cols| && cols[r.value].name == name
    ensures r.Some? ==> forall j :: 0 <= j < r.value ==> cols[j].name != name
  {
    if name in Names(cols) then Some(IndexOf(Names(cols), name)) else None
  }

  /** A column's worth of missing values. */
  function Empties(n: nat): (r: seq<Cell>)
    ensures |r| == n && forall k :: 0 <= k < n ==> r[k] == Empty
  {
    seq(n, k requires 0 <= k < n => Empty)
  }

  /** A column's worth of one value (pandas broadcasting a scalar). */
  function Repeat(n: nat, c: Cell): (r: seq<Cell>)
    ensures |r| == n && forall k :: 0 <= k < n ==> r[k] == c
  {
    seq(n, k requires 0 <= k < n => c)
  }

  /** The cells of the column called `name`, or missing values when the frame
      has no such column (what reindexing to a wider column set gives). */
  function CellsOf(t: Table, name: string): (r: seq<Cell>)
    requires WellFormed(t)
    ensures |r| == t.rows
  {
    match Find(t.cols, name)
    case Some(j) => t.cols[j].cells
    case None => Empties(t.rows)
  }

  /** Row `i` is missing in every column (`dropna(how='all')` drops it). */
  predicate EmptyRow(t: Table, i: nat)
    requires WellFormed(t) && i < t.rows
  {
    forall j :: 0 <= j < |t.cols| ==> t.cols[j].cells[i] == Empty
  }

  predicate IndicesBelow(idx: seq<nat>, n: nat) {
    forall k :: 0 <= k < |idx| ==> idx[k] < n
  }

  predicate StrictlyIncreasing(idx: seq<nat>) {
    forall a, b :: 0 <= a < b < |idx| ==> idx[a] < idx[b]
  }

  function SelectCells(c: seq<Cell>, idx: seq<nat>): (r: seq<Cell>)
    requires IndicesBelow(idx, |c|)
    ensures |r| == |idx| && forall k :: 0 <= k < |idx| ==> r[k] == c[idx[k]]
  {
    seq(|idx|, k requires 0 <= k < |idx| => c[idx[k]])
  }

  /** The frame made of the rows at positions `idx`, in that order (boolean
      masks, `sort_values` and `dropna` all pick rows this way); the columns
      keep their names and dtypes. */
  function SelectRows(t: Table, idx: seq<nat>): (r: Table)
    requires WellFormed(t) && IndicesBelow(idx, t.rows)
    ensures WellFormed(r) && r.rows == |idx| && |r.cols| == |t.cols|
    ensures forall j :: 0 <= j < |t.cols| ==>
      r.cols[j].name == t.cols[j].name && r.cols[j].numeric == t.cols[j].numeric
    ensures forall j, k :: 0 <= j < |t.cols| && 0 <= k < |idx| ==>
      r.cols[j].cells[k] == t.cols[j].cells[idx[k]]
  {
    Table(|idx|, seq(|t.cols|, j requires 0 <= j < |t.cols| =>
      Column(t.cols[j].name, SelectCells(t.cols[j].cells, idx), t.cols[j].numeric)))
  }

  lemma SelectRowsNames(t: Table, idx: seq<nat>)
    requires WellFormed(t) && IndicesBelow(idx, t.rows)
    ensures Names(SelectRows(t, idx).cols) == Names(t.cols)
  {
  }
}
