/** The integrated report: the three cleaned sheets stacked with
    `pd.concat(..., ignore_index=True)`, then, when there is a `date`
    column, its values parsed as dates and the rows sorted newest first. */
module Integration {
  import opened Wrappers
  import opened Seqs
  import opened Frames

  const DateColumn: string := "date"

  // ---------------------------------------------------------------- concat

  predicate AllWellFormed(ts: seq<Table>) {
    forall i :: 0 <= i < |ts| ==> WellFormed(ts[i])
  }

  /** The column names of the frames, one frame after the other. */
  function AllNames(ts: seq<Table>): seq<string> {
    if ts == [] then [] else AllNames(ts[..|ts| - 1]) + Names(ts[|ts| - 1].cols)
  }

  function TotalRows(ts: seq<Table>): nat {
    if ts == [] then 0 else TotalRows(ts[..|ts| - 1]) + ts[|ts| - 1].rows
  }

  /** The column `u` of the stacked frames: each frame's cells under `u`, or
      missing values for a frame without that column. */
  function Stack(ts: seq<Table>, u: string): (r: seq<Cell>)
    requires AllWellFormed(ts)
    ensures |r| == TotalRows(ts)
  {
    if ts == [] then []
    else
      assert AllWellFormed(ts[..|ts| - 1]);
      Stack(ts[..|ts| - 1], u) + CellsOf(ts[|ts| - 1], u)
  }

  /** The stacked column keeps a numeric dtype when every frame holding `u`
      has it numeric (missing values fill the others). */
  predicate NumericIn(ts: seq<Table>, u: string) {
    forall i :: 0 <= i < |ts| && HasColumn(ts[i], u) ==> ts[i].cols[Find(ts[i].cols, u).value].numeric
  }

  /** `pd.concat(ts, ignore_index=True)`: the union of the column names in
      order of first appearance; the rows of the frames one after the
      other. */
  function Concat(ts: seq<Table>): (r: Table)
    requires AllWellFormed(ts)
    ensures WellFormed(r)
  {
    var names := Distinct(AllNames(ts));
    Table(TotalRows(ts), seq(|names|, j requires 0 <= j < |names| =>
      Column(names[j], Stack(ts, names[j]), NumericIn(ts, names[j]))))
  }

  /** A name is among all the names exactly when some frame has it. */
  lemma {:induction false} AllNamesMembers(ts: seq<Table>, u: string)
    ensures u in AllNames(ts) <==> exists i :: 0 <= i < |ts| && HasColumn(ts[i], u)
  {
    if ts != [] {
      var p := ts[..|ts| - 1];
      AllNamesMembers(p, u);
      assert forall i :: 0 <= i < |p| ==> p[i] == ts[i];
      if i :| 0 <= i < |ts| && HasColumn(ts[i], u) {
        if i < |p| {
          assert HasColumn(p[i], u);
        }
      }
    }
  }

  /** The stacked frame has each name of any input once, in order of first
      appearance across the inputs, and no other. */
  lemma ConcatNames(ts: seq<Table>)
    requires AllWellFormed(ts)
    ensures var ns := Names(Concat(ts).cols);
      && NoDuplicates(ns)
      && (forall u :: u in ns <==> exists i :: 0 <= i < |ts| && HasColumn(ts[i], u))
      && (forall p, q :: 0 <= p < q < |ns| ==> IndexOf(AllNames(ts), ns[p]) < IndexOf(AllNames(ts), ns[q]))
  {
    var ns := Names(Concat(ts).cols);
    assert ns == Distinct(AllNames(ts));
    forall u ensures u in ns <==> exists i :: 0 <= i < |ts| && HasColumn(ts[i], u) {
      AllNamesMembers(ts, u);
    }
    DistinctFirstOccurrenceOrder(AllNames(ts));
  }

  /** Stacking DAD, DMC and TA: the row count is the sum, and every column
      holds the DAD rows, then the DMC rows, then the TA rows. */
  lemma ConcatThree(a: Table, b: Table, c: Table)
    requires WellFormed(a) && WellFormed(b) && WellFormed(c)
    ensures Concat([a, b, c]).rows == a.rows + b.rows + c.rows
    ensures forall j :: 0 <= j < |Concat([a, b, c]).cols| ==>
      var u := Concat([a, b, c]).cols[j].name;
      Concat([a, b, c]).cols[j].cells == CellsOf(a, u) + CellsOf(b, u) + CellsOf(c, u)
  {
    var ts := [a, b, c];
    assert ts[..2] == [a, b] && ts[..2][..1] == [a] && ts[..2][..1][..0] == [];
    assert TotalRows([a]) == a.rows;
    assert TotalRows([a, b]) == a.rows + b.rows;
    forall u ensures Stack(ts, u) == CellsOf(a, u) + CellsOf(b, u) + CellsOf(c, u) {
      assert Stack([a], u) == CellsOf(a, u);
    }
  }

  // ---------------------------------------------------------- date order

  /** A parsed date (`None` for NaT). */
  function KeyOf(c: Cell): Option<int> {
    if c.Date? then Some(c.key) else None
  }

  function ToDate(k: Option<int>): Cell {
    match k
    case Some(v) => Date(v)
    case None => Empty
  }

  /** `df['date'] = pd.to_datetime(df['date'], errors='coerce')`: `parse` is
      the date parser, `None` for a value it cannot read. The column keeps its
      place and is no longer numeric. */
  function ParseDates(t: Table, parse: Cell -> Option<int>): (r: Table)
    requires WellFormed(t) && HasColumn(t, DateColumn)
    ensures WellFormed(r) && r.rows == t.rows && Names(r.cols) == Names(t.cols)
  {
    var j := Find(t.cols, DateColumn).value;
    var cells := t.cols[j].cells;
    var parsed := seq(|cells|, k requires 0 <= k < |cells| => ToDate(parse(cells[k])));
    var r := Table(t.rows, t.cols[j := Column(DateColumn, parsed, false)]);
    assert Names(r.cols) == Names(t.cols);
    r
  }

  /** Descending order with missing dates last: `a` may stand before `b`. */
  predicate Before(a: Option<int>, b: Option<int>) {
    b.None? || (a.Some? && a.value >= b.value)
  }

  predicate SortedBy(keys: seq<Option<int>>, idx: seq<nat>)
    requires IndicesBelow(idx, |keys|)
  {
    forall p, q :: 0 <= p < q < |idx| ==> Before(keys[idx[p]], keys[idx[q]])
  }

  /** Inserts row `x` after the rows whose dates may stand before its own. */
  function Insert(keys: seq<Option<int>>, s: seq<nat>, x: nat): (r: seq<nat>)
    requires x < |keys| && IndicesBelow(s, |keys|)
    ensures IndicesBelow(r, |keys|)
    ensures multiset(r) == multiset(s) + multiset{x}
  {
    if s == [] then [x]
    else if Before(keys[s[0]], keys[x]) then
      assert s == [s[0]] + s[1..];
      [s[0]] + Insert(keys, s[1..], x)
    else [x] + s
  }

  /** The row order of `sort_values(ascending=False)` on the first `n`
      rows. */
  function SortOrder(keys: seq<Option<int>>, n: nat): (r: seq<nat>)
    requires n <= |keys|
    ensures IndicesBelow(r, |keys|)
    ensures multiset(r) == multiset(Range(n))
  {
    if n == 0 then []
    else
      assert Range(n) == Range(n - 1) + [n - 1];
      Insert(keys, SortOrder(keys, n - 1), n - 1)
  }

  lemma {:induction false} InsertSorted(keys: seq<Option<int>>, s: seq<nat>, x: nat)
    requires x < |keys| && IndicesBelow(s, |keys|) && SortedBy(keys, s)
    ensures SortedBy(keys, Insert(keys, s, x))
  {
    if s != [] {
      var r := Insert(keys, s, x);
      var rest := s[1..];
      if Before(keys[s[0]], keys[x]) {
        InsertSorted(keys, rest, x);
        var t := Insert(keys, rest, x);
        assert r == [s[0]] + t;
        forall q | 0 <= q < |t| ensures Before(keys[s[0]], keys[t[q]]) {
          assert t[q] in multiset(t);
          if t[q] != x {
            assert t[q] in multiset(rest);
            var k :| 0 <= k < |rest| && rest[k] == t[q];
            assert s[k + 1] == t[q];
          }
        }
      } else {
        assert r == [x] + s;
        forall q | 0 <= q < |s| ensures Before(keys[x], keys[s[q]]) {
          if q > 0 {
            assert Before(keys[s[0]], keys[s[q]]);
          }
        }
      }
    }
  }

  lemma {:induction false} SortOrderSorted(keys: seq<Option<int>>, n: nat)
    requires n <= |keys|
    ensures SortedBy(keys, SortOrder(keys, n))
  {
    if n > 0 {
      SortOrderSorted(keys, n - 1);
      InsertSorted(keys, SortOrder(keys, n - 1), n - 1);
    }
  }

  /** The parsed dates of the frame's `date` column, row by row. */
  function DateKeys(t: Table): (keys: seq<Option<int>>)
    requires WellFormed(t) && HasColumn(t, DateColumn)
    ensures |keys| == t.rows
  {
    var cells := t.cols[Find(t.cols, DateColumn).value].cells;
    seq(|cells|, k requires 0 <= k < |cells| => KeyOf(cells[k]))
  }

  /** Parsing replaces the `date` column, where it stands, by the parser's
      reading of each of its cells: a date, or missing where the parser gives
      none. Every other column is left as it was. */
  lemma ParseDatesSpec(t: Table, parse: Cell -> Option<int>)
    requires WellFormed(t) && HasColumn(t, DateColumn)
    ensures var j := Find(t.cols, DateColumn).value; var r := ParseDates(t, parse);
      && HasColumn(r, DateColumn) && Find(r.cols, DateColumn).value == j
      && !r.cols[j].numeric
      && (forall k :: 0 <= k < t.rows ==> DateKeys(r)[k] == parse(t.cols[j].cells[k]))
      && (forall k :: 0 <= k < t.rows ==> r.cols[j].cells[k].Date? || r.cols[j].cells[k] == Empty)
      && (forall i :: 0 <= i < |t.cols| && i != j ==> r.cols[i] == t.cols[i])
  {
    var j := Find(t.cols, DateColumn).value;
    var r := ParseDates(t, parse);
    assert Find(r.cols, DateColumn).value == j;
  }

  /** `sort_values('date', ascending=False)`. */
  function SortByDate(t: Table): Table
    requires WellFormed(t) && HasColumn(t, DateColumn)
  {
    SelectRows(t, SortOrder(DateKeys(t), t.rows))
  }

  // ---------------------------------------------------------- integration

  /** The integrated report of the three cleaned sheets. */
  function Integrate(dad: Table, dmc: Table, ta: Table, parse: Cell -> Option<int>): Table
    requires WellFormed(dad) && WellFormed(dmc) && WellFormed(ta)
  {
    var c := Concat([dad, dmc, ta]);
    if !HasColumn(c, DateColumn) then c
    else
      var p := ParseDates(c, parse);
      SortByDate(p)
  }

  /** The integrated report has the rows of the three sheets, no more and no
      fewer, and the column names of the stacked frame. */
  lemma IntegrateShape(dad: Table, dmc: Table, ta: Table, parse: Cell -> Option<int>)
    requires WellFormed(dad) && WellFormed(dmc) && WellFormed(ta)
    ensures var r := Integrate(dad, dmc, ta, parse);
      && WellFormed(r)
      && r.rows == dad.rows + dmc.rows + ta.rows
      && Names(r.cols) == Names(Concat([dad, dmc, ta]).cols)
  {
    ConcatThree(dad, dmc, ta);
    var c := Concat([dad, dmc, ta]);
    if HasColumn(c, DateColumn) {
      var p := ParseDates(c, parse);
      var idx := SortOrder(DateKeys(p), p.rows);
      SelectRowsNames(p, idx);
      assert |idx| == |Range(p.rows)| by {
        assert |multiset(idx)| == |multiset(Range(p.rows))|;
      }
      assert Integrate(dad, dmc, ta, parse) == SelectRows(p, idx);
    }
  }

  /** Without a `date` column the rows stay in file order: the DAD rows, then
      the DMC rows, then the TA rows. */
  lemma IntegrateWithoutDate(dad: Table, dmc: Table, ta: Table, parse: Cell -> Option<int>)
    requires WellFormed(dad) && WellFormed(dmc) && WellFormed(ta)
    requires !HasColumn(Concat([dad, dmc, ta]), DateColumn)
    ensures var r := Integrate(dad, dmc, ta, parse);
      forall j :: 0 <= j < |r.cols| ==>
        r.cols[j].cells == CellsOf(dad, r.cols[j].name) + CellsOf(dmc, r.cols[j].name) + CellsOf(ta, r.cols[j].name)
  {
    ConcatThree(dad, dmc, ta);
  }

  /** With a `date` column the report is a reordering of the stacked rows
      (each row exactly once) in which the parsed dates never increase and
      missing dates come last. */
  lemma IntegrateWithDate(dad: Table, dmc: Table, ta: Table, parse: Cell -> Option<int>)
    requires WellFormed(dad) && WellFormed(dmc) && WellFormed(ta)
    requires HasColumn(Concat([dad, dmc, ta]), DateColumn)
    ensures var p := ParseDates(Concat([dad, dmc, ta]), parse);
      exists idx: seq<nat> ::
        && multiset(idx) == multiset(Range(p.rows))
        && IndicesBelow(idx, p.rows)
        && Integrate(dad, dmc, ta, parse) == SelectRows(p, idx)
        && SortedBy(DateKeys(p), idx)
  {
    var p := ParseDates(Concat([dad, dmc, ta]), parse);
    var idx := SortOrder(DateKeys(p), p.rows);
    SortOrderSorted(DateKeys(p), p.rows);
    assert Integrate(dad, dmc, ta, parse) == SelectRows(p, idx);
  }

  /** In the sorted report the `date` column itself runs from the newest
      date down, with missing dates last. */
  lemma SortedDateColumn(t: Table)
    requires WellFormed(t) && HasColumn(t, DateColumn)
    ensures var r := SortByDate(t);
      HasColumn(r, DateColumn) &&
      forall p, q :: 0 <= p < q < r.rows ==> Before(DateKeys(r)[p], DateKeys(r)[q])
  {
    var idx := SortOrder(DateKeys(t), t.rows);
    var r := SortByDate(t);
    SelectRowsNames(t, idx);
    SortOrderSorted(DateKeys(t), t.rows);
    var j := Find(t.cols, DateColumn).value;
    assert Find(r.cols, DateColumn).value == j;
    forall p | 0 <= p < r.rows ensures DateKeys(r)[p] == DateKeys(t)[idx[p]] {
      assert r.cols[j].cells[p] == t.cols[j].cells[idx[p]];
    }
  }
}
