/** The steps between the integrated report and the PCA report: dropping the
    spreadsheet's pseudo-columns, listing the campaigns, keeping the rows of
    the chosen campaigns, and the empty PCA frame offered when none is
    chosen. */
module Selection {
  import opened Wrappers
  import opened Seqs
  import opened Frames

  /** Column names that are artefacts of the spreadsheet layout. */
  const PseudoColumns: seq<string> := ["1", "2", "Unnamed: 0", "Unnamed: 1"]

  const CampaignColumn: string := "Campaign"

  // ------------------------------------------------------- pseudo-columns

  /** The names in `names` that are pseudo-column names, in order. */
  function PseudoNames(names: seq<string>): seq<string> {
    if names == [] then []
    else
      var x := names[|names| - 1];
      PseudoNames(names[..|names| - 1]) + (if x in PseudoColumns then [x] else [])
  }

  /** The columns whose names are not listed in `drop`, in order. */
  function KeepColumns(cols: seq<Column>, drop: seq<string>): seq<Column> {
    if cols == [] then []
    else
      var c := cols[|cols| - 1];
      KeepColumns(cols[..|cols| - 1], drop) + (if c.name in drop then [] else [c])
  }

  /** `df.drop(columns=drop)`: every column with a listed name goes. */
  function DropColumns(t: Table, drop: seq<string>): Table {
    Table(t.rows, KeepColumns(t.cols, drop))
  }

  /** The loop collecting `cols_to_drop`, then the drop when it found
      any. */
  method DropPseudoColumns(t: Table) returns (r: Table)
    ensures r == DropColumns(t, PseudoColumns)
  {
    var toDrop: seq<string> := [];
    for i := 0 to |t.cols|
      invariant toDrop == PseudoNames(Names(t.cols)[..i])
    {
      assert Names(t.cols)[..i + 1][..i] == Names(t.cols)[..i];
      if t.cols[i].name in PseudoColumns {
        toDrop := toDrop + [t.cols[i].name];
      }
    }
    assert Names(t.cols)[..|t.cols|] == Names(t.cols);
    PseudoNamesMembers(Names(t.cols));
    KeepSameMembers(t.cols, toDrop, PseudoColumns);
    if toDrop != [] {
      r := DropColumns(t, toDrop);
    } else {
      KeepNothingDropped(t.cols, PseudoColumns);
      r := t;
    }
  }

  lemma {:induction false} PseudoNamesMembers(names: seq<string>)
    ensures forall x :: x in PseudoNames(names) <==> x in names && x in PseudoColumns
  {
    if names != [] {
      var p := names[..|names| - 1];
      PseudoNamesMembers(p);
      assert names == p + [names[|names| - 1]];
    }
  }

  /** Two drop lists that agree on the names of `cols` drop the same
      columns. */
  lemma {:induction false} KeepSameMembers(cols: seq<Column>, a: seq<string>, b: seq<string>)
    requires forall j :: 0 <= j < |cols| ==> (cols[j].name in a <==> cols[j].name in b)
    ensures KeepColumns(cols, a) == KeepColumns(cols, b)
  {
    if cols != [] {
      KeepSameMembers(cols[..|cols| - 1], a, b);
    }
  }

  /** A drop list naming no column drops nothing. */
  lemma {:induction false} KeepNothingDropped(cols: seq<Column>, drop: seq<string>)
    requires forall j :: 0 <= j < |cols| ==> cols[j].name !in drop
    ensures KeepColumns(cols, drop) == cols
  {
    if cols != [] {
      KeepNothingDropped(cols[..|cols| - 1], drop);
    }
  }

  /** The kept columns are exactly the columns with an unlisted name. */
  lemma {:induction false} KeepColumnsSpec(cols: seq<Column>, drop: seq<string>)
    ensures forall c :: c in KeepColumns(cols, drop) <==> c in cols && c.name !in drop
    ensures |KeepColumns(cols, drop)| <= |cols|
  {
    if cols != [] {
      var p := cols[..|cols| - 1];
      KeepColumnsSpec(p, drop);
      assert cols == p + [cols[|cols| - 1]];
    }
  }

  /** Dropping keeps the order: it distributes over splitting the
      columns. */
  lemma {:induction false} KeepColumnsAppend(a: seq<Column>, b: seq<Column>, drop: seq<string>)
    ensures KeepColumns(a + b, drop) == KeepColumns(a, drop) + KeepColumns(b, drop)
    decreases |b|
  {
    if b == [] {
      assert a + b == a;
    } else {
      var b' := b[..|b| - 1];
      KeepColumnsAppend(a, b', drop);
      assert (a + b)[..|a + b| - 1] == a + b';
    }
  }

  /** After the drop no pseudo-column is left, every other column is, and
      the rows are untouched. */
  lemma DropPseudoSpec(t: Table)
    ensures var r := DropColumns(t, PseudoColumns);
      && r.rows == t.rows
      && (forall j :: 0 <= j < |r.cols| ==> r.cols[j].name !in PseudoColumns)
      && (forall j :: 0 <= j < |t.cols| && t.cols[j].name !in PseudoColumns ==> t.cols[j] in r.cols)
      && (WellFormed(t) ==> WellFormed(r))
  {
    KeepColumnsSpec(t.cols, PseudoColumns);
    var r := DropColumns(t, PseudoColumns);
    forall j | 0 <= j < |r.cols| ensures r.cols[j].name !in PseudoColumns && r.cols[j] in t.cols {
      assert r.cols[j] in r.cols;
    }
  }

  /** The upload layout's columns "Unnamed: 0" and "2" go, "Campaign"
      stays. */
  lemma DropPseudoExample()
    ensures var a := Column("Unnamed: 0", [], false);
      var b := Column("Campaign", [], false);
      var c := Column("2", [], true);
      DropColumns(Table(0, [a, b, c]), PseudoColumns) == Table(0, [b])
  {
    var a := Column("Unnamed: 0", [], false);
    var b := Column("Campaign", [], false);
    var c := Column("2", [], true);
    assert [a, b, c][..2] == [a, b] && [a, b][..1] == [a] && [a][..0] == [];
    assert "Campaign" != PseudoColumns[0] && "Campaign" != PseudoColumns[1];
    assert "Campaign" != PseudoColumns[2] && "Campaign" != PseudoColumns[3];
    assert "Campaign" !in PseudoColumns;
    assert a.name == PseudoColumns[2] && c.name == PseudoColumns[1];
    assert KeepColumns([a], PseudoColumns) == [];
    assert KeepColumns([a, b], PseudoColumns) == [b];
  }

  // ------------------------------------------------------------ campaigns

  /** `dropna()`: the cells that hold a value, in order. */
  function Present(cells: seq<Cell>): seq<Cell> {
    if cells == [] then []
    else
      var c := cells[|cells| - 1];
      Present(cells[..|cells| - 1]) + (if c == Empty then [] else [c])
  }

  lemma {:induction false} PresentMembers(cells: seq<Cell>)
    ensures forall c :: c in Present(cells) <==> c in cells && c != Empty
  {
    if cells != [] {
      var p := cells[..|cells| - 1];
      PresentMembers(p);
      assert cells == p + [cells[|cells| - 1]];
    }
  }

  /** `df['Campaign'].dropna().unique().tolist()`, guarded by the check that
      the column exists. */
  function Campaigns(t: Table): Option<seq<Cell>> {
    match Find(t.cols, CampaignColumn)
    case None => None
    case Some(j) => Some(Distinct(Present(t.cols[j].cells)))
  }

  /** The campaign list holds each value of the campaign column once, no
      missing value, in order of first appearance; there is a list exactly
      when there is a campaign column. */
  lemma CampaignsSpec(t: Table)
    ensures Campaigns(t).Some? <==> HasColumn(t, CampaignColumn)
    ensures Campaigns(t).Some? ==>
      var cs := Campaigns(t).value;
      var col := t.cols[Find(t.cols, CampaignColumn).value].cells;
      && NoDuplicates(cs)
      && (forall c :: c in cs <==> c in col && c != Empty)
      && (forall p, q :: 0 <= p < q < |cs| ==> IndexOf(Present(col), cs[p]) < IndexOf(Present(col), cs[q]))
  {
    if HasColumn(t, CampaignColumn) {
      var col := t.cols[Find(t.cols, CampaignColumn).value].cells;
      PresentMembers(col);
      DistinctFirstOccurrenceOrder(Present(col));
      var cs := Campaigns(t).value;
      forall c ensures c in cs <==> c in Present(col) {
        if c in Present(col) {
          var i :| 0 <= i < |Present(col)| && Present(col)[i] == c;
        }
      }
    }
  }

  // ------------------------------------------------------------ the filter

  /** The positions below `n` whose cell is among `sel`, in order. */
  function MatchingRows(cells: seq<Cell>, sel: seq<Cell>, n: nat): (idx: seq<nat>)
    requires n <= |cells|
    ensures IndicesBelow(idx, n) && StrictlyIncreasing(idx)
  {
    if n == 0 then []
    else
      var p := MatchingRows(cells, sel, n - 1);
      if cells[n - 1] in sel then p + [n - 1] else p
  }

  lemma {:induction false} MatchingRowsMembers(cells: seq<Cell>, sel: seq<Cell>, n: nat, i: nat)
    requires n <= |cells|
    ensures i in MatchingRows(cells, sel, n) <==> i < n && cells[i] in sel
  {
    if n > 0 {
      MatchingRowsMembers(cells, sel, n - 1, i);
    }
  }

  /** `df[df['Campaign'].isin(sel)]`. */
  function FilterCampaigns(t: Table, sel: seq<Cell>): Table
    requires WellFormed(t) && HasColumn(t, CampaignColumn)
  {
    var col := t.cols[Find(t.cols, CampaignColumn).value].cells;
    SelectRows(t, MatchingRows(col, sel, t.rows))
  }

  /** The filter keeps, in their order and unchanged, exactly the rows whose
      campaign is selected, and keeps the columns. */
  lemma FilterCampaignsSpec(t: Table, sel: seq<Cell>)
    requires WellFormed(t) && HasColumn(t, CampaignColumn)
    ensures var col := t.cols[Find(t.cols, CampaignColumn).value].cells;
      var idx := MatchingRows(col, sel, t.rows);
      var r := FilterCampaigns(t, sel);
      && Names(r.cols) == Names(t.cols)
      && r.rows == |idx|
      && StrictlyIncreasing(idx)
      && (forall i :: 0 <= i < t.rows ==> (i in idx <==> col[i] in sel))
      && (forall k :: 0 <= k < r.rows ==> r.cols[Find(t.cols, CampaignColumn).value].cells[k] in sel)
      && (forall j, k :: 0 <= j < |t.cols| && 0 <= k < r.rows ==> r.cols[j].cells[k] == t.cols[j].cells[idx[k]])
  {
    var col := t.cols[Find(t.cols, CampaignColumn).value].cells;
    var idx := MatchingRows(col, sel, t.rows);
    SelectRowsNames(t, idx);
    forall i | 0 <= i < t.rows ensures i in idx <==> col[i] in sel {
      MatchingRowsMembers(col, sel, t.rows, i);
    }
    forall k | 0 <= k < |idx| ensures col[idx[k]] in sel {
      MatchingRowsMembers(col, sel, t.rows, idx[k]);
    }
  }

  /** Selecting every listed campaign keeps exactly the rows that have a
      campaign. */
  lemma SelectAllCampaigns(t: Table)
    requires WellFormed(t) && HasColumn(t, CampaignColumn)
    ensures var col := t.cols[Find(t.cols, CampaignColumn).value].cells;
      forall i :: 0 <= i < t.rows ==>
        (i in MatchingRows(col, Campaigns(t).value, t.rows) <==> col[i] != Empty)
  {
    var col := t.cols[Find(t.cols, CampaignColumn).value].cells;
    CampaignsSpec(t);
    forall i | 0 <= i < t.rows
      ensures i in MatchingRows(col, Campaigns(t).value, t.rows) <==> col[i] != Empty
    {
      MatchingRowsMembers(col, Campaigns(t).value, t.rows, i);
    }
  }

  // ---------------------------------------------------- the empty template

  /** `pd.DataFrame(columns=pca_headers)`. */
  function EmptyTemplate(headers: seq<string>): Table {
    Table(0, seq(|headers|, i requires 0 <= i < |headers| => Column(headers[i], [], false)))
  }

  /** The empty template has no rows and exactly the headers as columns, in
      order and with repetitions. */
  lemma EmptyTemplateSpec(headers: seq<string>)
    ensures WellFormed(EmptyTemplate(headers))
    ensures EmptyTemplate(headers).rows == 0
    ensures Names(EmptyTemplate(headers).cols) == headers
  {
  }
}
