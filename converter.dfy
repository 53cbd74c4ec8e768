/** `convert_to_pca_format`: copying each mapped source column of a frame
    under its target name into a new frame, then keeping and ordering the
    target columns by the header list. */
module Converter {
  import opened Wrappers
  import opened Seqs
  import opened Frames
  import opened Dicts

  // -------------------------------------------------------- specification

  /** Some dict entry names a source column that the input holds more than
      once: `df[int_col]` is then a frame, storing it as one column raises, and
      the except branch returns an empty frame. */
  predicate Raises(t: Table, d: Dict) {
    exists i :: 0 <= i < |d| && CountNamed(t.cols, d[i].0) > 1
  }

  /** Some dict entry names a column the input holds. */
  predicate AnySource(t: Table, d: Dict) {
    exists i :: 0 <= i < |d| && HasColumn(t, d[i].0)
  }

  /** The result's row count. The new frame starts without an index and takes
      the input's index from the first source column stored into it; a frame
      that only ever received `None` columns has no rows. */
  function OutRows(t: Table, d: Dict): nat {
    if AnySource(t, d) then t.rows else 0
  }

  /** The source label of the last entry, in dict order, whose target is `h`:
      its assignment is the one that stays. */
  function LastSourceFor(d: Dict, h: string): (r: Option<string>)
    ensures r.None? <==> h !in Values(d)
  {
    if d == [] then None
    else
      assert Values(d) == Values(d[..|d| - 1]) + [d[|d| - 1].1];
      if d[|d| - 1].1 == h then Some(d[|d| - 1].0) else LastSourceFor(d[..|d| - 1], h)
  }

  /** The entry `LastSourceFor` picks has target `h`, and no later entry
      does. */
  lemma {:induction false} LastSourceForSpec(d: Dict, h: string)
    requires h in Values(d)
    ensures exists i ::
      0 <= i < |d| && d[i] == (LastSourceFor(d, h).value, h) && forall j :: i < j < |d| ==> d[j].1 != h
  {
    var p := d[..|d| - 1];
    var last := d[|d| - 1];
    if last.1 != h {
      assert Values(d) == Values(p) + [last.1];
      LastSourceForSpec(p, h);
      var i :| 0 <= i < |p| && p[i] == (LastSourceFor(p, h).value, h) && forall j :: i < j < |p| ==> p[j].1 != h;
      assert LastSourceFor(d, h) == LastSourceFor(p, h);
      assert d[i] == p[i];
      forall j | i < j < |d| ensures d[j].1 != h {
        if j < |p| {
          assert d[j] == p[j];
        }
      }
    } else {
      assert d[|d| - 1] == (LastSourceFor(d, h).value, h);
    }
  }

  /** The column left under target name `h` in a frame of `n` rows: the
      source column of the last entry for `h` if the input holds it, and
      otherwise a column of missing values. */
  function TargetColumn(t: Table, d: Dict, h: string, n: nat): Column
    requires h in Values(d)
  {
    var s := LastSourceFor(d, h).value;
    match Find(t.cols, s)
    case Some(j) => Column(h, t.cols[j].cells, t.cols[j].numeric)
    case None => Column(h, Empties(n), false)
  }

  /** `[col for col in pca_headers if col in pca_df.columns]` followed by
      `pca_df[existing_cols]`, for a frame whose columns are the dict's
      targets. */
  function Project(t: Table, d: Dict, headers: seq<string>, n: nat): seq<Column> {
    if headers == [] then []
    else
      var h := headers[|headers| - 1];
      Project(t, d, headers[..|headers| - 1], n) + (if h in Values(d) then [TargetColumn(t, d, h, n)] else [])
  }

  /** The converted frame. */
  function Converted(t: Table, d: Dict, headers: seq<string>): Table {
    if Raises(t, d) then Table(0, [])
    else Table(OutRows(t, d), Project(t, d, headers, OutRows(t, d)))
  }

  /** The headers, in order and with repetitions, that are targets of the
      dict. */
  function KeptHeaders(headers: seq<string>, targets: seq<string>): seq<string> {
    if headers == [] then []
    else
      var h := headers[|headers| - 1];
      KeptHeaders(headers[..|headers| - 1], targets) + (if h in targets then [h] else [])
  }

  // ------------------------------------------------------- the frame built

  /** `pca_df[c.name] = ...`: replaces the column of that name where it
      stands, or appends it. */
  function SetColumn(cols: seq<Column>, c: Column): seq<Column> {
    if c.name in Names(cols) then cols[IndexOf(Names(cols), c.name) := c] else cols + [c]
  }

  /** Gives every column `n` missing values (reindexing columns of missing
      values to a new index). */
  function Reindexed(cols: seq<Column>, n: nat): (r: seq<Column>)
    ensures |r| == |cols| && Names(r) == Names(cols)
  {
    seq(|cols|, j requires 0 <= j < |cols| => Column(cols[j].name, Empties(n), cols[j].numeric))
  }

  /** The frame's column called `h`. */
  function Named(cols: seq<Column>, h: string): Column
    requires h in Names(cols)
  {
    cols[IndexOf(Names(cols), h)]
  }

  /** The loop's picture of the frame after the entries of `d`: one column per
      distinct target, each the target column for `n` rows. */
  ghost predicate Built(t: Table, d: Dict, cols: seq<Column>, n: nat) {
    && NoDuplicates(Names(cols))
    && (forall h :: h in Names(cols) <==> h in Values(d))
    && (forall j :: 0 <= j < |cols| ==> cols[j].name in Values(d) && cols[j] == TargetColumn(t, d, cols[j].name, n))
  }

  // --------------------------------------------------------------- method

  /** The conversion loop: entries in dict order, each storing a source column
      or a column of `None` under its target name; then the projection on the
      header list. Any exception gives an empty frame. */
  method ConvertToPcaFormat(t: Table, d: Dict, headers: seq<string>) returns (r: Table)
    requires WellFormed(t)
    ensures r == Converted(t, d, headers)
  {
    var rows: nat := 0;
    var cols: seq<Column> := [];
    var i := 0;
    while i < |d|
      invariant 0 <= i <= |d|
      invariant LoopState(t, d, i, cols, rows)
    {
      var (src, tgt) := d[i];
      if CountNamed(t.cols, src) > 1 {
        PrefixStep(t, d, i);
        RaisesExtend(t, d, i + 1);
        return Table(0, []);
      }
      ghost var cols0, rows0 := cols, rows;
      var col: Column;
      match Find(t.cols, src) {
        case Some(j) =>
          if rows == 0 && t.rows > 0 {
            cols := Reindexed(cols, t.rows);
            rows := t.rows;
          }
          col := Column(tgt, t.cols[j].cells, t.cols[j].numeric);
        case None =>
          col := Column(tgt, Empties(rows), false);
      }
      StepKeepsState(t, d, i, cols0, rows0, cols, rows, col);
      cols := SetColumn(cols, col);
      i := i + 1;
    }
    assert d[..i] == d;
    ProjectBuilt(t, d, headers, cols, rows);
    var existing := KeptHeaders(headers, Names(cols));
    r := Table(rows, SelectNamed(cols, existing));
  }

  /** `pca_df[existing_cols]`: the columns with the listed names, in list
      order. */
  function SelectNamed(cols: seq<Column>, names: seq<string>): seq<Column>
    requires forall k :: 0 <= k < |names| ==> names[k] in Names(cols)
  {
    if names == [] then []
    else SelectNamed(cols, names[..|names| - 1]) + [Named(cols, names[|names| - 1])]
  }

  // ------------------------------------------------------ proof of the loop

  /** The loop's invariant after the first `i` entries: no exception so far,
      the index taken as the first source column was stored, and the frame
      is the picture `Built` describes. */
  ghost predicate LoopState(t: Table, d: Dict, i: nat, cols: seq<Column>, rows: nat)
    requires i <= |d|
  {
    && !Raises(t, d[..i])
    && rows == OutRows(t, d[..i])
    && Built(t, d[..i], cols, rows)
  }

  /** One entry whose source is not repeated keeps the invariant. `cols`
      and `rows` are the frame after the possible reindexing, `col` the
      column stored. */
  lemma StepKeepsState(t: Table, d: Dict, i: nat, cols0: seq<Column>, rows0: nat,
                       cols: seq<Column>, rows: nat, col: Column)
    requires WellFormed(t) && i < |d| && LoopState(t, d, i, cols0, rows0)
    requires CountNamed(t.cols, d[i].0) <= 1
    requires Find(t.cols, d[i].0).Some? ==>
      && col == Column(d[i].1, t.cols[Find(t.cols, d[i].0).value].cells, t.cols[Find(t.cols, d[i].0).value].numeric)
      && (if rows0 == 0 && t.rows > 0 then cols == Reindexed(cols0, t.rows) && rows == t.rows
          else cols == cols0 && rows == rows0)
    requires Find(t.cols, d[i].0).None? ==>
      col == Column(d[i].1, Empties(rows0), false) && cols == cols0 && rows == rows0
    ensures LoopState(t, d, i + 1, SetColumn(cols, col), rows)
  {
    PrefixStep(t, d, i);
    if Find(t.cols, d[i].0).Some? {
      if rows0 == 0 && t.rows > 0 {
        ReindexBuilt(t, d[..i], cols0, t.rows);
      } else if rows0 != 0 {
        assert AnySource(t, d[..i]);
      }
      assert AnySource(t, d[..i + 1]);
    }
    BuiltStep(t, d, i, cols, rows, col);
  }

  lemma RaisesExtend(t: Table, d: Dict, n: nat)
    requires n <= |d| && Raises(t, d[..n])
    ensures Raises(t, d)
  {
    var i :| 0 <= i < n && CountNamed(t.cols, d[..n][i].0) > 1;
    assert d[i] == d[..n][i];
  }

  /** What one more entry adds to the prefix predicates. */
  lemma PrefixStep(t: Table, d: Dict, i: nat)
    requires i < |d|
    ensures Raises(t, d[..i + 1]) <==> Raises(t, d[..i]) || CountNamed(t.cols, d[i].0) > 1
    ensures AnySource(t, d[..i + 1]) <==> AnySource(t, d[..i]) || HasColumn(t, d[i].0)
    ensures LastSourceFor(d[..i + 1], d[i].1) == Some(d[i].0)
    ensures forall h :: h != d[i].1 ==> LastSourceFor(d[..i + 1], h) == LastSourceFor(d[..i], h)
    ensures forall h :: h in Values(d[..i + 1]) <==> h in Values(d[..i]) || h == d[i].1
  {
    var p, q := d[..i], d[..i + 1];
    assert q[..i] == p && q[i] == d[i];
    assert forall k :: 0 <= k < i ==> q[k] == p[k];
    assert Values(q) == Values(p) + [d[i].1];
  }

  lemma SetColumnSpec(cols: seq<Column>, c: Column)
    requires NoDuplicates(Names(cols))
    ensures NoDuplicates(Names(SetColumn(cols, c)))
    ensures forall h :: h in Names(SetColumn(cols, c)) <==> h in Names(cols) || h == c.name
    ensures forall j :: 0 <= j < |SetColumn(cols, c)| ==>
      SetColumn(cols, c)[j] == c || (j < |cols| && SetColumn(cols, c)[j] == cols[j] && cols[j].name != c.name)
  {
    var r := SetColumn(cols, c);
    if c.name in Names(cols) {
      var p := IndexOf(Names(cols), c.name);
      assert Names(r) == Names(cols)[p := c.name] == Names(cols);
      forall j | 0 <= j < |r| && j != p ensures r[j] == cols[j] && cols[j].name != c.name {
        assert Names(cols)[j] != Names(cols)[p];
      }
    } else {
      assert Names(r) == Names(cols) + [c.name];
    }
  }

  /** Before any source column is stored, every column holds missing values,
      so giving the frame a new index keeps the picture. */
  lemma ReindexBuilt(t: Table, d: Dict, cols: seq<Column>, n: nat)
    requires Built(t, d, cols, 0) && !AnySource(t, d)
    ensures Built(t, d, Reindexed(cols, n), n)
  {
    var r := Reindexed(cols, n);
    forall j | 0 <= j < |r| ensures r[j] == TargetColumn(t, d, r[j].name, n) {
      var h := cols[j].name;
      var s := LastSourceFor(d, h).value;
      LastSourceForSpec(d, h);
      var i :| 0 <= i < |d| && d[i] == (s, h) && forall k :: i < k < |d| ==> d[k].1 != h;
      assert !HasColumn(t, d[i].0);
    }
  }

  /** One step of the loop keeps the loop's picture of the frame. */
  lemma BuiltStep(t: Table, d: Dict, i: nat, cols: seq<Column>, n: nat, col: Column)
    requires i < |d|
    requires Built(t, d[..i], cols, n)
    requires col == TargetColumn(t, d[..i + 1], d[i].1, n)
    ensures Built(t, d[..i + 1], SetColumn(cols, col), n)
  {
    PrefixStep(t, d, i);
    SetColumnSpec(cols, col);
    var q := d[..i + 1];
    var r := SetColumn(cols, col);
    forall j | 0 <= j < |r| ensures r[j].name in Values(q) && r[j] == TargetColumn(t, q, r[j].name, n) {
      if r[j] != col {
        assert r[j] == cols[j] && cols[j].name != d[i].1;
        assert LastSourceFor(q, cols[j].name) == LastSourceFor(d[..i], cols[j].name);
      }
    }
  }

  lemma {:induction false} ProjectBuilt(t: Table, d: Dict, headers: seq<string>, cols: seq<Column>, n: nat)
    requires Built(t, d, cols, n)
    ensures forall k :: 0 <= k < |KeptHeaders(headers, Names(cols))| ==> KeptHeaders(headers, Names(cols))[k] in Names(cols)
    ensures SelectNamed(cols, KeptHeaders(headers, Names(cols))) == Project(t, d, headers, n)
  {
    if headers != [] {
      var h := headers[|headers| - 1];
      var front := headers[..|headers| - 1];
      ProjectBuilt(t, d, front, cols, n);
      var kept := KeptHeaders(front, Names(cols));
      if h in Names(cols) {
        var k := IndexOf(Names(cols), h);
        assert cols[k].name == h;
        assert h in Values(d);
        assert Named(cols, h) == TargetColumn(t, d, h, n);
        assert KeptHeaders(headers, Names(cols)) == kept + [h];
        assert (kept + [h])[..|kept|] == kept;
        assert SelectNamed(cols, kept + [h]) == SelectNamed(cols, kept) + [Named(cols, h)];
      } else {
        assert h !in Values(d);
        assert KeptHeaders(headers, Names(cols)) == kept;
      }
    }
  }

  // ------------------------------------------------- what the result holds

  /** The projection holds the listed headers that are targets of the dict,
      in list order, repetitions kept. */
  lemma {:induction false} ProjectNames(t: Table, d: Dict, headers: seq<string>, n: nat)
    ensures Names(Project(t, d, headers, n)) == KeptHeaders(headers, Values(d))
  {
    if headers != [] {
      var front := headers[..|headers| - 1];
      ProjectNames(t, d, front, n);
      var h := headers[|headers| - 1];
      var p := Project(t, d, front, n);
      if h in Values(d) {
        assert Names(p + [TargetColumn(t, d, h, n)]) == Names(p) + [h];
      }
    }
  }

  /** Every projected column is the target column of its own name. */
  lemma {:induction false} ProjectColumns(t: Table, d: Dict, headers: seq<string>, n: nat)
    ensures forall j :: 0 <= j < |Project(t, d, headers, n)| ==>
      Project(t, d, headers, n)[j].name in Values(d) &&
      Project(t, d, headers, n)[j] == TargetColumn(t, d, Project(t, d, headers, n)[j].name, n)
  {
    if headers != [] {
      ProjectColumns(t, d, headers[..|headers| - 1], n);
    }
  }

  /** The target column under `h` has `n` cells whenever its source, if
      present, has `n`. */
  lemma TargetColumnLength(t: Table, d: Dict, h: string)
    requires WellFormed(t) && h in Values(d)
    ensures |TargetColumn(t, d, h, OutRows(t, d)).cells| == OutRows(t, d)
  {
    var s := LastSourceFor(d, h).value;
    if HasColumn(t, s) {
      LastSourceForSpec(d, h);
      var i :| 0 <= i < |d| && d[i] == (s, h) && forall j :: i < j < |d| ==> d[j].1 != h;
      assert HasColumn(t, d[i].0);
      assert AnySource(t, d);
    }
  }

  /** The converted frame of a well-formed frame is well formed: every kept
      column has one cell per row. */
  lemma ConvertedWellFormed(t: Table, d: Dict, headers: seq<string>)
    requires WellFormed(t)
    ensures WellFormed(Converted(t, d, headers))
  {
    if !Raises(t, d) {
      var n := OutRows(t, d);
      var p := Project(t, d, headers, n);
      ProjectColumns(t, d, headers, n);
      forall j | 0 <= j < |p| ensures |p[j].cells| == n {
        TargetColumnLength(t, d, p[j].name);
      }
    }
  }

  /** The columns of the converted frame are the header-list entries that
      are targets of the dict, in header order: a header no entry maps to
      never appears, and a target missing from the header list is dropped. */
  lemma ConvertedNames(t: Table, d: Dict, headers: seq<string>)
    requires !Raises(t, d)
    ensures Names(Converted(t, d, headers).cols) == KeptHeaders(headers, Values(d))
    ensures forall h :: h in Names(Converted(t, d, headers).cols) <==> h in headers && h in Values(d)
  {
    ProjectNames(t, d, headers, OutRows(t, d));
    KeptHeadersMembers(headers, Values(d));
  }

  /** A header is kept exactly when it is listed and a target. */
  lemma {:induction false} KeptHeadersMembers(headers: seq<string>, targets: seq<string>)
    ensures forall h :: h in KeptHeaders(headers, targets) <==> h in headers && h in targets
  {
    if headers != [] {
      var front := headers[..|headers| - 1];
      KeptHeadersMembers(front, targets);
      assert headers == front + [headers[|headers| - 1]];
    }
  }

  /** Each column of the converted frame holds the cells of the source
      column named by the last dict entry for its name, and has that
      column's dtype; if the input lacks that source column, it holds
      missing values only. */
  lemma ConvertedColumn(t: Table, d: Dict, headers: seq<string>, j: nat)
    requires !Raises(t, d) && j < |Converted(t, d, headers).cols|
    ensures var c := Converted(t, d, headers).cols[j];
      && c.name in Values(d)
      && (exists i :: 0 <= i < |d| && d[i] == (LastSourceFor(d, c.name).value, c.name) &&
            forall k :: i < k < |d| ==> d[k].1 != c.name)
      && (HasColumn(t, LastSourceFor(d, c.name).value) ==>
            exists k :: 0 <= k < |t.cols| && t.cols[k].name == LastSourceFor(d, c.name).value &&
              c.cells == t.cols[k].cells && c.numeric == t.cols[k].numeric)
      && (!HasColumn(t, LastSourceFor(d, c.name).value) ==>
            c.cells == Empties(Converted(t, d, headers).rows) && !c.numeric)
  {
    var n := OutRows(t, d);
    ProjectColumns(t, d, headers, n);
    var c := Converted(t, d, headers).cols[j];
    LastSourceForSpec(d, c.name);
  }

  /** A source column that the input holds twice makes the conversion fail,
      and the result is an empty frame. */
  lemma DuplicateSourceFails(t: Table, d: Dict, headers: seq<string>, i: nat)
    requires i < |d| && CountNamed(t.cols, d[i].0) > 1
    ensures Converted(t, d, headers) == Table(0, [])
  {
    assert Raises(t, d);
  }

  /** An input holding "Clicks" twice converts to the empty frame. */
  lemma DuplicateClicksExample()
    ensures var col := Column("Clicks", [Num(1)], true);
      Converted(Table(1, [col, col]), [("Clicks", "클릭수")], ["클릭수"]) == Table(0, [])
  {
    var col := Column("Clicks", [Num(1)], true);
    var t := Table(1, [col, col]);
    assert [col, col][..1] == [col];
    assert [col, col][..1][..0] == [];
    assert CountNamed([], "Clicks") == 0;
    assert CountNamed([col], "Clicks") == 1;
    assert CountNamed(t.cols, "Clicks") == 2;
    DuplicateSourceFails(t, [("Clicks", "클릭수")], ["클릭수"], 0);
  }
}
