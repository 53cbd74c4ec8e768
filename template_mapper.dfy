/** `load_pca_template`, after the spreadsheet read: turning the template's
    source-label row and target-label row into the rename dict
    (`mapping_dict`) and the ordered target header list (`pca_headers`). */
module TemplateMapper {
  import opened Wrappers
  import opened Seqs
  import opened Text
  import opened Dicts

  /** A template cell: `None` for an empty (NaN) cell, otherwise its text as
      `str(cell)` gives it. */
  type Label = Option<string>

  /** Source labels that mark a template column as not mapped: "blank",
      "select this item by hand", the row's own heading "integrated report
      item", and the text "nan". */
  const Placeholders: seq<string> := ["공란", "해당 항목 수기 선택", "통합리포트 항목", "nan"]

  function Min(a: nat, b: nat): nat {
    if a <= b then a else b
  }

  /** Python's `zip`: pairs by position, as long as the shorter row. */
  function Zip(from: seq<Label>, to: seq<Label>): (r: seq<(Label, Label)>)
    ensures |r| == Min(|from|, |to|)
    ensures forall i :: 0 <= i < |r| ==> r[i] == (from[i], to[i])
  {
    seq(Min(|from|, |to|), i requires 0 <= i < Min(|from|, |to|) => (from[i], to[i]))
  }

  /** The dict entry one template column contributes: both labels present and
      the trimmed source label not a placeholder. An empty trimmed label is
      not excluded. */
  function EntryOf(p: (Label, Label)): Option<(string, string)> {
    if p.0.Some? && p.1.Some? && Strip(p.0.value) !in Placeholders then
      Some((Strip(p.0.value), Strip(p.1.value)))
    else None
  }

  /** The entries the template columns contribute, column by column. */
  function Entries(pairs: seq<(Label, Label)>): (es: seq<Option<(string, string)>>)
    ensures |es| == |pairs| && forall i :: 0 <= i < |pairs| ==> es[i] == EntryOf(pairs[i])
  {
    seq(|pairs|, i requires 0 <= i < |pairs| => EntryOf(pairs[i]))
  }

  /** Entry `i` is for source label `k`. */
  predicate KeyAt(es: seq<Option<(string, string)>>, i: nat, k: string)
    requires i < |es|
  {
    es[i].Some? && es[i].value.0 == k
  }

  /** The dict built by storing each entry in turn. */
  function Build(es: seq<Option<(string, string)>>): Dict {
    if es == [] then []
    else
      var d := Build(es[..|es| - 1]);
      match es[|es| - 1]
      case None => d
      case Some(e) => Put(d, e.0, e.1)
  }

  /** `mapping_dict` for the given template columns. */
  function Mapping(pairs: seq<(Label, Label)>): Dict {
    Build(Entries(pairs))
  }

  /** `pca_headers`: every present target label, trimmed, unless it is empty
      after trimming; in column order, repetitions kept. */
  function Headers(to: seq<Label>): seq<string> {
    if to == [] then []
    else
      var c := to[|to| - 1];
      Headers(to[..|to| - 1]) + (if c.Some? && Strip(c.value) != "" then [Strip(c.value)] else [])
  }

  /** The template sheet read with `header=None` is a sequence of rows; `None`
      when the read itself fails. Row 1 holds the source labels, row 2 the
      target labels. Any failure (no sheet, fewer than three rows) gives an
      empty dict and an empty header list. */
  method LoadPcaTemplate(sheet: Option<seq<seq<Label>>>) returns (mapping: Dict, headers: seq<string>)
    ensures sheet.None? || |sheet.value| < 3 ==> mapping == [] && headers == []
    ensures sheet.Some? && |sheet.value| >= 3 ==>
      mapping == Mapping(Zip(sheet.value[1], sheet.value[2])) && headers == Headers(sheet.value[2])
  {
    if sheet.None? || |sheet.value| < 3 {
      return [], [];
    }
    var from, to := sheet.value[1], sheet.value[2];
    var pairs := Zip(from, to);
    ghost var es := Entries(pairs);
    mapping := [];
    var i := 0;
    while i < |pairs|
      invariant 0 <= i <= |pairs|
      invariant mapping == Build(es[..i])
    {
      assert es[..i + 1][..i] == es[..i];
      var (fromCol, toCol) := pairs[i];
      if fromCol.Some? && toCol.Some? {
        var fromKey := Strip(fromCol.value);
        var toKey := Strip(toCol.value);
        if fromKey !in Placeholders {
          mapping := Put(mapping, fromKey, toKey);
        }
      }
      i := i + 1;
    }
    assert es[..i] == es;
    headers := Headers(to);
  }

  // ------------------------------------------------------------- the dict

  /** The dict's keys are exactly the source labels of the entries, each
      once. */
  lemma {:induction false} BuildKeys(es: seq<Option<(string, string)>>, k: string)
    ensures UniqueKeys(Build(es))
    ensures k in Keys(Build(es)) <==> exists i :: 0 <= i < |es| && KeyAt(es, i, k)
  {
    if es != [] {
      var p := es[..|es| - 1];
      BuildKeys(p, k);
      assert forall i :: 0 <= i < |p| ==> (KeyAt(p, i, k) <==> KeyAt(es, i, k));
      var e := es[|es| - 1];
      if e.Some? {
        PutSpec(Build(p), e.value.0, e.value.1);
      }
      if i :| 0 <= i < |es| && KeyAt(es, i, k) {
        if i < |p| {
          assert KeyAt(p, i, k);
        }
      }
      if k in Keys(Build(es)) {
        if k in Keys(Build(p)) {
          var i :| 0 <= i < |p| && KeyAt(p, i, k);
          assert KeyAt(es, i, k);
        } else {
          assert KeyAt(es, |es| - 1, k);
        }
      }
    }
  }

  /** A source label with several entries keeps the target of the last. */
  lemma {:induction false} BuildLastWins(es: seq<Option<(string, string)>>, i: nat, k: string)
    requires i < |es| && KeyAt(es, i, k)
    requires forall j :: i < j < |es| ==> !KeyAt(es, j, k)
    ensures Get(Build(es), k) == Some(es[i].value.1)
  {
    var p := es[..|es| - 1];
    var e := es[|es| - 1];
    if i == |es| - 1 {
      PutSpec(Build(p), e.value.0, e.value.1);
    } else {
      assert KeyAt(p, i, k);
      assert forall j :: i < j < |p| ==> (KeyAt(p, j, k) <==> KeyAt(es, j, k));
      BuildLastWins(p, i, k);
      assert !KeyAt(es, |es| - 1, k);
      if e.Some? {
        PutSpec(Build(p), e.value.0, e.value.1);
      }
    }
  }

  /** The keys of `mapping_dict` are the trimmed source labels of the
      contributing columns, each once. */
  lemma MappingKeys(pairs: seq<(Label, Label)>, k: string)
    ensures UniqueKeys(Mapping(pairs))
    ensures k in Keys(Mapping(pairs)) <==>
      exists i :: 0 <= i < |pairs| && EntryOf(pairs[i]).Some? && EntryOf(pairs[i]).value.0 == k
  {
    var es := Entries(pairs);
    BuildKeys(es, k);
    assert forall i :: 0 <= i < |pairs| ==>
      (KeyAt(es, i, k) <==> EntryOf(pairs[i]).Some? && EntryOf(pairs[i]).value.0 == k);
  }

  /** A source label repeated across columns keeps the trimmed target label of
      the last of them. */
  lemma MappingLastWins(pairs: seq<(Label, Label)>, i: nat, k: string)
    requires i < |pairs| && EntryOf(pairs[i]).Some? && EntryOf(pairs[i]).value.0 == k
    requires forall j :: i < j < |pairs| ==> EntryOf(pairs[j]).None? || EntryOf(pairs[j]).value.0 != k
    ensures Get(Mapping(pairs), k) == Some(EntryOf(pairs[i]).value.1)
  {
    var es := Entries(pairs);
    assert forall j :: i <= j < |pairs| ==>
      (KeyAt(es, j, k) <==> EntryOf(pairs[j]).Some? && EntryOf(pairs[j]).value.0 == k);
    BuildLastWins(es, i, k);
  }

  /** No placeholder label is ever a key of the dict. */
  lemma PlaceholdersExcluded(pairs: seq<(Label, Label)>, k: string)
    requires k in Placeholders
    ensures k !in Keys(Mapping(pairs))
  {
    MappingKeys(pairs, k);
  }

  /** Storing no entry leaves the dict as it was: a column that contributes
      no entry can be taken out of the template without changing the
      dict. */
  lemma {:induction false} BuildSkipsNone(a: seq<Option<(string, string)>>, b: seq<Option<(string, string)>>)
    ensures Build(a + [None] + b) == Build(a + b)
    decreases |b|
  {
    if b == [] {
      assert (a + [None] + b)[..|a|] == a;
      assert a + b == a;
    } else {
      var b' := b[..|b| - 1];
      BuildSkipsNone(a, b');
      assert (a + [None] + b)[..|a + [None] + b| - 1] == a + [None] + b';
      assert (a + b)[..|a + b| - 1] == a + b';
    }
  }

  /** A column whose source label is the blank marker "공란" contributes
      nothing: the dict is the one built without that column. */
  lemma BlankMarkerIgnored(pairs: seq<(Label, Label)>, i: nat)
    requires i < |pairs| && pairs[i].0.Some? && Strip(pairs[i].0.value) == Placeholders[0]
    ensures Mapping(pairs) == Mapping(pairs[..i] + pairs[i + 1..])
  {
    var es := Entries(pairs);
    assert es[i] == None;
    assert es == es[..i] + [None] + es[i + 1..];
    assert Entries(pairs[..i] + pairs[i + 1..]) == es[..i] + es[i + 1..];
    BuildSkipsNone(es[..i], es[i + 1..]);
  }

  /** The pair ("공란", "X") contributes nothing. */
  lemma BlankMarkerExample()
    ensures Mapping(Zip([Some("공란")], [Some("X")])) == []
  {
    var pairs := Zip([Some("공란")], [Some("X")]);
    assert Strip("공란") == "공란";
    BlankMarkerIgnored(pairs, 0);
    assert pairs[..0] + pairs[1..] == [];
  }

  /** A present source label that is empty after trimming still becomes a
      key, the empty string: only NaN labels are skipped. */
  lemma BlankLabelKept(pairs: seq<(Label, Label)>, i: nat)
    requires i < |pairs| && pairs[i].0.Some? && pairs[i].1.Some? && Strip(pairs[i].0.value) == ""
    ensures "" in Keys(Mapping(pairs))
  {
    MappingKeys(pairs, "");
  }

  /** The pair (" ", " Y ") gives the entry ("", "Y"). */
  lemma BlankLabelExample()
    ensures Mapping(Zip([Some(" ")], [Some(" Y ")])) == [("", "Y")]
  {
    var pairs := Zip([Some(" ")], [Some(" Y ")]);
    assert Strip(" ") == "";
    assert TrimLeft(" Y ") == "Y ";
    assert Strip(" Y ") == "Y";
    assert pairs[..0] == [];
  }

  // ---------------------------------------------------------- the headers

  /** The header list of two template parts is the two lists joined: order
      and repetitions are kept. */
  lemma {:induction false} HeadersAppend(a: seq<Label>, b: seq<Label>)
    ensures Headers(a + b) == Headers(a) + Headers(b)
    decreases |b|
  {
    if b == [] {
      assert a + b == a;
    } else {
      var b' := b[..|b| - 1];
      HeadersAppend(a, b');
      assert (a + b)[..|a + b| - 1] == a + b';
    }
  }

  /** A label is a header exactly when some target cell trims to it and it is
      not empty. */
  lemma {:induction false} HeadersMembers(to: seq<Label>, h: string)
    ensures h in Headers(to) <==>
      h != "" && exists i :: 0 <= i < |to| && to[i].Some? && Strip(to[i].value) == h
  {
    if to != [] {
      var p := to[..|to| - 1];
      HeadersMembers(p, h);
      assert forall i :: 0 <= i < |p| ==> p[i] == to[i];
      if i :| 0 <= i < |to| && to[i].Some? && Strip(to[i].value) == h {
        if i < |p| {
          assert p[i].Some? && Strip(p[i].value) == h;
        }
      }
    }
  }

  /** Headers are non-empty, and neither end of one is whitespace. */
  lemma {:induction false} HeadersTrimmed(to: seq<Label>)
    ensures forall h :: h in Headers(to) ==> h != "" && !IsSpace(h[0]) && !IsSpace(h[|h| - 1])
  {
    if to != [] {
      HeadersTrimmed(to[..|to| - 1]);
      var c := to[|to| - 1];
      if c.Some? {
        StripSpec(c.value);
      }
    }
  }

  /** Blank and empty cells are skipped and a repeated target label stays
      repeated. */
  lemma HeadersExample()
    ensures Headers([Some("A"), None, Some(" A "), Some(" ")]) == ["A", "A"]
  {
    var to := [Some("A"), None, Some(" A "), Some(" ")];
    assert Strip("A") == "A";
    assert TrimLeft(" A ") == "A ";
    assert Strip(" A ") == "A";
    assert Strip(" ") == "";
    assert to[..3] == [Some("A"), None, Some(" A ")];
    assert to[..3][..2] == [Some("A"), None];
    assert to[..3][..2][..1] == [Some("A")];
    assert Headers([Some("A")]) == ["A"];
    assert Headers([Some("A"), None]) == ["A"];
    assert Headers([Some("A"), None, Some(" A ")]) == ["A", "A"];
  }
}
