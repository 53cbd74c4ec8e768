/** `format_dataframe`: the display copy of a frame, with percentages and
    thousands separators. Each column is handled by a rule chosen from its
    upper-cased name; a rule whose rendering raises leaves its column as it
    was. */
module Formatter {
  import opened Text
  import opened Frames

  /** Name fragments that mark a ratio column. */
  const PercentKeywords: seq<string> := ["CTR", "VTR", "RATE", "RATIO", "%"]

  datatype Rule = Skip | Percent | Thousands

  /** The rule for a column name: "YEAR" anywhere skips the column, then any
      percent keyword selects the percent rendering, and every other column
      gets thousands separators. */
  function RuleOf(name: string): Rule {
    var u := Upper(name);
    if Contains(u, "YEAR") then Skip
    else if HasPercentKeyword(u) then Percent
    else Thousands
  }

  /** `any(keyword in u for keyword in PercentKeywords)`. */
  predicate HasPercentKeyword(u: string) {
    exists i :: 0 <= i < |PercentKeywords| && Contains(u, PercentKeywords[i])
  }

  /** The percent lambda: a number is rendered times 100 with three decimals
      and a percent sign; missing values, texts and dates pass through. */
  function PercentCell(c: Cell): Cell {
    if c.Num? then Text(PercentText(c.n)) else c
  }

  /** The thousands lambda: a number is rendered with thousands separators
      and no decimals; a missing value passes through. */
  function ThousandsCell(c: Cell): Cell {
    if c.Num? then Text(Grouped(c.n)) else c
  }

  /** Every cell is a number or missing, so the thousands rendering applies
      to each without raising. */
  predicate Renderable(cells: seq<Cell>) {
    forall k :: 0 <= k < |cells| ==> cells[k].Num? || cells[k].Empty?
  }

  predicate HasNum(cells: seq<Cell>) {
    exists k :: 0 <= k < |cells| && cells[k].Num?
  }

  /** `Series.apply`. */
  function Apply(cells: seq<Cell>, f: Cell -> Cell): (r: seq<Cell>)
    ensures |r| == |cells| && forall k :: 0 <= k < |cells| ==> r[k] == f(cells[k])
  {
    seq(|cells|, k requires 0 <= k < |cells| => f(cells[k]))
  }

  /** The column after its rule ran. `unique` says that no other column has
      its name: selecting a repeated name gives a frame, on which both
      renderings leave the column alone (the thousands one raises; the
      percent one raises, or with no rows writes the column back
      unchanged). A column that received texts is no longer of a numeric
      dtype. */
  function FormatColumn(c: Column, unique: bool): Column {
    if !unique then c
    else match RuleOf(c.name)
      case Skip => c
      case Percent => Column(c.name, Apply(c.cells, PercentCell), c.numeric && !HasNum(c.cells))
      case Thousands =>
        if c.numeric && Renderable(c.cells) then Column(c.name, Apply(c.cells, ThousandsCell), !HasNum(c.cells))
        else c
  }

  /** The formatted copy of `t`. */
  function Formatted(t: Table): Table {
    Table(t.rows, seq(|t.cols|, j requires 0 <= j < |t.cols| =>
      FormatColumn(t.cols[j], CountNamed(t.cols, t.cols[j].name) == 1)))
  }

  /** The loop of `format_dataframe` over a copy of the frame: the columns
      are visited in order and each is overwritten by its rendering. */
  method FormatDataframe(t: Table) returns (r: Table)
    ensures r == Formatted(t)
  {
    var cols := t.cols;
    var j := 0;
    while j < |cols|
      invariant 0 <= j <= |cols| == |t.cols|
      invariant Names(cols) == Names(t.cols)
      invariant forall k :: 0 <= k < j ==> cols[k] == FormatColumn(t.cols[k], CountNamed(t.cols, t.cols[k].name) == 1)
      invariant forall k :: j <= k < |cols| ==> cols[k] == t.cols[k]
    {
      var col := cols[j];
      CountNamedNames(cols, t.cols, col.name);
      var upper := Upper(col.name);
      var next := col;
      if CountNamed(cols, col.name) != 1 {
        // a repeated name: the rendering raises or writes the column back
      } else if Contains(upper, "YEAR") {
        // skipped
      } else if HasPercentKeyword(upper) {
        next := Column(col.name, Apply(col.cells, PercentCell), col.numeric && !HasNum(col.cells));
      } else if col.numeric && Renderable(col.cells) {
        next := Column(col.name, Apply(col.cells, ThousandsCell), !HasNum(col.cells));
      }
      assert next == FormatColumn(t.cols[j], CountNamed(t.cols, t.cols[j].name) == 1);
      cols := cols[j := next];
      assert forall k :: 0 <= k < |cols| ==> Names(cols)[k] == Names(t.cols)[k];
      j := j + 1;
    }
    r := Table(t.rows, cols);
  }

  // ---------------------------------------------------------- properties

  /** The count of a name depends only on the column names. */
  lemma {:induction false} CountNamedNames(a: seq<Column>, b: seq<Column>, name: string)
    requires Names(a) == Names(b)
    ensures CountNamed(a, name) == CountNamed(b, name)
  {
    if a != [] {
      assert Names(a[..|a| - 1]) == Names(b[..|b| - 1]);
      CountNamedNames(a[..|a| - 1], b[..|b| - 1], name);
    }
  }

  /** Formatting keeps the shape: the same rows, the same column names in the
      same order, one cell per row. */
  lemma FormattedShape(t: Table)
    ensures Formatted(t).rows == t.rows
    ensures Names(Formatted(t).cols) == Names(t.cols)
    ensures WellFormed(t) ==> WellFormed(Formatted(t))
  {
  }

  /** A column whose upper-cased name contains "YEAR" is never changed. */
  lemma YearColumnUntouched(c: Column, unique: bool)
    requires Contains(Upper(c.name), "YEAR")
    ensures FormatColumn(c, unique) == c
  {
  }

  /** A column whose name is shared with another column is never changed. */
  lemma RepeatedNameUntouched(t: Table, j: nat)
    requires j < |t.cols| && CountNamed(t.cols, t.cols[j].name) > 1
    ensures Formatted(t).cols[j] == t.cols[j]
  {
  }

  /** In a percent column exactly the number cells change, each into a text;
      missing values, texts and dates pass through. */
  lemma PercentChangesOnlyNumbers(c: Column, k: nat)
    requires RuleOf(c.name) == Percent && k < |c.cells|
    ensures |FormatColumn(c, true).cells| == |c.cells|
    ensures FormatColumn(c, true).cells[k] != c.cells[k] <==> c.cells[k].Num?
    ensures c.cells[k].Num? ==> FormatColumn(c, true).cells[k].Text?
  {
  }

  /** In a numeric column under the thousands rule, a missing value stays
      missing and a number a double holds exactly becomes a grouped text that
      reads back as the number. */
  lemma ThousandsCells(c: Column, k: nat)
    requires RuleOf(c.name) == Thousands && c.numeric && Renderable(c.cells) && k < |c.cells|
    requires c.cells[k].Num? ==> -MaxExactInt <= c.cells[k].n <= MaxExactInt
    ensures var r := FormatColumn(c, true).cells[k];
      && (c.cells[k].Empty? ==> r == Empty)
      && (c.cells[k].Num? ==> r.Text? && GroupedChars(r.s) && ParseGrouped(r.s) == c.cells[k].n)
  {
    if c.cells[k].Num? {
      GroupedRoundTrip(c.cells[k].n);
    }
  }

  /** A column that is not of a numeric dtype is left alone by the thousands
      rule. */
  lemma NonNumericUntouched(c: Column, unique: bool)
    requires RuleOf(c.name) == Thousands && !c.numeric
    ensures FormatColumn(c, unique) == c
  {
  }

  /** Rendering a column twice is rendering it once: what the first pass
      produces holds no number left to render. */
  lemma FormatColumnIdempotent(c: Column, unique: bool)
    ensures FormatColumn(FormatColumn(c, unique), unique) == FormatColumn(c, unique)
  {
    var r := FormatColumn(c, unique);
    if unique && RuleOf(c.name) != Skip && r != c {
      assert !HasNum(r.cells);
      assert Apply(r.cells, PercentCell) == r.cells;
      assert !r.numeric;
    }
  }

  lemma FormattedIdempotent(t: Table)
    ensures Formatted(Formatted(t)) == Formatted(t)
  {
    var f := Formatted(t);
    FormattedShape(t);
    forall j | 0 <= j < |t.cols|
      ensures FormatColumn(f.cols[j], CountNamed(f.cols, f.cols[j].name) == 1) == f.cols[j]
    {
      CountNamedNames(f.cols, t.cols, t.cols[j].name);
      FormatColumnIdempotent(t.cols[j], CountNamed(t.cols, t.cols[j].name) == 1);
    }
  }

  // ------------------------------------------------------------ examples

  /** "Duration" contains "RATIO" once upper-cased, so a duration column is
      rendered as a percentage. */
  lemma DurationIsPercent()
    ensures RuleOf("Duration") == Percent
  {
    var u := Upper("Duration");
    assert u == "DURATION";
    assert u[2..7] == PercentKeywords[3];
    ContainsAt(u, PercentKeywords[3], 2);
    UpperLacks("Duration", 'Y');
    AbsentChar(u, "YEAR", 'Y');
  }

  lemma YearIsSkipped()
    ensures RuleOf("Year") == Skip
  {
    assert Upper("Year") == "YEAR";
    ContainsAt("YEAR", "YEAR", 0);
  }

  lemma CtrIsPercent()
    ensures RuleOf("CTR") == Percent
  {
    var u := Upper("CTR");
    assert u == PercentKeywords[0];
    ContainsAt(u, PercentKeywords[0], 0);
    AbsentChar(u, "YEAR", 'Y');
  }

  /** A name holding neither "YEAR" nor any percent keyword gets thousands
      separators. */
  lemma ImpressionsIsThousands()
    ensures RuleOf("Impressions") == Thousands
  {
    assert Upper("Impressions") == "IMPRESSIONS";
    NoRuleToken("IMPRESSIONS");
  }

  /** A name without the letters Y, C, V, A and without '%' holds no token. */
  lemma NoRuleToken(u: string)
    requires 'Y' !in u && 'C' !in u && 'V' !in u && 'A' !in u && '%' !in u
    ensures !Contains(u, "YEAR") && !HasPercentKeyword(u)
  {
    AbsentChar(u, "YEAR", 'Y');
    AbsentChar(u, PercentKeywords[0], 'C');
    AbsentChar(u, PercentKeywords[1], 'V');
    AbsentChar(u, PercentKeywords[2], 'A');
    AbsentChar(u, PercentKeywords[3], 'A');
    AbsentChar(u, PercentKeywords[4], '%');
  }
}
