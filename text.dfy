/** The string operations the application applies to file names, column
    names and template labels: `str.upper`, `in` (substring test),
    `str.strip`, and the integer renderings `f"{x:,.0f}"` and
    `f"{x*100:.3f}%"`. */
module Text {

  // ---------------------------------------------------------------- upper

  function UpperChar(c: char): char {
    if 'a' <= c <= 'z' then (c as int - 32) as char else c
  }

  /** `str.upper()` on the ASCII letters. */
  function Upper(s: string): string {
    seq(|s|, i requires 0 <= i < |s| => UpperChar(s[i]))
  }

  /** Upper-casing is idempotent: an upper-cased name contains no lower-case
      ASCII letter, so upper-casing it again changes nothing. */
  lemma UpperIdempotent(s: string)
    ensures Upper(Upper(s)) == Upper(s)
    ensures forall i :: 0 <= i < |s| ==> !('a' <= Upper(s)[i] <= 'z')
  {
    assert forall i :: 0 <= i < |s| ==> UpperChar(UpperChar(s[i])) == UpperChar(s[i]);
  }

  // ------------------------------------------------------------ substring

  predicate StartsWith(s: string, p: string) {
    |p| <= |s| && s[..|p|] == p
  }

  /** Python's `t in s` for strings. */
  predicate Contains(s: string, t: string)
    decreases |s|
  {
    StartsWith(s, t) || (|s| > 0 && Contains(s[1..], t))
  }

  predicate OccursAt(s: string, t: string, i: int) {
    0 <= i && i + |t| <= |s| && s[i..i + |t|] == t
  }

  /** `Contains` is exactly "t occurs in s at some position". */
  lemma {:induction false} ContainsIff(s: string, t: string)
    ensures Contains(s, t) <==> exists i :: OccursAt(s, t, i)
    decreases |s|
  {
    if StartsWith(s, t) {
      assert OccursAt(s, t, 0);
    }
    if |s| > 0 {
      ContainsIff(s[1..], t);
      if Contains(s[1..], t) {
        var i :| OccursAt(s[1..], t, i);
        assert s[1..][i..i + |t|] == s[i + 1..i + 1 + |t|];
        assert OccursAt(s, t, i + 1);
      }
      if i :| OccursAt(s, t, i) {
        if i > 0 {
          assert s[1..][i - 1..i - 1 + |t|] == s[i..i + |t|];
          assert OccursAt(s[1..], t, i - 1);
        } else {
          assert StartsWith(s, t);
        }
      }
    } else {
      if i :| OccursAt(s, t, i) {
        assert i == 0 && |t| == 0 && StartsWith(s, t);
      }
    }
  }

  /** A witness position is enough to show containment. */
  lemma ContainsAt(s: string, t: string, i: nat)
    requires OccursAt(s, t, i)
    ensures Contains(s, t)
  {
    ContainsIff(s, t);
  }

  /** A name in which neither case of a letter occurs has no upper-case form
      of it either. */
  lemma UpperLacks(s: string, c: char)
    requires 'A' <= c <= 'Z' && c !in s && (c as int + 32) as char !in s
    ensures c !in Upper(s)
  {
    forall i | 0 <= i < |s| ensures Upper(s)[i] != c {
      assert s[i] != c && s[i] != (c as int + 32) as char;
    }
  }

  /** A text holding a character that `s` lacks does not occur in `s`. */
  lemma {:induction false} AbsentChar(s: string, t: string, c: char)
    requires c in t && c !in s
    ensures !Contains(s, t)
    decreases |s|
  {
    if |t| <= |s| {
      assert forall i :: 0 <= i < |t| ==> s[..|t|][i] == s[i];
      assert c !in s[..|t|];
    }
    if |s| > 0 {
      AbsentChar(s[1..], t, c);
    }
  }

  // ---------------------------------------------------------------- strip

  /** The characters `str.isspace()` accepts, by code point. */
  predicate IsSpace(c: char) {
    var n := c as int;
    (9 <= n <= 13) || (28 <= n <= 32) || n == 133 || n == 160 || n == 5760 ||
    (8192 <= n <= 8202) || n == 8232 || n == 8233 || n == 8239 || n == 8287 || n == 12288
  }

  function TrimLeft(s: string): string {
    if s != [] && IsSpace(s[0]) then TrimLeft(s[1..]) else s
  }

  function TrimRight(s: string): string {
    if s != [] && IsSpace(s[|s| - 1]) then TrimRight(s[..|s| - 1]) else s
  }

  /** `str.strip()`. */
  function Strip(s: string): string {
    TrimRight(TrimLeft(s))
  }

  /** The number of whitespace characters `str.strip()` removes on the left. */
  function LeadingSpaces(s: string): nat {
    if s != [] && IsSpace(s[0]) then 1 + LeadingSpaces(s[1..]) else 0
  }

  lemma {:induction false} TrimLeftSpec(s: string)
    ensures LeadingSpaces(s) <= |s| && TrimLeft(s) == s[LeadingSpaces(s)..]
    ensures TrimLeft(s) == [] || !IsSpace(TrimLeft(s)[0])
    ensures forall i :: 0 <= i < LeadingSpaces(s) ==> IsSpace(s[i])
  {
    if s != [] && IsSpace(s[0]) {
      TrimLeftSpec(s[1..]);
      assert forall i :: 1 <= i < LeadingSpaces(s) ==> s[i] == s[1..][i - 1];
    }
  }

  lemma {:induction false} TrimRightSpec(s: string)
    ensures |TrimRight(s)| <= |s| && TrimRight(s) == s[..|TrimRight(s)|]
    ensures TrimRight(s) == [] || !IsSpace(TrimRight(s)[|TrimRight(s)| - 1])
    ensures forall i :: |TrimRight(s)| <= i < |s| ==> IsSpace(s[i])
  {
    if s != [] && IsSpace(s[|s| - 1]) {
      TrimRightSpec(s[..|s| - 1]);
      assert forall i :: |TrimRight(s)| <= i < |s| - 1 ==> s[i] == s[..|s| - 1][i];
    }
  }

  /** `str.strip()` keeps the slice of `s` between its leading and trailing
      whitespace: what it removes is whitespace and neither end of what it
      keeps is. */
  lemma StripSpec(s: string)
    ensures var r := Strip(s); var a := LeadingSpaces(s);
      a + |r| <= |s| && r == s[a..a + |r|] &&
      (r == [] || (!IsSpace(r[0]) && !IsSpace(r[|r| - 1]))) &&
      (forall i :: 0 <= i < a ==> IsSpace(s[i])) &&
      (forall i :: a + |r| <= i < |s| ==> IsSpace(s[i]))
  {
    var l := TrimLeft(s);
    TrimLeftSpec(s);
    TrimRightSpec(l);
    var r := TrimRight(l);
    var a := LeadingSpaces(s);
    assert r == s[a..a + |r|];
    assert forall i :: a + |r| <= i < |s| ==> s[i] == l[i - a];
    if r != [] {
      assert r[0] == l[0];
    }
  }

  // ------------------------------------------------------ integer rendering

  predicate IsDigit(c: char) {
    '0' <= c <= '9'
  }

  function DigitChar(d: nat): (c: char)
    requires d < 10
    ensures IsDigit(c) && c as int - '0' as int == d
  {
    ('0' as int + d) as char
  }

  /** The decimal digits of `n`, most significant first, without leading
      zeros. */
  function NatText(n: nat): (r: string)
    ensures |r| >= 1 && forall i :: 0 <= i < |r| ==> IsDigit(r[i])
    ensures |r| > 1 ==> r[0] != '0'
  {
    if n < 10 then [DigitChar(n)] else NatText(n / 10) + [DigitChar(n % 10)]
  }

  /** The value of a string of decimal digits (the inverse of NatText). */
  function DigitsValue(s: string): nat
    requires forall i :: 0 <= i < |s| ==> IsDigit(s[i])
  {
    if s == [] then 0
    else
      var c := s[|s| - 1];
      assert IsDigit(c);
      10 * DigitsValue(s[..|s| - 1]) + (c as int - '0' as int)
  }

  lemma {:induction false} DigitsValueOfNatText(n: nat)
    ensures DigitsValue(NatText(n)) == n
  {
    if n >= 10 {
      DigitsValueOfNatText(n / 10);
      var r := NatText(n);
      assert r[..|r| - 1] == NatText(n / 10);
    }
  }

  /** `str(n)` for an integer. */
  function IntText(n: int): string {
    if n < 0 then "-" + NatText(-n) else NatText(n)
  }

  /** Inserts a comma before every group of three digits counted from the
      right. */
  function Group(s: string): (r: string)
    ensures |s| <= |r|
    decreases |s|
  {
    if |s| <= 3 then s else Group(s[..|s| - 3]) + "," + s[|s| - 3..]
  }

  /** Removes every comma. */
  function Ungroup(s: string): string {
    if s == [] then []
    else Ungroup(s[..|s| - 1]) + (if s[|s| - 1] == ',' then [] else [s[|s| - 1]])
  }

  lemma {:induction false} UngroupAppend(s: string, t: string)
    ensures Ungroup(s + t) == Ungroup(s) + Ungroup(t)
    decreases |t|
  {
    if t == [] {
      assert s + t == s;
    } else {
      UngroupAppend(s, t[..|t| - 1]);
      assert (s + t)[..|s + t| - 1] == s + t[..|t| - 1];
    }
  }

  lemma {:induction false} UngroupDigits(s: string)
    requires forall i :: 0 <= i < |s| ==> s[i] != ','
    ensures Ungroup(s) == s
  {
    if s != [] {
      UngroupDigits(s[..|s| - 1]);
    }
  }

  /** Grouping only inserts commas: taking them out gives the digits back. */
  lemma {:induction false} UngroupGroup(s: string)
    requires forall i :: 0 <= i < |s| ==> s[i] != ','
    ensures Ungroup(Group(s)) == s
    decreases |s|
  {
    if |s| <= 3 {
      UngroupDigits(s);
    } else {
      var h, t := s[..|s| - 3], s[|s| - 3..];
      var g := Group(h);
      UngroupGroup(h);
      UngroupAppend(g + ",", t);
      UngroupAppend(g, ",");
      UngroupDigits(t);
      assert Ungroup(",") == [];
      assert Group(s) == g + "," + t;
      assert Ungroup(g + ",") == h;
      assert Ungroup(Group(s)) == h + t;
      assert h + t == s;
    }
  }

  /** Every comma in `Group(s)` is followed by exactly three digits before the
      next comma or the end, and the first group has one to three digits. */
  predicate WellGrouped(r: string) {
    (|r| <= 3 && forall i :: 0 <= i < |r| ==> r[i] != ',') ||
    (|r| > 4 && r[|r| - 4] == ',' && WellGrouped(r[..|r| - 4]) &&
     forall i :: |r| - 3 <= i < |r| ==> r[i] != ',')
  }

  lemma {:induction false} GroupWellGrouped(s: string)
    requires 1 <= |s|
    requires forall i :: 0 <= i < |s| ==> s[i] != ','
    ensures WellGrouped(Group(s))
    decreases |s|
  {
    if |s| > 3 {
      var h := s[..|s| - 3];
      GroupWellGrouped(h);
      var g := Group(s);
      assert g == Group(h) + "," + s[|s| - 3..];
      assert g[..|g| - 4] == Group(h);
    }
  }

  /** `f"{n:,.0f}"` for an integer `n` with |n| <= MaxExactInt: a minus
      sign for negative numbers, then the digits of |n| grouped by
      thousands. */
  function Grouped(n: int): string {
    if n < 0 then "-" + Group(NatText(-n)) else Group(NatText(n))
  }

  /** The characters a thousands rendering may hold: digits, commas and a
      leading minus sign. */
  predicate GroupedChars(s: string) {
    forall i :: 0 <= i < |s| ==> IsDigit(s[i]) || s[i] == ',' || (i == 0 && s[i] == '-')
  }

  /** Reading a grouped number back: drop the sign, drop the commas, read the
      digits. */
  function ParseGrouped(s: string): int
    requires GroupedChars(s)
  {
    var neg := s != [] && s[0] == '-';
    var body := Ungroup(if neg then s[1..] else s);
    if forall i :: 0 <= i < |body| ==> IsDigit(body[i]) then
      var v: int := DigitsValue(body);
      if neg then -v else v
    else 0
  }

  lemma {:induction false} GroupCharacters(s: string)
    requires forall i :: 0 <= i < |s| ==> IsDigit(s[i])
    ensures forall i :: 0 <= i < |Group(s)| ==> IsDigit(Group(s)[i]) || Group(s)[i] == ','
    decreases |s|
  {
    if |s| > 3 {
      GroupCharacters(s[..|s| - 3]);
    }
  }

  /** 2^53: every integer of at most this magnitude is a double exactly.
      An `f` format converts an integer with `float()` first, so beyond this
      bound the program prints the nearest double instead. */
  const MaxExactInt: int := 9007199254740992

  /** The thousands rendering loses nothing: reading it back gives the
      number, for every integer a double holds exactly. */
  lemma GroupedRoundTrip(n: int)
    requires -MaxExactInt <= n <= MaxExactInt
    ensures GroupedChars(Grouped(n))
    ensures ParseGrouped(Grouped(n)) == n
  {
    var m: nat := if n < 0 then -n else n;
    var d := NatText(m);
    var g := Group(d);
    GroupCharacters(d);
    var r := Grouped(n);
    if n < 0 {
      assert r[1..] == g;
      forall i | 0 < i < |r| ensures IsDigit(r[i]) || r[i] == ',' {
        assert r[i] == g[i - 1];
      }
    } else {
      assert r == g;
    }
    assert GroupedChars(r);
    var neg := r != [] && r[0] == '-';
    assert neg <==> n < 0;
    var body := Ungroup(if neg then r[1..] else r);
    assert body == d by {
      UngroupGroup(d);
    }
    DigitsValueOfNatText(m);
  }

  /** The thousands rendering is well grouped: one to three leading digits,
      then groups of exactly three. */
  lemma GroupedShape(n: int)
    ensures var g := if n < 0 then Grouped(n)[1..] else Grouped(n);
      && |g| >= 1 && WellGrouped(g)
      && forall i :: 0 <= i < |g| ==> IsDigit(g[i]) || g[i] == ','
  {
    var m: nat := if n < 0 then -n else n;
    GroupWellGrouped(NatText(m));
    GroupCharacters(NatText(m));
    if n < 0 {
      assert Grouped(n)[1..] == Group(NatText(m));
    }
  }

  /** The example rendering 12345 -> "12,345". */
  lemma GroupedExample()
    ensures Grouped(12345) == "12,345"
  {
    assert NatText(1) == "1";
    assert NatText(12) == "12";
    assert NatText(123) == "123";
    assert NatText(1234) == "1234";
    assert NatText(12345) == "12345";
    assert Group("12") == "12";
  }

  /** `f"{n*100:.3f}%"` for an integer `n` with |n * 100| <= MaxExactInt:
      an integer times 100 has no fractional part, so three zero decimals
      follow. */
  function PercentText(n: int): string {
    IntText(n * 100) + ".000%"
  }
}
