/** The twelve expiry-string patterns, in priority order, and what it means
    for one of them to match a (trimmed) string. */
module Rules {
  import opened Wrappers
  import opened Chars

  datatype Separator = Dash | Slash | NoSep

  /** The month group of a pattern: `[A-Za-z]+` (a month name),
      `\d{1,2}` or `\d{2}` (a month number). */
  datatype MonthShape = Letters | OneOrTwoDigits | TwoDigits

  /** One pattern: the month group, the width of the year group (2 or 4
      digits), the separator, and whether the month comes first. Whether the
      month is a name or a number follows from the month group. */
  datatype Rule = Rule(month: MonthShape, yearLength: nat, sep: Separator, monthFirst: bool)
  {
    predicate IsText() {
      month == Letters
    }
  }

  /** The patterns in the order they are tried. */
  const Table: seq<Rule> := [
    Rule(Letters, 2, Dash, true),          // Aug-29, August-29
    Rule(Letters, 4, Dash, true),          // Aug-2029
    Rule(Letters, 2, Slash, true),         // Aug/29
    Rule(Letters, 4, Slash, true),         // Aug/2029
    Rule(OneOrTwoDigits, 2, Slash, true),  // 8/29, 08/29
    Rule(OneOrTwoDigits, 2, Dash, true),   // 8-29
    Rule(OneOrTwoDigits, 4, Slash, true),  // 8/2029
    Rule(OneOrTwoDigits, 4, Dash, true),   // 8-2029
    Rule(OneOrTwoDigits, 4, Slash, false), // 2029/8
    Rule(OneOrTwoDigits, 4, Dash, false),  // 2029-8
    Rule(TwoDigits, 2, NoSep, true),       // 0829
    Rule(TwoDigits, 4, NoSep, true)        // 082029
  ]

  function SepText(sep: Separator): string {
    match sep
    case Dash => "-"
    case Slash => "/"
    case NoSep => ""
  }

  predicate IsSepChar(c: char) {
    c == '-' || c == '/'
  }

  /** The month group matches `m`. */
  predicate MonthRunOk(shape: MonthShape, m: string) {
    match shape
    case Letters => |m| >= 1 && AllLetters(m)
    case OneOrTwoDigits => 1 <= |m| <= 2 && AllDigits(m)
    case TwoDigits => |m| == 2 && AllDigits(m)
  }

  /** The year group matches `y`. */
  predicate YearRunOk(r: Rule, y: string) {
    |y| == r.yearLength && AllDigits(y)
  }

  /** The two groups put back together in the rule's order with its
      separator. */
  function Layout(r: Rule, m: string, y: string): string {
    if r.monthFirst then m + SepText(r.sep) + y else y + SepText(r.sep) + m
  }

  /** The anchored pattern of `r` matches all of `s`, with month group `m`
      and year group `y`. */
  predicate Matches(r: Rule, s: string, m: string, y: string) {
    MonthRunOk(r.month, m) && YearRunOk(r, y) && s == Layout(r, m, y)
  }

  datatype Groups = Groups(monthText: string, yearText: string)

  /** Position of the first `c` in `s` at or after `i`, or `|s|` when there
      is none. */
  function IndexOf(s: string, c: char, i: nat): (k: nat)
    requires i <= |s|
    decreases |s| - i
    ensures i <= k <= |s|
    ensures forall j :: i <= j < k ==> s[j] != c
    ensures k < |s| ==> s[k] == c
  {
    if i == |s| || s[i] == c then i else IndexOf(s, c, i + 1)
  }

  /** `regex.match` for one pattern: split `s` into its two groups, or
      report that the pattern does not match. A separator splits at its
      first occurrence; without one the year is the fixed-width end (or
      start) of the string. */
  function Match(r: Rule, s: string): (g: Option<Groups>)
    ensures g.Some? ==> Matches(r, s, g.value.monthText, g.value.yearText)
  {
    if r.sep == NoSep then MatchFixed(r, s)
    else MatchAt(r, s, IndexOf(s, SepText(r.sep)[0], 0))
  }

  /** A pattern without separator: the year is the last (or first)
      `yearLength` characters, the month the rest. */
  function MatchFixed(r: Rule, s: string): (g: Option<Groups>)
    requires r.sep == NoSep
    ensures g.Some? ==> Matches(r, s, g.value.monthText, g.value.yearText)
  {
    var n := r.yearLength;
    if |s| < n then None
    else if r.monthFirst then
      assert s == s[..|s| - n] + s[|s| - n..];
      GroupsIfValid(r, s[..|s| - n], s[|s| - n..])
    else
      assert s == s[..n] + s[n..];
      GroupsIfValid(r, s[n..], s[..n])
  }

  /** A pattern with a separator, split at position `k` (`|s|` when the
      separator does not occur). */
  function MatchAt(r: Rule, s: string, k: nat): (g: Option<Groups>)
    requires r.sep != NoSep && k <= |s|
    requires k < |s| ==> s[k] == SepText(r.sep)[0]
    ensures g.Some? ==> Matches(r, s, g.value.monthText, g.value.yearText)
  {
    if k == |s| then None
    else
      assert s == s[..k] + SepText(r.sep) + s[k + 1..];
      if r.monthFirst then GroupsIfValid(r, s[..k], s[k + 1..])
      else GroupsIfValid(r, s[k + 1..], s[..k])
  }

  /** The groups, when each matches its part of the pattern. */
  function GroupsIfValid(r: Rule, m: string, y: string): (g: Option<Groups>)
    ensures g.Some? <==> MonthRunOk(r.month, m) && YearRunOk(r, y)
    ensures g.Some? ==> g.value == Groups(m, y)
  {
    if MonthRunOk(r.month, m) && YearRunOk(r, y) then Some(Groups(m, y)) else None
  }

  /** Neither group ever contains a separator character. */
  lemma GroupsHaveNoSeparator(r: Rule, m: string, y: string)
    requires MonthRunOk(r.month, m) && YearRunOk(r, y)
    ensures forall i :: 0 <= i < |m| ==> !IsSepChar(m[i])
    ensures forall i :: 0 <= i < |y| ==> !IsSepChar(y[i])
  {
  }

  /** The first occurrence of a character absent from `a` in `a + [c] + b`
      is right after `a`. */
  lemma IndexOfAfter(a: string, c: char, b: string)
    requires forall i :: 0 <= i < |a| ==> a[i] != c
    ensures IndexOf(a + [c] + b, c, 0) == |a|
  {
    var s := a + [c] + b;
    assert forall i :: 0 <= i < |a| ==> s[i] == a[i];
    assert s[|a|] == c;
  }

  /** Every match is the one `Match` finds: the regex split is unique. */
  lemma MatchComplete(r: Rule, s: string, m: string, y: string)
    requires Matches(r, s, m, y)
    ensures Match(r, s) == Some(Groups(m, y))
  {
    GroupsHaveNoSeparator(r, m, y);
    if r.sep != NoSep {
      var c := SepText(r.sep)[0];
      if r.monthFirst {
        assert s == m + [c] + y;
        IndexOfAfter(m, c, y);
        assert s[..|m|] == m && s[|m| + 1..] == y;
      } else {
        assert s == y + [c] + m;
        IndexOfAfter(y, c, m);
        assert s[..|y|] == y && s[|y| + 1..] == m;
      }
    } else if r.monthFirst {
      assert s == m + y;
      assert s[..|s| - r.yearLength] == m && s[|s| - r.yearLength..] == y;
    } else {
      assert s == y + m;
      assert s[..r.yearLength] == y && s[r.yearLength..] == m;
    }
  }

  /** In a layout of separator-free groups the only separator character
      is the pattern's separator, between the two groups. */
  lemma SepOnlyBetween(r: Rule, m: string, y: string, j: nat)
    requires MonthRunOk(r.month, m) && AllDigits(y)
    requires j < |Layout(r, m, y)| && IsSepChar(Layout(r, m, y)[j])
    ensures r.sep != NoSep && j == if r.monthFirst then |m| else |y|
  {
    var a := if r.monthFirst then m else y;
    var b := if r.monthFirst then y else m;
    var s := Layout(r, m, y);
    assert s == a + SepText(r.sep) + b;
  }

  /** The combinations the table uses: a name month or a no-separator rule
      always comes first; a year-first rule has a four-digit year and a one-
      or two-digit month; the two-digit month group only appears without a
      separator. */
  predicate WellFormed(r: Rule) {
    && (r.yearLength == 2 || r.yearLength == 4)
    && (r.sep == NoSep <==> r.month == TwoDigits)
    && (r.sep == NoSep ==> r.monthFirst)
    && (r.IsText() ==> r.monthFirst)
    && (!r.monthFirst ==> r.yearLength == 4)
  }

  /** The priority position a well-formed rule has in the table. */
  function Position(r: Rule): int {
    if r.sep == NoSep then (if r.yearLength == 2 then 10 else 11)
    else if r.IsText() then (if r.sep == Dash then 0 else 2) + (if r.yearLength == 2 then 0 else 1)
    else if r.monthFirst then 4 + (if r.yearLength == 2 then 0 else 2) + (if r.sep == Dash then 1 else 0)
    else if r.sep == Dash then 9 else 8
  }

  lemma TableWellFormed()
    ensures |Table| == 12
    ensures forall i :: 0 <= i < |Table| ==> WellFormed(Table[i]) && Position(Table[i]) == i
  {
  }

  /** Position of the first separator character in `s` at or after `i`,
      or `|s|`. */
  function SepIndex(s: string, i: nat): (k: nat)
    requires i <= |s|
    decreases |s| - i
    ensures i <= k <= |s|
    ensures forall j :: i <= j < k ==> !IsSepChar(s[j])
    ensures k < |s| ==> IsSepChar(s[k])
  {
    if i == |s| || IsSepChar(s[i]) then i else SepIndex(s, i + 1)
  }

  /** Which pattern the outline of `s` could fit, read off the first letter,
      the separator and the lengths on either side of it. */
  function ShapeOf(s: string): int {
    var k := SepIndex(s, 0);
    if k == |s| then (if |s| == 4 then 10 else 11)
    else
      var dash := s[k] == '-';
      var tail := |s| - k - 1;
      if k > 0 && IsLetter(s[0]) then (if dash then 0 else 2) + (if tail == 2 then 0 else 1)
      else if k <= 2 then 4 + (if tail == 2 then 0 else 2) + (if dash then 1 else 0)
      else if dash then 9 else 8
  }

  /** The first separator character of `a + sep + b` is the separator. */
  lemma SepIndexAfter(a: string, c: char, b: string)
    requires IsSepChar(c)
    requires forall i :: 0 <= i < |a| ==> !IsSepChar(a[i])
    ensures SepIndex(a + [c] + b, 0) == |a|
  {
    var s := a + [c] + b;
    assert forall i :: 0 <= i < |a| ==> s[i] == a[i];
    assert s[|a|] == c;
  }

  /** A string a well-formed rule matches has that rule's outline. */
  lemma ShapeOfMatch(r: Rule, s: string, m: string, y: string)
    requires WellFormed(r) && Matches(r, s, m, y)
    ensures ShapeOf(s) == Position(r)
  {
    GroupsHaveNoSeparator(r, m, y);
    if r.sep == NoSep {
      assert forall i :: 0 <= i < |s| ==> !IsSepChar(s[i]) by {
        assert s == m + y;
        forall i | 0 <= i < |s| ensures !IsSepChar(s[i]) {
          if i < |m| { assert s[i] == m[i]; } else { assert s[i] == y[i - |m|]; }
        }
      }
      assert SepIndex(s, 0) == |s|;
    } else {
      var c := SepText(r.sep)[0];
      if r.monthFirst {
        assert s == m + [c] + y;
        SepIndexAfter(m, c, y);
        assert s[0] == m[0] && s[|m|] == c;
      } else {
        assert s == y + [c] + m;
        SepIndexAfter(y, c, m);
        assert s[0] == y[0] && s[|y|] == c;
      }
    }
  }

  /** The twelve patterns are pairwise disjoint: a string matches at most
      one of them, and then in only one way. So the priority order never
      decides between two candidate matches. */
  lemma {:induction false} PatternsDisjoint(i: nat, j: nat, s: string, m: string, y: string, m': string, y': string)
    requires i < |Table| && j < |Table|
    requires Matches(Table[i], s, m, y) && Matches(Table[j], s, m', y')
    ensures i == j && m == m' && y == y'
  {
    TableWellFormed();
    ShapeOfMatch(Table[i], s, m, y);
    ShapeOfMatch(Table[j], s, m', y');
    MatchComplete(Table[i], s, m, y);
    MatchComplete(Table[j], s, m', y');
  }
}
