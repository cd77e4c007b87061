/** Parsing an expiry string against the pattern table and rewriting it with
    its year moved forward, in the same shape. */
module Expiry {
  import opened Wrappers
  import opened Chars
  import opened Decimal
  import opened Months
  import opened Rules

  /** What one pattern read: the two matched groups and the month and year
      they denote. */
  datatype Fields = Fields(monthText: string, yearText: string, month: int, year: int)

  /** The pattern that parsed the string (its index in `Table`) and what it
      read. */
  datatype Parsed = Parsed(rule: nat, fields: Fields)

  /** The month group denotes a month: a name found case-insensitively in
      the month table, or a number between 1 and 12. */
  predicate ValidMonth(shape: MonthShape, m: string)
    requires MonthRunOk(shape, m)
  {
    if shape == Letters then LookupMonth(m).Some? else 1 <= Value(m) <= 12
  }

  /** The month a valid month group denotes. */
  function MonthNumber(shape: MonthShape, m: string): (n: int)
    requires MonthRunOk(shape, m) && ValidMonth(shape, m)
    ensures 1 <= n <= 12
  {
    if shape == Letters then LookupMonth(m).value else Value(m)
  }

  /** The pattern at position `i` matches `s` with groups `m` and `y` and
      the month group denotes a month. */
  predicate Accepts(i: nat, s: string, m: string, y: string) {
    && i < |Table|
    && Matches(Table[i], s, m, y)
    && ValidMonth(Table[i].month, m)
  }

  /** `f` is what pattern `r` reads from groups `f.monthText` and
      `f.yearText`: a valid month group, the month it denotes, and the value
      of a digit-only year group. */
  predicate ParsedBy(r: Rule, f: Fields) {
    && MonthRunOk(r.month, f.monthText)
    && ValidMonth(r.month, f.monthText)
    && f.month == MonthNumber(r.month, f.monthText)
    && AllDigits(f.yearText)
    && f.year == Value(f.yearText)
  }

  /** One pass of the pattern loop: match, then read the month (skipping the
      pattern when it is not a month) and the year. */
  function Parse(r: Rule, s: string): (f: Option<Fields>)
    ensures f.Some? ==> Matches(r, s, f.value.monthText, f.value.yearText)
    ensures f.Some? ==> ParsedBy(r, f.value)
  {
    match Match(r, s)
    case None => None
    case Some(g) =>
      if ValidMonth(r.month, g.monthText) then
        Some(Fields(g.monthText, g.yearText, MonthNumber(r.month, g.monthText), Value(g.yearText)))
      else None
  }

  /** Whenever a pattern matches, `Parse` returns exactly its groups and
      their values, unless the month group is not a month. */
  lemma ParseComplete(r: Rule, s: string, m: string, y: string)
    requires Matches(r, s, m, y)
    ensures Parse(r, s) == if ValidMonth(r.month, m)
                           then Some(Fields(m, y, MonthNumber(r.month, m), Value(y)))
                           else None
  {
    MatchComplete(r, s, m, y);
  }

  /** What every pattern of `rules` makes of `s`, in order. `Parse` is
      pure, so computing every outcome and then taking the first success
      gives what the loop that stops at the first success gives
      (`ParseAllAt` names each outcome). */
  function ParseAll(rules: seq<Rule>, s: string): (ps: seq<Option<Fields>>)
    ensures |ps| == |rules|
  {
    if rules == [] then [] else [Parse(rules[0], s)] + ParseAll(rules[1..], s)
  }

  /** Outcome `j` of `ParseAll` is pattern `j` applied to `s`. */
  lemma {:induction false} ParseAllAt(rules: seq<Rule>, s: string, j: nat)
    requires j < |rules|
    ensures ParseAll(rules, s)[j] == Parse(rules[j], s)
  {
    if j > 0 {
      ParseAllAt(rules[1..], s, j - 1);
    }
  }

  /** The first success among the outcomes from position `k` on, with its
      position; `None` when every one of them failed. */
  function FirstParsed(ps: seq<Option<Fields>>, k: nat): (p: Option<Parsed>)
    requires k <= |ps|
    decreases |ps| - k
    ensures p.Some? ==> k <= p.value.rule < |ps| && ps[p.value.rule] == Some(p.value.fields)
    ensures p.Some? ==> forall j :: k <= j < p.value.rule ==> ps[j].None?
    ensures p.None? ==> forall j :: k <= j < |ps| ==> ps[j].None?
  {
    if k == |ps| then None
    else
      match ps[k]
      case Some(f) => Some(Parsed(k, f))
      case None => FirstParsed(ps, k + 1)
  }

  /** The whole pattern loop on an already trimmed string: the first
      pattern, in table order, that matches and reads a month
      (`ClassifyFirst` states the order). */
  function Classify(s: string): (p: Option<Parsed>)
    ensures p.Some? ==> && Accepts(p.value.rule, s, p.value.fields.monthText, p.value.fields.yearText)
                        && ParsedBy(Table[p.value.rule], p.value.fields)
  {
    var p := FirstParsed(ParseAll(Table, s), 0);
    if p.Some? then
      ParseAllAt(Table, s, p.value.rule);
      p
    else p
  }

  /** `Classify` tries the patterns in table order: the one it returns
      parses the string, and every pattern before it fails; when it returns
      `None` every pattern fails. */
  lemma ClassifyFirst(s: string)
    ensures var p := Classify(s);
            && (p.Some? ==> Parse(Table[p.value.rule], s) == Some(p.value.fields))
            && (p.Some? ==> forall j :: 0 <= j < p.value.rule ==> Parse(Table[j], s).None?)
            && (p.None? ==> forall j :: 0 <= j < |Table| ==> Parse(Table[j], s).None?)
  {
    var p := Classify(s);
    var n := if p.Some? then p.value.rule else |Table|;
    if p.Some? {
      ParseAllAt(Table, s, p.value.rule);
    }
    forall j | 0 <= j < n ensures Parse(Table[j], s).None? {
      ParseAllAt(Table, s, j);
    }
  }

  /** A string some pattern accepts is classified by that pattern, with the
      groups and values it reads. */
  lemma ClassifyAccepted(s: string, i: nat, m: string, y: string)
    requires Accepts(i, s, m, y)
    ensures Classify(s) == Some(Parsed(i, Fields(m, y, MonthNumber(Table[i].month, m), Value(y))))
  {
    ParseComplete(Table[i], s, m, y);
    ClassifyFirst(s);
    var p := Classify(s);
    assert p.Some?;
    var f := p.value.fields;
    PatternsDisjoint(p.value.rule, i, s, f.monthText, f.yearText, m, y);
  }

  /** A string whose matching pattern reads a non-month (a name outside the
      table, a number outside 1..12) is not classified at all: no later
      pattern can take it instead. */
  lemma ClassifyRejected(s: string, i: nat, m: string, y: string)
    requires i < |Table| && Matches(Table[i], s, m, y) && !ValidMonth(Table[i].month, m)
    ensures Classify(s) == None
  {
    var p := Classify(s);
    if p.Some? {
      var f := p.value.fields;
      PatternsDisjoint(p.value.rule, i, s, f.monthText, f.yearText, m, y);
      assert false;
    }
  }

  /** A string is classified exactly when some pattern accepts it. */
  lemma ClassifyIffAccepted(s: string)
    ensures Classify(s).Some? <==> exists i: nat, m, y :: Accepts(i, s, m, y)
  {
    var p := Classify(s);
    if p.Some? {
      assert Accepts(p.value.rule, s, p.value.fields.monthText, p.value.fields.yearText);
    } else if i: nat, m, y :| Accepts(i, s, m, y) {
      ClassifyAccepted(s, i, m, y);
      assert false;
    }
  }

  /** The year written back for a year group of `yearLength` digits moved
      to `n`: a two-digit year moves modulo 100 and is printed with two
      digits; a four-digit year is printed zero-padded to at least four
      characters, with no wrap-around and no leading zero beyond those
      four. */
  function FormatYear(yearLength: nat, n: int): (s: string)
    ensures yearLength == 2 ==> |s| == 2 && AllDigits(s) && Value(s) == n % 100
    ensures yearLength != 2 && n >= 0 ==> AllDigits(s) && Value(s) == n
    ensures yearLength != 2 && n >= 0 ==> |s| >= 4 && (|s| == 4 <==> n < 10000)
    ensures yearLength != 2 && n >= 10000 ==> s[0] != '0'
    ensures yearLength != 2 && n < 0 ==> |s| >= 4 && s[0] == '-' && AllDigits(s[1..]) && Value(s[1..]) == -n
    ensures yearLength != 2 && n < 0 ==> (|s| == 4 <==> -n < 1000) && (|s| > 4 ==> s[1] != '0')
  {
    if yearLength == 2 then
      assert Pow10(2) == 100;
      Format(n % 100, 2)
    else
      assert Pow10(3) == 1000 && Pow10(4) == 10000;
      Format(n, 4)
  }

  /** The year an output's year group denotes. */
  function MovedYear(yearLength: nat, n: int): int {
    if yearLength == 2 then n % 100 else n
  }

  /** The month written back for month group `m` read as `month`: a name
      keeps its spelling but is written first letter upper, rest lower; a
      number is printed with two digits. Either way it denotes `month`. */
  function FormatMonth(shape: MonthShape, m: string, month: int): (s: string)
    requires MonthRunOk(shape, m) && 1 <= month <= 12
    ensures shape == Letters ==> IsCapitalized(s) && AllLetters(s) && Lower(s) == Lower(m)
    ensures shape != Letters ==> |s| == 2 && AllDigits(s) && Value(s) == month
  {
    if shape == Letters then Capitalize(m)
    else
      assert Pow10(2) == 100;
      Format(month, 2)
  }

  /** The rewritten string: the pattern's own order and separator around the
      re-printed month and the moved year. */
  function Render(r: Rule, f: Fields, years: int): string
    requires MonthRunOk(r.month, f.monthText) && 1 <= f.month <= 12
  {
    Layout(r, FormatMonth(r.month, f.monthText, f.month), FormatYear(r.yearLength, f.year + years))
  }

  /** The expiry rewrite: trim, find the pattern, move the year by `years`
      and print the result in the same shape; `None` when nothing (or only
      whitespace) is given, or when no pattern accepts the trimmed text. */
  function Rewrite(exp: string, years: int): (r: Option<string>)
    ensures AllSpace(exp) ==> r.None?
    ensures r.Some? ==> Classify(Strip(exp)).Some?
  {
    if exp == [] then None
    else
      StripEmpty(exp);
      var t := Strip(exp);
      if t == [] then None
      else
        match Classify(t)
        case None => None
        case Some(p) => Some(Render(Table[p.rule], p.fields, years))
  }

  /** Once the trimmed input is classified, the output is that
      classification rendered. */
  lemma RewriteClassified(exp: string, years: int, p: Parsed)
    requires Classify(Strip(exp)) == Some(p)
    ensures Rewrite(exp, years) == Some(Render(Table[p.rule], p.fields, years))
  {
    assert Strip(exp) != [];
  }
}
