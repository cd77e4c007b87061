/** What the rewrite writes: the pattern's order and separator around the
    month it read and the year it moved. */
module Outputs {
  import opened Wrappers
  import opened Chars
  import opened Decimal
  import opened Rules
  import opened Expiry
  import opened Reparse

  /** The month part of an output keeps the month of the input group `m`:
      a name keeps its spelling up to case and is written first letter upper,
      rest lower; a number is written with exactly two digits. */
  predicate MonthKept(shape: MonthShape, m: string, mo: string)
    requires MonthRunOk(shape, m)
  {
    if shape == Letters then IsCapitalized(mo) && AllLetters(mo) && Lower(mo) == Lower(m)
    else |mo| == 2 && AllDigits(mo) && Value(mo) == Value(m)
  }

  /** The year part of an output for a year moved to `n`: two digits holding
      `n` modulo 100 for a two-digit pattern; otherwise `n` itself, padded
      with zeros to exactly four characters when it fits and with no
      leading zero when it does not (a minus sign first, taking one of the
      four places, when `n` is negative). */
  predicate YearShifted(yearLength: nat, n: int, yo: string) {
    if yearLength == 2 then |yo| == 2 && AllDigits(yo) && Value(yo) == n % 100
    else if n >= 0 then && AllDigits(yo) && Value(yo) == n && |yo| >= 4
                        && (|yo| == 4 <==> n < 10000) && (|yo| > 4 ==> yo[0] != '0')
    else && |yo| >= 4 && yo[0] == '-' && AllDigits(yo[1..]) && Value(yo[1..]) == -n
         && (|yo| == 4 <==> -n < 1000) && (|yo| > 4 ==> yo[1] != '0')
  }

  /** A trimmed input some pattern accepts is rewritten, and the output has
      that pattern's order and separator around the same month and the year
      moved by `years`. */
  lemma RewriteAccepted(exp: string, years: int, i: nat, m: string, y: string)
    requires Accepts(i, Strip(exp), m, y)
    ensures Rewrite(exp, years).Some?
    ensures exists mo, yo :: && Rewrite(exp, years).value == Layout(Table[i], mo, yo)
                              && MonthKept(Table[i].month, m, mo)
                              && YearShifted(Table[i].yearLength, Value(y) + years, yo)
  {
    var r := Table[i];
    var f := Fields(m, y, MonthNumber(r.month, m), Value(y));
    ClassifyAccepted(Strip(exp), i, m, y);
    RewriteClassified(exp, years, Parsed(i, f));
    var mo := FormatMonth(r.month, m, f.month);
    var yo := FormatYear(r.yearLength, f.year + years);
    FormatMonthKept(r.month, m, f.month);
    FormatYearShifted(r.yearLength, f.year + years);
    assert Rewrite(exp, years).value == Layout(r, mo, yo);
  }

  /** The printed month keeps the month group's month. */
  lemma FormatMonthKept(shape: MonthShape, m: string, month: int)
    requires MonthRunOk(shape, m) && ValidMonth(shape, m) && month == MonthNumber(shape, m)
    ensures MonthKept(shape, m, FormatMonth(shape, m, month))
  {
  }

  /** The printed year holds the moved year. */
  lemma FormatYearShifted(yearLength: nat, n: int)
    ensures YearShifted(yearLength, n, FormatYear(yearLength, n))
  {
  }

  /** The rewrite succeeds exactly when some pattern accepts the trimmed
      input. */
  lemma RewriteIffAccepted(exp: string, years: int)
    ensures Rewrite(exp, years).Some? <==> exists i: nat, m, y :: Accepts(i, Strip(exp), m, y)
  {
    ClassifyIffAccepted(Strip(exp));
    if i: nat, m, y :| Accepts(i, Strip(exp), m, y) {
      RewriteAccepted(exp, years, i, m, y);
    }
  }

  /** The output of a rewrite is the classification rendered; rewriting it
      again with no offset gives it back unchanged, and it is classified by
      the same pattern, as the month it was read as and the moved year
      (`Reparsed`). This needs a four-digit year to stay within 0..9999,
      since a wider year no longer fits its pattern. */
  lemma RoundTrip(exp: string, years: int, p: Parsed)
    requires Classify(Strip(exp)) == Some(p)
    requires Table[p.rule].yearLength != 2 ==> 0 <= p.fields.year + years < 10000
    ensures p.rule < |Table| && ParsedBy(Table[p.rule], p.fields)
    ensures var o := Render(Table[p.rule], p.fields, years);
            && Rewrite(exp, years) == Some(o)
            && Rewrite(o, 0) == Some(o)
            && Classify(o) == Some(Parsed(p.rule, Reparsed(Table[p.rule], p.fields, years)))
  {
    ClassifiedIsParsed(Strip(exp), p);
    RewriteClassified(exp, years, p);
    RenderRoundTrip(p.rule, p.fields, years);
  }

  /** What `Classify` returns is a parse of the pattern it names. */
  lemma ClassifiedIsParsed(s: string, p: Parsed)
    requires Classify(s) == Some(p)
    ensures p.rule < |Table| && ParsedBy(Table[p.rule], p.fields)
  {
  }
}
