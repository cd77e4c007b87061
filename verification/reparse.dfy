/** Outputs read back: a rewritten expiry is accepted by the pattern that
    produced it and is a fixed point of the rewrite with no offset. */
module Reparse {
  import opened Wrappers
  import opened Chars
  import opened Decimal
  import opened Months
  import opened Rules
  import opened Expiry

  /** The parse an output reads back as: the printed month and year
      groups, the same month, and the moved year. */
  function Reparsed(r: Rule, f: Fields, years: int): Fields
    requires MonthRunOk(r.month, f.monthText) && 1 <= f.month <= 12
  {
    Fields(FormatMonth(r.month, f.monthText, f.month), FormatYear(r.yearLength, f.year + years),
           f.month, MovedYear(r.yearLength, f.year + years))
  }

  /** The round trip on a rendered output: rewriting it with no offset
      gives it back, and it is classified by the pattern that produced it,
      as its `Reparsed` fields. */
  lemma RenderRoundTrip(i: nat, f: Fields, years: int)
    requires i < |Table| && ParsedBy(Table[i], f)
    requires Table[i].yearLength != 2 ==> 0 <= f.year + years < 10000
    ensures Rewrite(Render(Table[i], f, years), 0) == Some(Render(Table[i], f, years))
    ensures Classify(Render(Table[i], f, years)) == Some(Parsed(i, Reparsed(Table[i], f, years)))
  {
    ClassifyRender(i, f, years);
    RewriteClassified(Render(Table[i], f, years), 0, Parsed(i, Reparsed(Table[i], f, years)));
  }

  /** An output is classified by the pattern that produced it, as its
      `Reparsed` fields, and printing those again with no offset gives the
      same text. */
  lemma ClassifyRender(i: nat, f: Fields, years: int)
    requires i < |Table| && ParsedBy(Table[i], f)
    requires Table[i].yearLength != 2 ==> 0 <= f.year + years < 10000
    ensures Classify(Render(Table[i], f, years)) == Some(Parsed(i, Reparsed(Table[i], f, years)))
    ensures Render(Table[i], Reparsed(Table[i], f, years), 0) == Render(Table[i], f, years)
    ensures Strip(Render(Table[i], f, years)) == Render(Table[i], f, years)
  {
    TableWellFormed();
    RenderReparses(Table[i], f, years);
    ClassifyParsedBy(i, Render(Table[i], f, years), Reparsed(Table[i], f, years));
  }

  /** A string a pattern matches, with groups that parse to `f`, is
      classified as `f` by that pattern. */
  lemma ClassifyParsedBy(i: nat, s: string, f: Fields)
    requires i < |Table| && Matches(Table[i], s, f.monthText, f.yearText)
    requires ParsedBy(Table[i], f)
    ensures Classify(s) == Some(Parsed(i, f))
  {
    ClassifyAccepted(s, i, f.monthText, f.yearText);
  }

  /** An output fits its own pattern again, with a valid month group
      denoting the same month and a year group denoting the moved year, and
      rendering that parse with no offset reproduces the output. */
  lemma RenderReparses(r: Rule, f: Fields, years: int)
    requires WellFormed(r) && ParsedBy(r, f)
    requires r.yearLength != 2 ==> 0 <= f.year + years < 10000
    ensures var o := Render(r, f, years);
            var g := Reparsed(r, f, years);
            && Matches(r, o, g.monthText, g.yearText)
            && ParsedBy(r, g)
            && Strip(o) == o
            && Render(r, g, 0) == o
  {
    ReparsedMatches(r, f, years);
    ReparsedParsedBy(r, f, years);
    var g := Reparsed(r, f, years);
    MatchedIsTrimmed(r, Render(r, f, years), g.monthText, g.yearText);
    StripClean(Render(r, f, years));
    RenderAgain(r, f, years);
  }

  lemma ReparsedMatches(r: Rule, f: Fields, years: int)
    requires WellFormed(r) && ParsedBy(r, f)
    requires r.yearLength != 2 ==> 0 <= f.year + years < 10000
    ensures Matches(r, Render(r, f, years), Reparsed(r, f, years).monthText, Reparsed(r, f, years).yearText)
  {
    MonthAgain(r.month, f.monthText, f.month);
    YearAgain(r.yearLength, f.year + years);
  }

  lemma ReparsedParsedBy(r: Rule, f: Fields, years: int)
    requires WellFormed(r) && ParsedBy(r, f)
    requires r.yearLength != 2 ==> 0 <= f.year + years < 10000
    ensures ParsedBy(r, Reparsed(r, f, years))
  {
    MonthAgain(r.month, f.monthText, f.month);
    YearAgain(r.yearLength, f.year + years);
  }

  lemma RenderAgain(r: Rule, f: Fields, years: int)
    requires WellFormed(r) && ParsedBy(r, f)
    requires r.yearLength != 2 ==> 0 <= f.year + years < 10000
    ensures Render(r, Reparsed(r, f, years), 0) == Render(r, f, years)
  {
    MonthAgain(r.month, f.monthText, f.month);
    ReparsedYearAgain(r, f, years);
  }

  /** The year group of an output, read back with no offset, prints as
      itself. */
  lemma ReparsedYearAgain(r: Rule, f: Fields, years: int)
    requires MonthRunOk(r.month, f.monthText) && 1 <= f.month <= 12
    requires r.yearLength == 2 || r.yearLength == 4
    requires r.yearLength == 4 ==> 0 <= f.year + years < 10000
    ensures FormatYear(r.yearLength, Reparsed(r, f, years).year + 0) == Reparsed(r, f, years).yearText
  {
    YearAgain(r.yearLength, f.year + years);
  }

  /** The printed month reads back as the same month and prints the same
      way again. */
  lemma MonthAgain(shape: MonthShape, m: string, month: int)
    requires MonthRunOk(shape, m) && ValidMonth(shape, m) && month == MonthNumber(shape, m)
    ensures var mo := FormatMonth(shape, m, month);
            && MonthRunOk(shape, mo)
            && ValidMonth(shape, mo)
            && MonthNumber(shape, mo) == month
            && FormatMonth(shape, mo, month) == mo
  {
    if shape == Letters {
      var mo := Capitalize(m);
      CapitalizeIdempotent(m);
      LookupIgnoresCase(mo, m);
    }
  }

  /** The printed year fills the year group of its pattern, denotes the
      moved year, and prints the same way again. A four-digit year must lie
      in 0..9999 to fit. */
  lemma YearAgain(yearLength: nat, n: int)
    requires yearLength == 2 || yearLength == 4
    requires yearLength == 4 ==> 0 <= n < 10000
    ensures var yo := FormatYear(yearLength, n);
            && |yo| == yearLength
            && AllDigits(yo)
            && Value(yo) == MovedYear(yearLength, n)
            && FormatYear(yearLength, Value(yo)) == yo
  {
    if yearLength == 2 {
      TwoDigitYearAgain(n);
    } else {
      FourDigitYearAgain(n);
    }
  }

  lemma TwoDigitYearAgain(n: int)
    ensures var yo := FormatYear(2, n);
            && |yo| == 2 && AllDigits(yo) && Value(yo) == n % 100
            && FormatYear(2, Value(yo)) == yo
  {
    var k := n % 100;
    assert 0 <= k < 100;
    assert k % 100 == k;
    assert FormatYear(2, k) == Format(k, 2);
    assert FormatYear(2, n) == Format(k, 2);
  }

  lemma FourDigitYearAgain(n: int)
    requires 0 <= n < 10000
    ensures var yo := FormatYear(4, n);
            && |yo| == 4 && AllDigits(yo) && Value(yo) == n
            && FormatYear(4, Value(yo)) == yo
  {
  }

  /** The groups are written the way their pattern prints them: the month
      as `FormatMonth` writes it, the year as `FormatYear` writes it. */
  predicate InPrintedForm(r: Rule, f: Fields)
    requires MonthRunOk(r.month, f.monthText) && 1 <= f.month <= 12
  {
    && FormatMonth(r.month, f.monthText, f.month) == f.monthText
    && FormatYear(r.yearLength, f.year) == f.yearText
  }

  /** The rewrite reads back the very fields it was given exactly when the
      year does not move and the groups are already in printed form. */
  lemma ReparsedIsSelf(r: Rule, f: Fields, years: int)
    requires MonthRunOk(r.month, f.monthText) && 1 <= f.month <= 12
    ensures Reparsed(r, f, years) == f <==>
              MovedYear(r.yearLength, f.year + years) == f.year && InPrintedForm(r, f)
  {
    PrintMoved(r.yearLength, f.year + years);
  }

  /** `ReparsedIsSelf` for the pattern at position `i`, with its condition
      as a premise, so that a caller holding it has nothing to
      re-establish. */
  lemma ReparsedIsSelfAt(i: nat, f: Fields, years: int)
    ensures i < |Table| && ParsedBy(Table[i], f) ==>
              (Reparsed(Table[i], f, years) == f <==>
                 MovedYear(Table[i].yearLength, f.year + years) == f.year && InPrintedForm(Table[i], f))
  {
    if i < |Table| && ParsedBy(Table[i], f) {
      ReparsedIsSelf(Table[i], f, years);
    }
  }

  /** A string that a pattern reads as `f` renders back to itself with
      offset `years` exactly when the rewrite reads back `f` itself. */
  lemma ReadsBack(r: Rule, f: Fields, years: int, s: string)
    requires WellFormed(r) && Matches(r, s, f.monthText, f.yearText) && ParsedBy(r, f)
    ensures Render(r, f, years) == s <==> Reparsed(r, f, years) == f
  {
    if Render(r, f, years) == s {
      if r.yearLength == 4 {
        FixedPointInRange(r, f, years, s);
      }
      FixedPointYear(r, f, years, s);
    } else {
      var g := Reparsed(r, f, years);
      assert Render(r, f, years) == Layout(r, g.monthText, g.yearText);
    }
  }

  /** `ReadsBack` with its conditions as a premise. */
  lemma ReadsBackAgain(r: Rule, f: Fields, years: int, s: string)
    ensures WellFormed(r) && Matches(r, s, f.monthText, f.yearText) && ParsedBy(r, f) ==>
              (Render(r, f, years) == s <==> Reparsed(r, f, years) == f)
  {
    if WellFormed(r) && Matches(r, s, f.monthText, f.yearText) && ParsedBy(r, f) {
      ReadsBack(r, f, years, s);
    }
  }

  /** `ReadsBack` for the pattern at position `i`, when it accepts `s` and
      reads it as `f`. */
  lemma ReadsBackAt(i: nat, f: Fields, years: int, s: string)
    ensures i < |Table| && Accepts(i, s, f.monthText, f.yearText) && ParsedBy(Table[i], f) ==>
              (Render(Table[i], f, years) == s <==> Reparsed(Table[i], f, years) == f)
  {
    if i < |Table| && Accepts(i, s, f.monthText, f.yearText) && ParsedBy(Table[i], f) {
      TableWellFormed();
      ReadsBackAgain(Table[i], f, years, s);
    }
  }

  /** A string that a pattern reads as `f` and that renders back to itself
      with offset `years` keeps its year under the move and is already in
      printed form. */
  lemma FixedPointKeepsYear(i: nat, f: Fields, years: int, s: string)
    requires i < |Table| && ParsedBy(Table[i], f) && Matches(Table[i], s, f.monthText, f.yearText)
    requires Render(Table[i], f, years) == s
    ensures MovedYear(Table[i].yearLength, f.year + years) == f.year
    ensures InPrintedForm(Table[i], f)
  {
    TableWellFormed();
    ReadsBackAgain(Table[i], f, years, s);
    ReparsedIsSelfAt(i, f, years);
  }

  /** Printing the year an output denotes gives the output's year group. */
  lemma PrintMoved(yearLength: nat, n: int)
    ensures FormatYear(yearLength, MovedYear(yearLength, n)) == FormatYear(yearLength, n)
  {
    if yearLength == 2 {
      assert n % 100 % 100 == n % 100;
    }
  }

  /** A four-digit year of a fixed point stays within 0..9999. */
  lemma FixedPointInRange(r: Rule, f: Fields, years: int, s: string)
    requires r.yearLength == 4
    requires Matches(r, s, f.monthText, f.yearText) && 1 <= f.month <= 12
    requires Render(r, f, years) == s
    ensures 0 <= f.year + years < 10000
  {
    if !(0 <= f.year + years < 10000) {
      WideYearChangesText(r, f, years, s);
      assert false;
    }
  }

  /** The year group of a fixed point is the printed moved year, so it
      denotes the moved year. */
  lemma FixedPointYear(r: Rule, f: Fields, years: int, s: string)
    requires Matches(r, s, f.monthText, f.yearText) && 1 <= f.month <= 12 && f.year == Value(f.yearText)
    requires r.yearLength == 2 || r.yearLength == 4
    requires r.yearLength != 2 ==> 0 <= f.year + years < 10000
    requires Render(r, f, years) == s
    ensures MovedYear(r.yearLength, f.year + years) == f.year
    ensures FormatMonth(r.month, f.monthText, f.month) == f.monthText
    ensures FormatYear(r.yearLength, f.year + years) == f.yearText
  {
    var yo := FormatYear(r.yearLength, f.year + years);
    YearAgain(r.yearLength, f.year + years);
    LayoutSame(r, f.monthText, f.yearText, FormatMonth(r.month, f.monthText, f.month), yo);
  }

  /** Two layouts of one pattern that agree, with year groups of one
      length, have the same groups. */
  lemma LayoutSame(r: Rule, m: string, y: string, m': string, y': string)
    requires Layout(r, m, y) == Layout(r, m', y') && |y| == |y'|
    ensures m == m' && y == y'
  {
    var s := Layout(r, m, y);
    var k := |SepText(r.sep)|;
    if r.monthFirst {
      assert y == s[|s| - |y|..] == y';
      assert m == s[..|m|] == m';
    } else {
      assert y == s[..|y|] == y';
      assert m == s[|y| + k..] == m';
    }
  }

  /** A four-digit year moved out of 0..9999 changes the text: the output
      is longer than the input, or carries a minus sign where the input has
      a digit or where the pattern allows no separator. */
  lemma WideYearChangesText(r: Rule, f: Fields, years: int, s: string)
    requires r.yearLength == 4 && !(0 <= f.year + years < 10000)
    requires MonthRunOk(r.month, f.monthText) && 1 <= f.month <= 12
    requires Matches(r, s, f.monthText, f.yearText)
    ensures Render(r, f, years) != s
  {
    var m := f.monthText;
    var mo := FormatMonth(r.month, m, f.month);
    var yo := FormatYear(r.yearLength, f.year + years);
    assert |mo| >= |m| by {
      if r.month == Letters {
        assert |Lower(mo)| == |Lower(m)|;
      }
    }
    if Render(r, f, years) == s {
      if f.year + years >= 10000 {
        assert false;
      } else {
        var j := if r.monthFirst then |mo| + |SepText(r.sep)| else 0;
        assert s[j] == yo[0] == '-';
        SepOnlyBetween(r, m, f.yearText, j);
        assert false;
      }
    }
  }

  /** A matched string neither starts nor ends with whitespace. */
  lemma MatchedIsTrimmed(r: Rule, o: string, mo: string, yo: string)
    requires Matches(r, o, mo, yo) && r.yearLength > 0
    ensures o != [] && !IsSpace(o[0]) && !IsSpace(o[|o| - 1])
  {
    if r.monthFirst {
      assert o[0] == mo[0] && o[|o| - 1] == yo[|yo| - 1];
    } else {
      assert o[0] == yo[0] && o[|o| - 1] == mo[|mo| - 1];
    }
  }
}
