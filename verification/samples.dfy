/** Worked inputs for the rewriter, each proved from the general lemmas
    in small steps: the pattern that accepts the input, what it reads, and
    what is printed back. */
module Samples {
  import opened Wrappers
  import opened Chars
  import opened Decimal
  import opened Months
  import opened Rules
  import opened Expiry

  /** "13/25" has the shape of a month/year pair, but 13 is not a month:
      the numeric pattern matches and rejects it, and no later pattern may
      take it instead, so the value is left as it is. */
  lemma MonthThirteenRejected()
    ensures Rewrite("13/25", 3) == None
  {
    var s := "13/25";
    StripClean(s);
    assert Value("13") == 13;
    assert Matches(Table[4], s, "13", "25");
    ClassifyRejected(s, 4, "13", "25");
  }

  // "Dec-99": the first pattern, a name, a dash and a two-digit year.

  lemma DecIsMonth()
    ensures LookupMonth("Dec") == Some(12)
  {
    assert Lower("Dec") == "dec";
    assert Find("dec", 11) == Some(12);
    assert Find("dec", 10) == Some(12);
    assert Find("dec", 9) == Some(12);
    assert Find("dec", 8) == Some(12);
    assert Find("dec", 7) == Some(12);
    assert Find("dec", 6) == Some(12);
    assert Find("dec", 5) == Some(12);
    assert Find("dec", 4) == Some(12);
    assert Find("dec", 3) == Some(12);
    assert Find("dec", 2) == Some(12);
    assert Find("dec", 1) == Some(12);
  }

  lemma DecClassified()
    ensures Classify("Dec-99") == Some(Parsed(0, Fields("Dec", "99", 12, 99)))
  {
    DecIsMonth();
    assert Value("99") == 99;
    assert Matches(Table[0], "Dec-99", "Dec", "99");
    ClassifyAccepted("Dec-99", 0, "Dec", "99");
  }

  lemma DecMonthPart()
    ensures FormatMonth(Letters, "Dec", 12) == "Dec"
  {
    assert Lower("ec") == "ec";
  }

  lemma Year02()
    ensures FormatYear(2, 102) == "02"
  {
    assert 102 % 100 == 2;
    assert Digits(2) == "2";
  }

  lemma DecRendered()
    ensures Render(Table[0], Fields("Dec", "99", 12, 99), 3) == "Dec-02"
  {
    DecMonthPart();
    Year02();
    assert Table[0] == Rule(Letters, 2, Dash, true);
  }

  /** A two-digit year wraps: "Dec-99" three years on is "Dec-02". */
  lemma DecemberWraps()
    ensures Rewrite("Dec-99", 3) == Some("Dec-02")
  {
    StripClean("Dec-99");
    DecClassified();
    RewriteClassified("Dec-99", 3, Parsed(0, Fields("Dec", "99", 12, 99)));
    DecRendered();
  }

  // "August-2029": the second pattern, a full name and a four-digit year.

  lemma AugustLower()
    ensures Lower("August") == "august" && Lower("AUGUST") == "august"
  {
    assert Lower("gust") == "gust";
    assert Lower("GUST") == "gust";
  }

  /** The search for "august" passes over the first seven months. */
  lemma AugustFound()
    ensures Find("august", 0) == Some(8)
  {
    assert Find("august", 7) == Some(8);
    assert Find("august", 6) == Some(8);
    assert Find("august", 5) == Some(8);
    assert Find("august", 4) == Some(8);
    assert Find("august", 3) == Some(8);
    assert Find("august", 2) == Some(8);
    assert Find("august", 1) == Some(8);
  }

  lemma AugustIsMonth()
    ensures LookupMonth("August") == Some(8)
    ensures LookupMonth("AUGUST") == Some(8)
  {
    AugustLower();
    AugustFound();
  }

  lemma Year2029()
    ensures AllDigits("2029") && Value("2029") == 2029
  {
    assert "2029"[..3] == "202" && "202"[..2] == "20" && "20"[..1] == "2";
  }

  lemma AugustMatches()
    ensures Matches(Table[1], "August-2029", "August", "2029")
  {
    Year2029();
    assert Table[1] == Rule(Letters, 4, Dash, true);
  }

  lemma AugustAccepted()
    ensures Accepts(1, "August-2029", "August", "2029")
  {
    AugustMatches();
    AugustIsMonth();
  }

  lemma AugustClassified()
    ensures Classify("August-2029") == Some(Parsed(1, Fields("August", "2029", 8, 2029)))
  {
    AugustAccepted();
    AugustIsMonth();
    Year2029();
    ClassifyAccepted("August-2029", 1, "August", "2029");
  }

  lemma AugustCapitalized()
    ensures Capitalize("August") == "August"
  {
    assert Lower("ugust") == "ugust";
  }

  lemma AugustMonthPart()
    ensures FormatMonth(Letters, "August", 8) == "August"
  {
    AugustCapitalized();
  }

  lemma Year2032()
    ensures FormatYear(4, 2032) == "2032"
  {
    assert Digits(2) == "2";
    assert Digits(20) == "20";
    assert Digits(203) == "203";
    assert Digits(2032) == "2032";
  }

  lemma AugustRendered()
    ensures Render(Table[1], Fields("August", "2029", 8, 2029), 3) == "August-2032"
  {
    AugustMonthPart();
    Year2032();
    assert Table[1] == Rule(Letters, 4, Dash, true);
  }

  /** A four-digit year moves without wrapping: "August-2029" three years
      on is "August-2032". */
  lemma AugustFourDigits()
    ensures Rewrite("August-2029", 3) == Some("August-2032")
  {
    StripClean("August-2029");
    AugustClassified();
    RewriteClassified("August-2029", 3, Parsed(1, Fields("August", "2029", 8, 2029)));
    AugustRendered();
  }

  // "AUGUST/29": the third pattern, a name in capitals and a slash.

  lemma UpperMatches()
    ensures Matches(Table[2], "AUGUST/29", "AUGUST", "29")
  {
    assert Table[2] == Rule(Letters, 2, Slash, true);
  }

  lemma UpperAccepted()
    ensures Accepts(2, "AUGUST/29", "AUGUST", "29")
  {
    UpperMatches();
    AugustIsMonth();
  }

  lemma UpperClassified()
    ensures Classify("AUGUST/29") == Some(Parsed(2, Fields("AUGUST", "29", 8, 29)))
  {
    UpperAccepted();
    AugustIsMonth();
    assert Value("29") == 29;
    ClassifyAccepted("AUGUST/29", 2, "AUGUST", "29");
  }

  lemma UpperCapitalized()
    ensures Capitalize("AUGUST") == "August"
  {
    assert Lower("UGUST") == "ugust";
  }

  lemma UpperMonthPart()
    ensures FormatMonth(Letters, "AUGUST", 8) == "August"
  {
    UpperCapitalized();
  }

  lemma Year32()
    ensures FormatYear(2, 32) == "32"
  {
    assert Digits(3) == "3";
    assert Digits(32) == "32";
  }

  lemma UpperRendered()
    ensures Render(Table[2], Fields("AUGUST", "29", 8, 29), 3) == "August/32"
  {
    UpperMonthPart();
    Year32();
    assert Table[2] == Rule(Letters, 2, Slash, true);
  }

  /** A month name is written first letter upper, rest lower:
      "AUGUST/29" three years on is "August/32". */
  lemma UpperCaseNormalised()
    ensures Rewrite("AUGUST/29", 3) == Some("August/32")
  {
    StripClean("AUGUST/29");
    UpperClassified();
    RewriteClassified("AUGUST/29", 3, Parsed(2, Fields("AUGUST", "29", 8, 29)));
    UpperRendered();
  }
}
