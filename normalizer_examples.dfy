/** Worked inputs for `parse_date_or_timestamp`, each answered for every behaviour of chrono's other formats. */
module NormalizerExamples {
  import opened Wrappers
  import opened Calendar
  import opened Decimal
  import opened ChronoFormat
  import opened ChronoParse
  import opened DateNormalizer

  const Epoch: string := "Thu, 01 Jan 1970 00:00:00 GMT"

  lemma EpochDayFields()
    ensures DaysFromCivil(Date(1970, 1, 1)) == 0
    ensures DayPrefix(Weekday(0), Date(1970, 1, 1)) == "Thu, 01 Jan "
  {
  }

  lemma EpochYear()
    ensures YearText(1970) == "1970"
  {
    assert NatDigits(197) == "197";
    assert NatDigits(1970) == "1970";
    assert YearText(1970) == ZeroPad(NatDigits(1970), 4);
  }

  /** The day the epoch starts: Thursday 1 January 1970. */
  lemma EpochDayRendering(t: int)
    requires 0 <= t < 86400
    ensures ImfFixdate(t) == "Thu, 01 Jan " + "1970" + TimeSuffix(t)
  {
    EpochDayText(t);
    EpochDayFields();
    EpochYear();
  }

  lemma EpochDayText(t: int)
    requires 0 <= t < 86400
    ensures ImfFixdate(t) == DayPrefix(Weekday(0), Date(1970, 1, 1)) + YearText(1970) + TimeSuffix(t)
  {
    EpochDayFields();
    ImfFixdateOfDate(t, Date(1970, 1, 1), t);
  }

  lemma EpochSecond()
    ensures ImfFixdate(0) == Epoch
  {
    EpochDayRendering(0);
    MidnightTimeSuffix();
    EpochText();
  }

  lemma EpochText()
    ensures "Thu, 01 Jan " + "1970" + " 00:00:00 GMT" == Epoch
  {
  }

  /**
   * Rust's `/` truncates toward zero, so every timestamp strictly between -1000 and 1000
   * milliseconds is shown as the epoch's first second.
   */
  lemma SubSecondTimestamps(chrono: ChronoParser, n: int)
    requires -1000 < n < 1000
    ensures TimestampInRange(IntToString(n))
    ensures ParseDateOrTimestamp(chrono, IntToString(n)) == Ok(Response(n, Epoch))
  {
    var t := TruncDiv(n, 1000);
    assert t == 0;
    assert FromTimestampDefined(t) by {
      ChronoRangeBounds();
    }
    ParseI64OfIntToString(n);
    TimestampInput(chrono, IntToString(n), n);
    EpochSecond();
  }

  lemma DecimalExamples()
    ensures IntToString(-1) == "-1" && IntToString(999) == "999"
  {
    assert NatDigits(9) == "9";
    assert NatDigits(99) == "99";
  }

  /** "-1" and "999" both show the epoch's first second: the division truncates, it does not floor. */
  lemma TruncationExamples(chrono: ChronoParser)
    ensures TimestampInRange("-1") && ParseDateOrTimestamp(chrono, "-1") == Ok(Response(-1, Epoch))
    ensures TimestampInRange("999") && ParseDateOrTimestamp(chrono, "999") == Ok(Response(999, Epoch))
  {
    DecimalExamples();
    SubSecondTimestamps(chrono, -1);
    SubSecondTimestamps(chrono, 999);
  }

  lemma OctoberDayFields()
    ensures DaysFromCivil(Date(2015, 10, 21)) == 16729
    ensures DayPrefix(Weekday(16729), Date(2015, 10, 21)) == "Wed, 21 Oct "
  {
  }

  lemma OctoberYear()
    ensures YearText(2015) == "2015"
  {
    assert NatDigits(201) == "201";
    assert NatDigits(2015) == "2015";
    assert YearText(2015) == ZeroPad(NatDigits(2015), 4);
  }

  lemma OctoberDigits()
    ensures TwoDigits(10) == "10" && TwoDigits(21) == "21"
  {
  }

  lemma OctoberIsoText()
    ensures "2015" + "-" + "10" + "-" + "21" == "2015-10-21"
  {
  }

  lemma OctoberInRange()
    ensures InChronoRange(Date(2015, 10, 21))
  {
  }

  lemma OctoberIsoFields()
    ensures FormatYmd(Date(2015, 10, 21)) == YearText(2015) + "-" + TwoDigits(10) + "-" + TwoDigits(21)
  {
  }

  lemma OctoberIso()
    ensures InChronoRange(Date(2015, 10, 21))
    ensures FormatYmd(Date(2015, 10, 21)) == "2015-10-21"
  {
    OctoberInRange();
    OctoberIsoFields();
    OctoberYear();
    OctoberDigits();
    OctoberIsoText();
  }

  lemma OctoberText()
    ensures "Wed, 21 Oct " + "2015" + " 00:00:00 GMT" == "Wed, 21 Oct 2015 00:00:00 GMT"
  {
  }

  /** The answer to a `YYYY-MM-DD` input, from the pieces of its rendering. */
  lemma IsoDateAnswerOfFields(chrono: ChronoParser, d: NaiveDate, input: string, days: int, prefix: string, year: string)
    requires FormatYmd(d) == input && DaysFromCivil(d) == days
    requires DayPrefix(Weekday(days), d) == prefix && YearText(d.year) == year
    ensures TimestampInRange(input)
    ensures ParseDateOrTimestamp(chrono, input) == Ok(Response(days * 86400000, prefix + year + " 00:00:00 GMT"))
  {
    IsoDateAnswer(chrono, d);
  }

  /** "2015-10-21" is midnight of that Wednesday, 1445385600000 milliseconds after the epoch. */
  lemma IsoDateExample(chrono: ChronoParser)
    ensures TimestampInRange("2015-10-21")
    ensures ParseDateOrTimestamp(chrono, "2015-10-21") == Ok(Response(1445385600000, "Wed, 21 Oct 2015 00:00:00 GMT"))
  {
    OctoberInRange();
    var d: NaiveDate := Date(2015, 10, 21);
    OctoberIso();
    OctoberDayFields();
    OctoberYear();
    OctoberText();
    IsoDateAnswerOfFields(chrono, d, "2015-10-21", 16729, "Wed, 21 Oct ", "2015");
  }

  /** The date's millisecond count, sent back as a number, gives the same answer. */
  lemma IsoDateUnixExample(chrono: ChronoParser)
    ensures TimestampInRange(IntToString(1445385600000))
    ensures ParseDateOrTimestamp(chrono, IntToString(1445385600000))
      == Ok(Response(1445385600000, "Wed, 21 Oct 2015 00:00:00 GMT"))
  {
    IsoDateExample(chrono);
    UnixRoundTrip(chrono, chrono, "2015-10-21");
  }

  lemma NewYearsEve()
    ensures InChronoRange(Date(1969, 12, 31)) && DaysFromCivil(Date(1969, 12, 31)) == -1
    ensures DayPrefix(Weekday(-1), Date(1969, 12, 31)) == "Wed, 31 Dec "
  {
  }

  lemma Year1969()
    ensures YearText(1969) == "1969"
  {
    assert NatDigits(196) == "196";
    assert NatDigits(1969) == "1969";
    assert YearText(1969) == ZeroPad(NatDigits(1969), 4);
  }

  lemma LastSecondOfDay()
    ensures TimeSuffix(86399) == " 23:59:59 GMT"
  {
  }

  lemma MinusOneThousand()
    ensures ParseI64("-1000") == Some(-1000)
  {
    assert NatDigits(10) == "10";
    assert NatDigits(100) == "100";
    assert IntToString(-1000) == "-1000";
    ParseI64OfIntToString(-1000);
  }

  lemma NewYearsEveText()
    ensures "Wed, 31 Dec " + "1969" + " 23:59:59 GMT" == "Wed, 31 Dec 1969 23:59:59 GMT"
  {
  }

  /** -1000 milliseconds is the last second of 1969: a whole negative second moves back a day. */
  lemma NegativeSecondExample(chrono: ChronoParser)
    ensures TimestampInRange("-1000")
    ensures ParseDateOrTimestamp(chrono, "-1000") == Ok(Response(-1000, "Wed, 31 Dec 1969 23:59:59 GMT"))
  {
    NegativeSecondFields(chrono);
    NewYearsEve();
    Year1969();
    LastSecondOfDay();
    NewYearsEveText();
  }

  lemma NegativeSecondFields(chrono: ChronoParser)
    ensures TimestampInRange("-1000")
    ensures ParseDateOrTimestamp(chrono, "-1000")
      == Ok(Response(-1000, DayPrefix(Weekday(-1), Date(1969, 12, 31)) + YearText(1969) + TimeSuffix(86399)))
  {
    NewYearsEve();
    MinusOneThousand();
    TimestampOnDay(chrono, "-1000", -1000, Date(1969, 12, 31), 86399);
  }

  lemma MonthThirteenFields()
    ensures YearText(2015) + "-" + TwoDigits(13) + "-" + TwoDigits(1) == "2015" + "-" + "13" + "-" + "01"
  {
    OctoberYear();
    assert TwoDigits(13) == "13";
    assert TwoDigits(1) == "01";
  }

  lemma MonthThirteenText()
    ensures YearText(2015) + "-" + TwoDigits(13) + "-" + TwoDigits(1) == "2015-13-01"
  {
    MonthThirteenFields();
    assert "2015" + "-" + "13" + "-" + "01" == "2015-13-01";
  }

  lemma MonthThirteenRejected()
    ensures ParseYmd("2015-13-01") == None
  {
    MonthThirteenText();
    ParseYmdOfFields(2015, 13, 1);
  }

  lemma MonthThirteenNotI64()
    ensures ParseI64("2015-13-01") == None
  {
    ParseI64RejectsNonDigit("2015-13-01", 4);
  }

  /**
   * "2015-13-01" has no month 13: `"%Y-%m-%d"` rejects it, and unless one of chrono's other formats
   * accepts it the answer is "Invalid Date".
   */
  lemma MonthThirteenExample(chrono: ChronoParser)
    requires forall i :: 1 <= i < |DateFormats| ==> chrono("2015-13-01", DateFormats[i]).None?
    ensures ParseYmd("2015-13-01") == None
    ensures TimestampInRange("2015-13-01")
    ensures ParseDateOrTimestamp(chrono, "2015-13-01") == Err(InvalidDate)
  {
    MonthThirteenRejected();
    MonthThirteenNotI64();
    NothingAccepts(chrono, "2015-13-01");
  }
}
