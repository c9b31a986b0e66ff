/**
 * `parse_date_or_timestamp`: the one function of the service that does any work. A path segment
 * that reads as an i64 is a count of milliseconds since 1970-01-01T00:00:00Z; otherwise it is
 * tried against ten date formats in order, and the first that accepts it names a date taken at
 * midnight UTC. Either way the answer carries the instant in milliseconds and its IMF-fixdate.
 */
module DateNormalizer {
  import opened Wrappers
  import opened Calendar
  import opened Decimal
  import opened ChronoFormat
  import opened ChronoParse

  /** The JSON body of a successful request: milliseconds since the epoch and the IMF-fixdate. */
  datatype Response = Response(unix: int, utc: string)

  /** The error message when nothing accepts the input. */
  const InvalidDate: string := "Invalid Date"

  /**
   * chrono's `NaiveDate::parse_from_str(input, format)` for the formats whose grammar this model
   * does not spell out: any total function of the input and the format.
   */
  type ChronoParser = (string, string) -> Option<NaiveDate>

  const IsoDate: string := "%Y-%m-%d"

  /** The formats tried, in the order the source chains them. */
  const DateFormats: seq<string> := [
    IsoDate,
    "%Y-%m-%dT%H:%M:%S",
    "%Y-%m-%dT%H:%M:%S%.f",
    "%Y-%m-%dT%H:%M:%S%.fZ",
    "%Y-%m-%dT%H:%M:%S%.f%:z",
    "%d %B %Y, %Z",
    "%a %b %d %Y %H:%M:%S GMT%z",
    "%a %b %d %Y %H:%M:%S %z",
    "%a %b %d %Y %H:%M:%S GMT%:z (%Z)",
    "%a %b %d %Y %H:%M:%S %:z (%Z)"
  ]

  /** One `parse_from_str` call: `"%Y-%m-%d"` is read by this model's own parser, the rest by chrono. */
  function ParseFromStr(chrono: ChronoParser, input: string, format: string): (r: Option<NaiveDate>)
    ensures format == IsoDate && r.Some? ==> ParseI64(input).None?
    ensures format == IsoDate && r.Some? ==>
      exists p: YmdText :: p.Text() == input && p.Spells(r.value.year, r.value.month, r.value.day)
  {
    if format == IsoDate then
      var r := ParseYmd(input);
      if r.Some? then ParseYmdExcludesI64(input); r else r
    else chrono(input, format)
  }

  /** formats[i] accepts the input and no earlier format does. */
  predicate FirstSuccessAt(chrono: ChronoParser, input: string, formats: seq<string>, i: int)
  {
    && 0 <= i < |formats|
    && ParseFromStr(chrono, input, formats[i]).Some?
    && forall j :: 0 <= j < i ==> ParseFromStr(chrono, input, formats[j]).None?
  }

  /** The `.or_else` chain: the date from the first format that accepts the input. */
  function FirstMatch(chrono: ChronoParser, input: string, formats: seq<string>): (r: Option<NaiveDate>)
    ensures r.None? <==> forall i :: 0 <= i < |formats| ==> ParseFromStr(chrono, input, formats[i]).None?
    ensures r.Some? ==> exists i :: FirstSuccessAt(chrono, input, formats, i)
    ensures forall i :: FirstSuccessAt(chrono, input, formats, i) ==> r == ParseFromStr(chrono, input, formats[i])
  {
    if formats == [] then None
    else match ParseFromStr(chrono, input, formats[0])
      case Some(d) =>
        assert FirstSuccessAt(chrono, input, formats, 0);
        Some(d)
      case None =>
        var r := FirstMatch(chrono, input, formats[1..]);
        assert forall i :: FirstSuccessAt(chrono, input, formats, i) ==> FirstSuccessAt(chrono, input, formats[1..], i - 1);
        if r.Some? then
          var i :| FirstSuccessAt(chrono, input, formats[1..], i);
          assert FirstSuccessAt(chrono, input, formats, i + 1);
          r
        else r
  }

  /** `DateTime::<Utc>::from_timestamp(secs, 0)` is defined: the day falls in chrono's date range. */
  predicate FromTimestampDefined(secs: int)
  {
    MinDays * 86400 <= secs < (MaxDays + 1) * 86400
  }

  lemma FromTimestampDefinedMeans(secs: int)
    ensures FromTimestampDefined(secs) <==> InChronoRange(CivilFromDays(secs / 86400))
  {
    var days := secs / 86400;
    InChronoRangeByDays(CivilFromDays(days));
    assert days * 86400 <= secs < days * 86400 + 86400;
  }

  /** The source unwraps `from_timestamp`: an integer input must name a representable second. */
  predicate TimestampInRange(input: string)
  {
    ParseI64(input).Some? ==> FromTimestampDefined(TruncDiv(ParseI64(input).value, 1000))
  }

  /**
   * The integer branch: the input is echoed as `unix`, and `utc` shows the second Rust's
   * truncating division by 1000 gives.
   */
  function TimestampResponse(n: int): (r: Response)
    requires IsI64(n) && FromTimestampDefined(TruncDiv(n, 1000))
    ensures r.unix == n
    ensures ReadImfFixdate(r.utc) == Some(TruncDiv(n, 1000))
  {
    Response(n, ImfFixdate(TruncDiv(n, 1000)))
  }

  lemma MidnightArithmetic(days: int, secs: int, unix: int)
    requires secs == days * 86400 && unix == days * 86400000
    ensures unix % 86400000 == 0 && unix / 86400000 == days && unix / 1000 == secs
    ensures TruncDiv(unix, 1000) == secs
    ensures unix < 0 <==> days < 0
  {
  }

  /** The date branch: the date at 00:00:00 UTC, in milliseconds and as an IMF-fixdate. */
  function MidnightResponse(d: NaiveDate): (r: Response)
    ensures IsI64(r.unix) && r.unix % 86400000 == 0
    ensures CivilFromDays(r.unix / 86400000) == d
    ensures r.unix < 0 <==> d.year < 1970
    ensures ReadImfFixdate(r.utc) == Some(TruncDiv(r.unix, 1000))
    ensures |r.utc| >= 13 && r.utc[|r.utc| - 13..] == " 00:00:00 GMT"
  {
    var days := DaysFromCivil(d);
    var secs, unix := days * 86400, days * 86400000;
    InChronoRangeByDays(d);
    ChronoRangeBounds();
    MidnightArithmetic(days, secs, unix);
    CivilFromDaysOfDaysFromCivil(d);
    ImfFixdateAtMidnight(days);
    Response(unix, ImfFixdate(secs))
  }

  /**
   * `parse_date_or_timestamp`: an i64 is a timestamp in milliseconds; otherwise the first of the
   * ten formats that accepts the input gives a date at midnight UTC; otherwise "Invalid Date".
   */
  function ParseDateOrTimestamp(chrono: ChronoParser, input: string): (r: Result<Response>)
    requires TimestampInRange(input)
    ensures ParseI64(input).Some? ==> r.Ok? && r.value.unix == ParseI64(input).value
    ensures r.Err? <==>
      ParseI64(input).None? && forall i :: 0 <= i < |DateFormats| ==> ParseFromStr(chrono, input, DateFormats[i]).None?
    ensures r.Err? ==> r.msg == InvalidDate
    ensures r.Ok? ==> IsI64(r.value.unix) && ReadImfFixdate(r.value.utc) == Some(TruncDiv(r.value.unix, 1000))
    ensures r.Ok? && ParseI64(input).None? ==> r.value.unix % 86400000 == 0
  {
    match ParseI64(input)
    case Some(n) => Ok(TimestampResponse(n))
    case None =>
      match FirstMatch(chrono, input, DateFormats)
      case Some(d) =>
        Ok(MidnightResponse(d))
      case None => Err(InvalidDate)
  }

  // ---------------------------------------------------------------------------
  // Properties of the two branches
  // ---------------------------------------------------------------------------

  /** An i64 input never reaches the date formats: the answer is the same whatever they accept. */
  lemma IntegerBranchIgnoresFormats(chrono1: ChronoParser, chrono2: ChronoParser, input: string)
    requires TimestampInRange(input) && ParseI64(input).Some?
    ensures ParseDateOrTimestamp(chrono1, input) == ParseDateOrTimestamp(chrono2, input)
    ensures ParseDateOrTimestamp(chrono1, input) == Ok(TimestampResponse(ParseI64(input).value))
  {
  }

  /** An i64 input is echoed back with the IMF-fixdate of its truncated second. */
  lemma TimestampInput(chrono: ChronoParser, input: string, n: int)
    requires ParseI64(input) == Some(n) && FromTimestampDefined(TruncDiv(n, 1000))
    ensures TimestampInRange(input)
    ensures ParseDateOrTimestamp(chrono, input) == Ok(Response(n, ImfFixdate(TruncDiv(n, 1000))))
  {
  }

  /**
   * An i64 whose truncated second lies secs seconds into the day d is shown as d's weekday, day,
   * month and year, then the time of day secs.
   */
  lemma TimestampOnDay(chrono: ChronoParser, input: string, n: int, d: NaiveDate, secs: int)
    requires ParseI64(input) == Some(n)
    requires 0 <= secs < 86400 && TruncDiv(n, 1000) == DaysFromCivil(d) * 86400 + secs
    ensures TimestampInRange(input)
    ensures ParseDateOrTimestamp(chrono, input)
      == Ok(Response(n, DayPrefix(Weekday(DaysFromCivil(d)), d) + YearText(d.year) + TimeSuffix(secs)))
  {
    InChronoRangeByDays(d);
    TimestampInput(chrono, input, n);
    ImfFixdateOfDate(TruncDiv(n, 1000), d, secs);
  }

  /** Otherwise the earliest format in the chain that accepts the input decides the answer. */
  lemma FirstAcceptingFormatWins(chrono: ChronoParser, input: string, i: int)
    requires ParseI64(input).None? && FirstSuccessAt(chrono, input, DateFormats, i)
    ensures ParseDateOrTimestamp(chrono, input) == Ok(MidnightResponse(ParseFromStr(chrono, input, DateFormats[i]).value))
  {
  }

  /**
   * "Invalid Date" in terms of the calls made: not an i64, rejected by `"%Y-%m-%d"`, and rejected
   * by chrono under each of the nine other formats.
   */
  lemma NothingAccepts(chrono: ChronoParser, input: string)
    requires ParseI64(input).None? && ParseYmd(input).None?
    requires forall i :: 1 <= i < |DateFormats| ==> chrono(input, DateFormats[i]).None?
    ensures TimestampInRange(input)
    ensures ParseDateOrTimestamp(chrono, input) == Err(InvalidDate)
  {
    assert forall i :: 1 <= i < |DateFormats| ==> |DateFormats[i]| > |IsoDate|;
    assert forall i :: 0 <= i < |DateFormats| ==> ParseFromStr(chrono, input, DateFormats[i]).None?;
  }

  /**
   * Whatever `"%Y-%m-%d"` accepts is answered from that format alone: it is never an i64 and it is
   * the first format of the chain.
   */
  lemma IsoDateInput(chrono: ChronoParser, input: string)
    requires ParseYmd(input).Some?
    ensures TimestampInRange(input)
    ensures ParseDateOrTimestamp(chrono, input) == Ok(MidnightResponse(ParseYmd(input).value))
  {
    ParseYmdExcludesI64(input);
    assert FirstSuccessAt(chrono, input, DateFormats, 0);
  }

  /**
   * The date branch agrees with the integer branch: its `unix` is a second chrono can represent,
   * and rendering that many milliseconds gives back the same `utc`.
   */
  lemma MidnightIsTimestamp(d: NaiveDate)
    ensures FromTimestampDefined(TruncDiv(MidnightResponse(d).unix, 1000))
    ensures TimestampResponse(MidnightResponse(d).unix) == MidnightResponse(d)
  {
    var days := DaysFromCivil(d);
    InChronoRangeByDays(d);
    MidnightArithmetic(days, days * 86400, days * 86400000);
  }

  /**
   * Every answer is a fixed point: sending its `unix` back as a decimal string gives the same
   * answer, whichever branch produced it.
   */
  lemma UnixRoundTrip(chrono1: ChronoParser, chrono2: ChronoParser, input: string)
    requires TimestampInRange(input) && ParseDateOrTimestamp(chrono1, input).Ok?
    ensures var resp := ParseDateOrTimestamp(chrono1, input).value;
      TimestampInRange(IntToString(resp.unix)) && ParseDateOrTimestamp(chrono2, IntToString(resp.unix)) == Ok(resp)
  {
    var resp := ParseDateOrTimestamp(chrono1, input).value;
    ParseI64OfIntToString(resp.unix);
    if ParseI64(input).None? {
      var d := FirstMatch(chrono1, input, DateFormats).value;
      MidnightIsTimestamp(d);
    }
  }

  /** The IMF-fixdate of a midnight spells out the date's own weekday, day, month and year. */
  lemma MidnightUtc(d: NaiveDate)
    ensures MidnightResponse(d).utc == DayPrefix(Weekday(DaysFromCivil(d)), d) + YearText(d.year) + " 00:00:00 GMT"
  {
    CivilFromDaysOfDaysFromCivil(d);
    ImfFixdateOfMidnight(DaysFromCivil(d), d);
  }

  /**
   * A date written as `YYYY-MM-DD` is answered with that date's midnight: its day count times
   * 86,400,000 and an IMF-fixdate naming the same day, month and year.
   */
  lemma IsoDateAnswer(chrono: ChronoParser, d: NaiveDate)
    ensures TimestampInRange(FormatYmd(d))
    ensures var r := ParseDateOrTimestamp(chrono, FormatYmd(d));
      && r.Ok?
      && r.value.unix == DaysFromCivil(d) * 86400000
      && r.value.utc == DayPrefix(Weekday(DaysFromCivil(d)), d) + YearText(d.year) + " 00:00:00 GMT"
  {
    ParseYmdOfFormatYmd(d);
    IsoDateInput(chrono, FormatYmd(d));
    MidnightUtc(d);
  }
}
