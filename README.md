# timestamp-microservice: the date normaliser, in Dafny

The service answers `GET /api/:date` with the same instant twice: `unix`, in milliseconds since
1970-01-01T00:00:00Z, and `utc`, an IMF-fixdate such as `Thu, 01 Jan 1970 00:00:00 GMT`. All of the
work happens in `parse_date_or_timestamp` (`src/main.rs`), and this project models that function:

- A path segment that Rust's `str::parse::<i64>` accepts is a millisecond count. It comes back
  unchanged as `unix`. `utc` renders the second `secs / 1000`, which Rust rounds toward zero.
- Any other segment is tried against ten `NaiveDate::parse_from_str` formats, in source order. The
  first one that accepts it gives a date, which is taken at 00:00:00 UTC.
- When nothing accepts the segment, the answer is the error "Invalid Date".

The model has seven modules:

- `Calendar`: the proleptic Gregorian calendar. It holds day counts from 1970-01-01, weekdays, and
  chrono's `NaiveDate` range, which covers years -262143 to 262142.
- `Decimal`: decimal digits, `parse::<i64>`, printing an integer, and Rust's truncating division.
- `ChronoFormat`: the renderer `"%a, %d %b %Y %H:%M:%S GMT"`, and `"%Y-%m-%d"` when writing. It also
  has an independent reader, `ReadImfFixdate`, which recovers the second from the rendered text.
  The renderer is proved against that reader.
- `ChronoParse`: chrono's `parse_from_str` for `"%Y-%m-%d"`. Numeric items skip leading Unicode
  whitespace. `%Y` takes one to four digits, or a sign followed by any number of digits. `%m` and
  `%d` take one or two digits. Trailing input is an error, and so is a date that does not exist.
- `DateNormalizer`: `Response` and `ParseDateOrTimestamp`, with the properties of both branches.
- `NormalizerExamples`: worked answers for concrete inputs.
- `Wrappers`: the `Option` and `Result` types.

The nine other formats are not modelled: the model takes them as a parameter (see "## Left out").

For negative timestamps, the code divides an i64 by 1000, and Rust's `/` rounds toward zero. So
`"-1"` and `"999"` both show the epoch's first second (`NormalizerExamples.TruncationExamples`).

## Model

| member | source | states |
|---|---|---|
| DateNormalizer.ParseDateOrTimestamp | src/main.rs:68-108 | If the input is an i64, the answer is Ok and its `unix` is that i64. The answer is Err exactly when the i64 parse fails and all ten formats fail, and its message is then "Invalid Date". Every Ok answer has an i64 `unix`, and its `utc` reads back as `unix` rounded toward zero to whole seconds. A date-branch `unix` is a whole number of days. |
| DateNormalizer.TimestampResponse | src/main.rs:70-77 | `unix` is the input unchanged, and `utc` reads back as the input truncated toward zero to seconds. |
| DateNormalizer.MidnightResponse | src/main.rs:94-102 | `unix` is an i64 and a multiple of 86,400,000. It names exactly the date parsed. It is negative exactly for years before 1970. `utc` reads back as `unix / 1000` and ends in " 00:00:00 GMT". |
| DateNormalizer.ParseFromStr | src/main.rs:79-91 | When `"%Y-%m-%d"` gives a date, the input is not an i64 and is spelled by that date's year, month and day fields. |
| DateNormalizer.FirstMatch | src/main.rs:79-92 | The `.or_else` chain is None exactly when every format fails. When it gives a date, some format is the first to accept. Whichever format is first to accept decides the result. |
| DateNormalizer.FromTimestampDefinedMeans | src/main.rs:71 | `from_timestamp(secs, 0)` is defined exactly when the day of `secs`, taken with floor division, is a date chrono can represent. |
| DateNormalizer.IntegerBranchIgnoresFormats | src/main.rs:69-77 | An i64 input gets the same answer whatever the date formats would accept: no format is consulted. |
| DateNormalizer.TimestampInput | src/main.rs:69-77 | An i64 n whose second lies in chrono's range is answered `Ok(Response(n, ImfFixdate(trunc(n/1000))))`. |
| DateNormalizer.TimestampOnDay | src/main.rs:71-75 | If an i64's truncated second lies secs seconds into day d, `utc` spells out d's weekday, day, month and year, followed by that time of day. |
| DateNormalizer.FirstAcceptingFormatWins | src/main.rs:78-103 | For input that is not an i64, the first accepting format gives the answer: that format's date at midnight. |
| DateNormalizer.NothingAccepts | src/main.rs:78-104 | Input that is not an i64, that `"%Y-%m-%d"` rejects and that the nine other formats reject is answered Err("Invalid Date"). |
| DateNormalizer.IsoDateInput | src/main.rs:79 | Anything `"%Y-%m-%d"` accepts is answered from that format alone, with the midnight of the parsed date. |
| DateNormalizer.MidnightIsTimestamp | src/main.rs:71-76 | The date branch agrees with the integer branch: `unix` of a midnight is a valid timestamp, and the integer branch renders it to the same response. |
| DateNormalizer.UnixRoundTrip | src/main.rs:68-108 | Send back any Ok answer's `unix` as a decimal string, and the answer is the same, whichever branch produced the original and whatever the formats accept. |
| DateNormalizer.MidnightUtc | src/main.rs:95-101 | The `utc` of a date's midnight is that date's weekday, day, month and year, followed by " 00:00:00 GMT". |
| DateNormalizer.IsoDateAnswer | src/main.rs:79-102 | A date written as `"%Y-%m-%d"` is answered with unix = its day count × 86,400,000 and with its own fields in `utc`. |
| Decimal.ParseI64 | src/main.rs:69 | Accepts only an optional sign followed by at least one ASCII digit. Such a text is accepted exactly when the signed value it spells fits in an i64, and the result is that value. |
| Decimal.ParseI64OfSpelling | src/main.rs:69 | Every spelling of an i64 n parses to n: no sign, '+' or '-' as n's sign allows (so "-0" too), any number of leading zeros, then n's digits. |
| Decimal.ParseI64OfIntToString | src/main.rs:69 | Every i64, printed in decimal, parses back to itself. |
| Decimal.ParseI64RejectsNonDigit | src/main.rs:69 | A non-digit after the first character makes the i64 parse fail. |
| Decimal.TruncDiv | src/main.rs:71 | The quotient rounds toward zero: the remainder has the dividend's sign and is smaller than the divisor. |
| Calendar.CivilFromDays | src/main.rs:71 | The day z days after 1970-01-01 is a calendar date whose day count is z. |
| Calendar.CivilFromDaysOfDaysFromCivil | src/main.rs:96 | Counting a date's days and converting back gives the same date. |
| Calendar.DaysFromCivilInjective | src/main.rs:96 | Two calendar dates with the same day count are equal. |
| Calendar.DaysFromCivilCountsDays | src/main.rs:96 | 1970-01-01 is day 0, and the next calendar day is one day later. |
| Calendar.Weekday | src/main.rs:74 | The weekday index lies in 0..6 and is congruent to the day count plus 4 mod 7. |
| Calendar.WeekdayOfNextDay | src/main.rs:74 | 1970-01-01 is a Thursday, and each next calendar day is the next weekday. |
| Calendar.InChronoRangeByDays | src/main.rs:71 | A date is in chrono's year range exactly when its day count lies between -96465292 and 95026236. |
| Calendar.ChronoRangeBounds | src/main.rs:96 | Those day bounds hold, and every millisecond of chrono's range fits in an i64. |
| Calendar.DaysFromCivil | src/main.rs:96 | A calendar date's day count is negative exactly when its year is before 1970. |
| ChronoFormat.TwoDigits | src/main.rs:74 | `%d`, `%H`, `%M` and `%S` write exactly two ASCII digits whose value is the number. |
| ChronoFormat.YearText | src/main.rs:74 | `%Y` writes four digits for years 0 to 9999. Otherwise it writes a sign followed by at least four digits, with no leading zero beyond those four. Either way the text reads back as the year. |
| ChronoFormat.ReadDayPrefixOfDayPrefix | src/main.rs:74 | The `"%a, %d %b "` part reads back as its weekday, month and day. |
| ChronoFormat.ReadTimeSuffixOfTimeSuffix | src/main.rs:74 | The `" %H:%M:%S GMT"` part reads back as its second of the day. |
| ChronoFormat.ImfFixdate | src/main.rs:72-75 | `"%a, %d %b %Y %H:%M:%S GMT"` of any second is at least 29 characters and reads back as that second. |
| ChronoFormat.ImfFixdateInjective | src/main.rs:72-75 | Different seconds render as different texts. |
| ChronoFormat.ImfFixdateAtMidnight | src/main.rs:97-101 | A whole number of days renders with " 00:00:00 GMT" at the end. |
| ChronoFormat.ImfFixdateOfMidnight | src/main.rs:97-101 | A day's midnight renders as its weekday, day, month, year and " 00:00:00 GMT". |
| ChronoFormat.ImfFixdateOfDate | src/main.rs:72-75 | A second secs into day d renders as d's weekday, day, month and year, followed by the time of day secs. |
| ChronoParse.TrimStart | src/main.rs:79 | What is left after skipping whitespace is a suffix of the input, everything skipped is whitespace, and the rest does not start with whitespace. |
| ChronoParse.ScanNumber | src/main.rs:79 | A successful scan reads between one and max digits, as many as there are up to max. The value is the number those digits spell, and the rest is the text after them. A scan fails only when max is 0 or the text does not start with a digit. |
| ChronoParse.ScanYear | src/main.rs:79 | When `%Y` reads a year, the input is whitespace, then a year field spelling that year, then the rest. The field is one to four digits, or a sign and digits. |
| ChronoParse.ScanTwoDigitField | src/main.rs:79 | When `%m` or `%d` reads a number, the input is whitespace, then one or two digits spelling that number, then the rest. |
| ChronoParse.ScanYearOfField | src/main.rs:79 | `%Y` reads whitespace, then any year field followed by '-', as exactly that field's year, and leaves the '-' and what follows. |
| ChronoParse.ScanTwoDigitFieldOfField | src/main.rs:79 | `%m` and `%d` read whitespace, then one or two digits followed by nothing or by '-', as exactly their number. |
| ChronoParse.ParseYmd | src/main.rs:79 | Whatever `"%Y-%m-%d"` accepts is spelled by the date it gives: whitespace, a year field, '-', whitespace, a month field, '-', whitespace, a day field, and nothing else. |
| ChronoParse.ParseYmdOfText | src/main.rs:79 | Conversely, every such text parses to exactly `from_ymd_opt` of the three numbers it spells. |
| ChronoParse.FromYmdOpt | src/main.rs:79 | A year, month and day give a date exactly when they name a calendar date in chrono's range. |
| ChronoParse.YearTextIsYearField | src/main.rs:74-79 | Every year `%Y` writes is a year field `%Y` reads. |
| ChronoParse.ParseYmdOfFields | src/main.rs:79 | Any year, month and day, written the way `"%Y-%m-%d"` writes them, parse to exactly `from_ymd_opt` of those numbers. That is None for month 13 or day 32. |
| ChronoParse.ParseYmdOfFormatYmd | src/main.rs:79 | Every representable date written with `"%Y-%m-%d"` parses back to itself. |
| ChronoParse.ParseYmdExcludesI64 | src/main.rs:69-79 | Nothing `"%Y-%m-%d"` accepts is also an i64, so the two branches never compete for an input. |
| NormalizerExamples.SubSecondTimestamps | src/main.rs:69-76 | Every millisecond count strictly between -1000 and 1000 is answered with "Thu, 01 Jan 1970 00:00:00 GMT". |
| NormalizerExamples.TruncationExamples | src/main.rs:71 | "-1" and "999" are both answered with the epoch's first second. |
| NormalizerExamples.NegativeSecondExample | src/main.rs:69-76 | "-1000" is answered with "Wed, 31 Dec 1969 23:59:59 GMT". |
| NormalizerExamples.IsoDateExample | src/main.rs:79-102 | "2015-10-21" is answered with unix 1445385600000 and utc "Wed, 21 Oct 2015 00:00:00 GMT". |
| NormalizerExamples.IsoDateUnixExample | src/main.rs:69-76 | "1445385600000" gets the same answer as "2015-10-21". |
| NormalizerExamples.MonthThirteenRejected | src/main.rs:79 | `"%Y-%m-%d"` rejects "2015-13-01". |
| NormalizerExamples.MonthThirteenNotI64 | src/main.rs:69 | "2015-13-01" is not an i64. |
| NormalizerExamples.MonthThirteenExample | src/main.rs:78-104 | "2015-13-01" is answered "Invalid Date" unless one of the nine other formats accepts it. |

## Left out

- The HTTP server, router and CORS layer (src/main.rs:7-29): these are framework wiring, not logic.
- `root` (src/main.rs:32-34): it returns a constant string.
- `now_handler` (src/main.rs:49-58): it reads the wall clock. Its rendering is the same
  `ChronoFormat.ImfFixdate` of the current second.
- `date_handler` and the JSON and path glue (src/main.rs:36-40, 61-66): serialisation is not
  modelled. The error body is the fixed string in that handler.
- The grammars of the nine formats other than `"%Y-%m-%d"` (src/main.rs:80-91). The model passes
  them in as the parameter `DateNormalizer.ChronoParser`, which may be any function of the input and
  the format. Every property is proved for every such function.
- `FixedOffset::east_opt(0)` (src/main.rs:73, 99): the zero offset leaves the instant unchanged, so
  the model renders UTC directly.
- `and_hms_opt(0, 0, 0).unwrap()` (src/main.rs:95): midnight always exists, so this step is the
  date's day count times 86,400 seconds.
- DateNormalizer.ParseDateOrTimestamp: requires that an i64 input's second lies in chrono's range.
  For other i64 inputs the source panics at the `unwrap` on src/main.rs:71. The model gives no
  answer there, and `DateNormalizer.FromTimestampDefinedMeans` says exactly which inputs those are.
- `anyhow::Error`: only its message is kept.
- chrono's own source is not part of this model. These details of it are modelled as the crate
  behaves:
  - the year range -262143..=262142;
  - whitespace skipping before numeric fields;
  - the widths `%Y`, `%m` and `%d` accept when parsing;
  - `%Y`'s sign and padding when writing.
- ChronoParse.ParseYmd: chrono's `%Y` also has an overflow check on very long digit runs. The model
  reads any number of digits after a sign. Such years fall outside chrono's range anyway, so
  `from_ymd_opt` rejects them.
