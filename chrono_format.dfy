/**
 * The part of chrono's `format` this service uses: the items `%a %d %b %Y %H %M %S`
 * and `%m`, at offset zero, and the one layout the service renders every instant with,
 * `"%a, %d %b %Y %H:%M:%S GMT"` (the IMF-fixdate of section 7.1.1.1 of RFC 7231).
 */
module ChronoFormat {
  import opened Wrappers
  import opened Calendar
  import opened Decimal

  /** `%a`, indexed by Weekday (Sunday = 0). */
  const WeekdayNames: seq<string> := ["Sun", "Mon", "Tue", "Wed", "Thu", "Fri", "Sat"]
  /** `%b`, indexed by month - 1. */
  const MonthNames: seq<string> := ["Jan", "Feb", "Mar", "Apr", "May", "Jun", "Jul", "Aug", "Sep", "Oct", "Nov", "Dec"]

  /** `%d`, `%m`, `%H`, `%M`, `%S`: two digits, zero-padded. */
  function TwoDigits(n: nat): (s: string)
    requires n < 100
    ensures |s| == 2 && AllDigits(s) && DigitsValue(s) == n
  {
    var s := [DigitChar(n / 10), DigitChar(n % 10)];
    assert s[..1] == [DigitChar(n / 10)] && s[..1][..0] == [];
    assert DigitsValue(s[..1]) == n / 10;
    s
  }

  /**
   * `%Y`: the year as four zero-padded digits when it lies in 0..=9999, otherwise
   * with an explicit sign and at least four digits (chrono writes `{:+05}` there).
   */
  function YearText(y: int): (s: string)
    ensures |s| >= 4
    ensures ReadYearText(s) == Some(y)
    ensures 0 <= y < 10000 ==> |s| == 4 && AllDigits(s)
    ensures !(0 <= y < 10000) ==> s[0] == (if y < 0 then '-' else '+') && AllDigits(s[1..])
    ensures !(0 <= y < 10000) ==> |s| == 5 || s[1] != '0'
  {
    if 0 <= y < 10000 then
      assert Pow10(4) == 10000;
      PaddedDigits(y, 4)
    else SignedYearText(y)
  }

  /** `%Y` outside 0..=9999: the sign, then the magnitude padded to four digits. */
  function SignedYearText(y: int): (s: string)
    requires !(0 <= y < 10000)
    ensures |s| >= 5 && s[0] == (if y < 0 then '-' else '+') && AllDigits(s[1..])
    ensures |s| == 5 || s[1] != '0'
    ensures ReadYearText(s) == Some(y)
  {
    var magnitude: nat := if y < 0 then -y else y;
    var sign: char := if y < 0 then '-' else '+';
    var digits := PaddedDigits(magnitude, 4);
    SignedText(sign, digits, magnitude, y < 0)
  }

  /** A sign followed by at least four digits without superfluous leading zeros. */
  function SignedText(sign: char, digits: string, magnitude: nat, negative: bool): (s: string)
    requires sign == (if negative then '-' else '+') && magnitude > 0
    requires AllDigits(digits) && DigitsValue(digits) == magnitude && |digits| >= 4
    requires |digits| == 4 || digits[0] != '0'
    ensures |s| >= 5 && s[0] == sign && AllDigits(s[1..]) && (|s| == 5 || s[1] != '0')
    ensures ReadYearText(s) == Some(if negative then -(magnitude as int) else magnitude)
  {
    var s := [sign] + digits;
    assert s[1..] == digits;
    ReadSignedYearText(s, magnitude, negative);
    s
  }

  lemma ReadSignedYearText(s: string, magnitude: nat, negative: bool)
    requires |s| >= 5 && s[0] == (if negative then '-' else '+') && AllDigits(s[1..]) && DigitsValue(s[1..]) == magnitude
    ensures ReadYearText(s) == Some(if negative then -(magnitude as int) else magnitude)
  {
  }

  /** Reads back a whole year field as `%Y` writes it: four digits, or a sign and four or more digits. */
  function ReadYearText(s: string): Option<int>
  {
    if |s| == 4 && AllDigits(s) then Some(DigitsValue(s))
    else if |s| >= 5 && (s[0] == '+' || s[0] == '-') && AllDigits(s[1..]) then
      Some(if s[0] == '-' then -(DigitsValue(s[1..]) as int) else DigitsValue(s[1..]))
    else None
  }

  lemma NamesHaveThreeLetters()
    ensures forall i :: 0 <= i < |WeekdayNames| ==> |WeekdayNames[i]| == 3
    ensures forall i :: 0 <= i < |MonthNames| ==> |MonthNames[i]| == 3
  {
  }

  /** `"%a, %d %b "` of the date d, whose weekday is w. */
  function DayPrefix(w: int, d: Date): (s: string)
    requires 0 <= w < 7 && d.IsCalendarDate()
    ensures |s| == 12
  {
    NamesHaveThreeLetters();
    WeekdayNames[w] + ", " + TwoDigits(d.day) + " " + MonthNames[d.month - 1] + " "
  }

  /** `" %H:%M:%S GMT"` of the time of day secs seconds after midnight. */
  function TimeSuffix(secs: int): (s: string)
    requires 0 <= secs < 86400
    ensures |s| == 13
  {
    " " + TwoDigits(secs / 3600) + ":" + TwoDigits(secs / 60 % 60) + ":" + TwoDigits(secs % 60) + " GMT"
  }

  /**
   * `"%a, %d %b %Y %H:%M:%S GMT"` of the instant t seconds after 1970-01-01T00:00:00Z,
   * viewed at offset zero; the day is t's floor quotient by 86400 and the time of day its remainder.
   */
  function ImfFixdate(t: int): (s: string)
    ensures |s| >= 29
    ensures ReadImfFixdate(s) == Some(t)
  {
    var days := t / 86400;
    var d := CivilFromDays(days);
    ReadRenderedFields(Weekday(days), d, t % 86400, t);
    DayPrefix(Weekday(days), d) + YearText(d.year) + TimeSuffix(t % 86400)
  }

  /** `"%Y-%m-%d"` of a date. */
  function FormatYmd(d: Date): (s: string)
    requires d.IsCalendarDate()
    ensures |s| >= 10
  {
    YearText(d.year) + "-" + TwoDigits(d.month) + "-" + TwoDigits(d.day)
  }

  // ---------------------------------------------------------------------------
  // Reading an IMF-fixdate back
  // ---------------------------------------------------------------------------

  /** Position of x in names, if it occurs. */
  function IndexOf(names: seq<string>, x: string): (r: Option<nat>)
    ensures r.Some? ==> r.value < |names| && names[r.value] == x
    ensures r.None? ==> x !in names
    ensures r.Some? ==> forall j :: 0 <= j < r.value ==> names[j] != x
  {
    if names == [] then None
    else if names[0] == x then Some(0)
    else match IndexOf(names[1..], x)
      case None => None
      case Some(i) => Some(i + 1)
  }

  /** Reads `"%a, %d %b "`: the weekday's number, the month and the day of the month. */
  function ReadDayPrefix(h: string): Option<(int, int, int)>
  {
    if |h| != 12 || h[3..5] != ", " || h[7] != ' ' || h[11] != ' ' || !AllDigits(h[5..7]) then None
    else match (IndexOf(WeekdayNames, h[..3]), IndexOf(MonthNames, h[8..11]))
      case (Some(w), Some(m)) => Some((w, m + 1, DigitsValue(h[5..7])))
      case _ => None
  }

  /** Reads `" %H:%M:%S GMT"`: the seconds since midnight. */
  function ReadTimeSuffix(x: string): Option<int>
  {
    if |x| != 13 || x[0] != ' ' || x[3] != ':' || x[6] != ':' || x[9..] != " GMT"
      || !AllDigits(x[1..3]) || !AllDigits(x[4..6]) || !AllDigits(x[7..9])
    then None
    else
      var hh, mm, ss := DigitsValue(x[1..3]), DigitsValue(x[4..6]), DigitsValue(x[7..9]);
      if hh < 24 && mm < 60 && ss < 60 then Some(hh * 3600 + mm * 60 + ss) else None
  }

  /**
   * The instant, in seconds since 1970-01-01T00:00:00Z, that an IMF-fixdate names; None when the text
   * is not one, names no calendar date or time of day, or names the wrong weekday.
   */
  function ReadImfFixdate(s: string): Option<int>
  {
    if |s| < 29 then None
    else
      var day, year, time := ReadDayPrefix(s[..12]), ReadYearText(s[12..|s| - 13]), ReadTimeSuffix(s[|s| - 13..]);
      if day.None? || year.None? || time.None? then None
      else
        var d := Date(year.value, day.value.1, day.value.2);
        if d.IsCalendarDate() && Weekday(DaysFromCivil(d)) == day.value.0 then Some(DaysFromCivil(d) * 86400 + time.value)
        else None
  }

  lemma NamesDistinct()
    ensures forall i, j :: 0 <= i < j < |WeekdayNames| ==> WeekdayNames[i] != WeekdayNames[j]
    ensures forall i, j :: 0 <= i < j < |MonthNames| ==> MonthNames[i] != MonthNames[j]
  {
  }

  lemma Split3(a: string, b: string, c: string)
    ensures var s := a + b + c;
      s[..|a|] == a && s[|a|..|s| - |c|] == b && s[|s| - |c|..] == c
  {
  }

  /** In a list without repeats, the position of an element is where it stands. */
  lemma {:induction false} IndexOfDistinct(names: seq<string>, i: nat)
    requires i < |names|
    requires forall j, k :: 0 <= j < k < |names| ==> names[j] != names[k]
    ensures IndexOf(names, names[i]) == Some(i)
  {
    if i > 0 {
      IndexOfDistinct(names[1..], i - 1);
    }
  }

  lemma Split6(a: string, b: string, c: string, e: string, f: string, g: string)
    requires |a| == 3 && |b| == 2 && |c| == 2 && |e| == 1 && |f| == 3 && |g| == 1
    ensures var h := a + b + c + e + f + g;
      && h[..3] == a && h[3..5] == b && h[5..7] == c && h[7] == e[0] && h[8..11] == f && h[11] == g[0]
  {
    var h := a + b + c + e + f + g;
    assert h[..3] == a;
    assert h[3..5] == b;
    assert h[5..7] == c;
    assert h[8..11] == f;
  }

  lemma ReadDayPrefixOfDayPrefix(w: int, d: Date)
    requires 0 <= w < 7 && d.IsCalendarDate()
    ensures ReadDayPrefix(DayPrefix(w, d)) == Some((w, d.month, d.day))
  {
    NamesHaveThreeLetters();
    Split6(WeekdayNames[w], ", ", TwoDigits(d.day), " ", MonthNames[d.month - 1], " ");
    NamesDistinct();
    IndexOfDistinct(WeekdayNames, w);
    IndexOfDistinct(MonthNames, d.month - 1);
  }

  lemma SplitTime(a: string, b: string, c: string)
    requires |a| == 2 && |b| == 2 && |c| == 2
    ensures var x := " " + a + ":" + b + ":" + c + " GMT";
      && |x| == 13 && x[0] == ' ' && x[1..3] == a && x[3] == ':' && x[4..6] == b && x[6] == ':'
      && x[7..9] == c && x[9..] == " GMT"
  {
    var x := " " + a + ":" + b + ":" + c + " GMT";
    assert x[1..3] == a;
    assert x[4..6] == b;
    assert x[7..9] == c;
    assert x[9..] == " GMT";
  }

  /** Hours, minutes and seconds of a time of day put back together. */
  lemma TimeOfDayParts(secs: int)
    requires 0 <= secs < 86400
    ensures secs / 3600 < 24 && secs / 60 % 60 < 60 && secs % 60 < 60
    ensures (secs / 3600) * 3600 + (secs / 60 % 60) * 60 + secs % 60 == secs
  {
    var minutes := secs / 60;
    assert minutes * 60 + secs % 60 == secs;
    assert minutes / 60 == secs / 3600;
    assert (minutes / 60) * 60 + minutes % 60 == minutes;
  }

  lemma ReadTimeSuffixOfTimeSuffix(secs: int)
    requires 0 <= secs < 86400
    ensures ReadTimeSuffix(TimeSuffix(secs)) == Some(secs)
  {
    SplitTime(TwoDigits(secs / 3600), TwoDigits(secs / 60 % 60), TwoDigits(secs % 60));
    TimeOfDayParts(secs);
  }

  /** ReadImfFixdate takes a text apart into the three fields it reads. */
  lemma ReadImfFixdateOfFields(s: string, head: string, year: string, tail: string, w: int, d: Date, secs: int, t: int)
    requires s == head + year + tail
    requires |head| == 12 && |tail| == 13 && |year| >= 4
    requires ReadDayPrefix(head) == Some((w, d.month, d.day))
    requires ReadYearText(year) == Some(d.year)
    requires ReadTimeSuffix(tail) == Some(secs)
    requires d.IsCalendarDate() && Weekday(DaysFromCivil(d)) == w
    requires t == DaysFromCivil(d) * 86400 + secs
    ensures ReadImfFixdate(s) == Some(t)
  {
    Split3(head, year, tail);
  }

  /** The rendering of secs seconds into the calendar date d reads back as that instant. */
  lemma ReadRenderedFields(w: int, d: Date, secs: int, t: int)
    requires 0 <= secs < 86400 && d.IsCalendarDate() && w == Weekday(DaysFromCivil(d))
    requires t == DaysFromCivil(d) * 86400 + secs
    ensures ReadImfFixdate(DayPrefix(w, d) + YearText(d.year) + TimeSuffix(secs)) == Some(t)
  {
    ReadDayPrefixOfDayPrefix(w, d);
    ReadTimeSuffixOfTimeSuffix(secs);
    ReadImfFixdateOfFields(DayPrefix(w, d) + YearText(d.year) + TimeSuffix(secs),
      DayPrefix(w, d), YearText(d.year), TimeSuffix(secs), w, d, secs, t);
  }

  /** Distinct instants render differently. */
  lemma ImfFixdateInjective(t1: int, t2: int)
    requires ImfFixdate(t1) == ImfFixdate(t2)
    ensures t1 == t2
  {
  }

  /** An instant on a whole day renders the time of day as midnight. */
  lemma ImfFixdateAtMidnight(days: int)
    ensures var s := ImfFixdate(days * 86400);
      s[|s| - 13..] == " 00:00:00 GMT"
  {
    var t := days * 86400;
    assert t / 86400 == days && t % 86400 == 0;
    var d := CivilFromDays(days);
    assert TwoDigits(0) == "00" by {
      assert DigitsValue(TwoDigits(0)) == 0;
    }
    assert TimeSuffix(0) == " 00:00:00 GMT";
    var s := ImfFixdate(t);
    assert s[|s| - 13..] == TimeSuffix(0);
  }

  /** At midnight the IMF-fixdate is the day's prefix and year followed by a zero time of day. */
  lemma ImfFixdateOfMidnight(days: int, d: Date)
    requires d == CivilFromDays(days)
    ensures ImfFixdate(days * 86400) == DayPrefix(Weekday(days), d) + YearText(d.year) + " 00:00:00 GMT"
  {
    var t := days * 86400;
    assert t / 86400 == days && t % 86400 == 0;
    MidnightTimeSuffix();
  }

  lemma MidnightTimeSuffix()
    ensures TimeSuffix(0) == " 00:00:00 GMT"
  {
    assert TwoDigits(0) == "00" by {
      assert DigitsValue(TwoDigits(0)) == 0;
    }
  }

  /** The IMF-fixdate of days * 86400 + secs names the day's date and the time of day secs. */
  lemma ImfFixdateOfFields(t: int, days: int, secs: int, d: Date)
    requires t == days * 86400 + secs && 0 <= secs < 86400 && d == CivilFromDays(days)
    ensures ImfFixdate(t) == DayPrefix(Weekday(days), d) + YearText(d.year) + TimeSuffix(secs)
  {
    assert t / 86400 == days && t % 86400 == secs;
  }

  /**
   * The IMF-fixdate of the instant secs seconds into the day d names d, its weekday, and the time
   * of day secs.
   */
  lemma ImfFixdateOfDate(t: int, d: Date, secs: int)
    requires d.IsCalendarDate() && 0 <= secs < 86400 && t == DaysFromCivil(d) * 86400 + secs
    ensures ImfFixdate(t) == DayPrefix(Weekday(DaysFromCivil(d)), d) + YearText(d.year) + TimeSuffix(secs)
  {
    CivilFromDaysOfDaysFromCivil(d);
    ImfFixdateOfFields(t, DaysFromCivil(d), secs, d);
  }
}
