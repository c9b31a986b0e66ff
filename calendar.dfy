/**
 * Proleptic Gregorian calendar arithmetic, as chrono's `NaiveDate` performs it:
 * a civil date (year, month, day) and the number of days since 1970-01-01.
 */
module Calendar {

  /** A civil date, astronomical year numbering (year 0 is 1 BCE). */
  datatype Date = Date(year: int, month: int, day: int)
  {
    /** The date exists in the calendar. */
    predicate IsCalendarDate() {
      1 <= month <= 12 && 1 <= day <= DaysInMonth(year, month)
    }
  }

  /** The years chrono's `NaiveDate` can hold: `(i32::MIN >> 13) + 1 ..= (i32::MAX >> 13) - 1`. */
  const MinYear: int := -262143
  const MaxYear: int := 262142

  /** A date chrono can represent. */
  predicate InChronoRange(d: Date) {
    d.IsCalendarDate() && MinYear <= d.year <= MaxYear
  }

  /** chrono's `NaiveDate`: every value is a real calendar date inside chrono's year range. */
  type NaiveDate = d: Date | InChronoRange(d) witness Date(1970, 1, 1)

  predicate IsLeapYear(y: int) {
    y % 4 == 0 && (y % 100 != 0 || y % 400 == 0)
  }

  function DaysInYear(y: int): int {
    if IsLeapYear(y) then 366 else 365
  }

  function DaysInMonth(y: int, m: int): int
    requires 1 <= m <= 12
  {
    if m == 2 then (if IsLeapYear(y) then 29 else 28)
    else if m == 4 || m == 6 || m == 9 || m == 11 then 30
    else 31
  }

  /** Days of year y that lie before the first of month m. */
  function DaysBeforeMonth(y: int, m: int): int
    requires 1 <= m <= 12
  {
    [0, 31, 59, 90, 120, 151, 181, 212, 243, 273, 304, 334][m - 1]
      + (if m > 2 && IsLeapYear(y) then 1 else 0)
  }

  /** Leap years before year y, counted from a fixed origin (division floors here). */
  function LeapYearsBefore(y: int): int {
    (y - 1) / 4 - (y - 1) / 100 + (y - 1) / 400
  }

  /** Days from 1970-01-01 to January 1 of year y; negative before 1970. */
  function DaysBeforeYear(y: int): int {
    365 * (y - 1970) + LeapYearsBefore(y) - LeapYearsBefore(1970)
  }

  /** Days from 1970-01-01 to d; negative before 1970. */
  function DaysFromCivil(d: Date): (z: int)
    requires 1 <= d.month <= 12
    ensures d.IsCalendarDate() ==> (z < 0 <==> d.year < 1970)
  {
    var z := DaysBeforeYear(d.year) + DaysBeforeMonth(d.year, d.month) + d.day - 1;
    assert d.IsCalendarDate() ==> (z < 0 <==> d.year < 1970) by {
      if d.IsCalendarDate() {
        DayOfYearBounds(d);
        if d.year < 1970 {
          DaysBeforeYearStep(d.year);
          DaysBeforeYearMonotone(d.year + 1, 1970);
        } else {
          DaysBeforeYearMonotone(1970, d.year);
        }
      }
    }
    z
  }

  /** Day of the week of the day z days after 1970-01-01, counted from Sunday = 0. */
  function Weekday(z: int): (w: int)
    ensures 0 <= w < 7
    ensures (z - w) % 7 == 3
  {
    (z + 4) % 7
  }

  /** The calendar day after d. */
  function NextDay(d: Date): (e: Date)
    requires d.IsCalendarDate()
    ensures e.IsCalendarDate()
  {
    if d.day < DaysInMonth(d.year, d.month) then Date(d.year, d.month, d.day + 1)
    else if d.month < 12 then Date(d.year, d.month + 1, 1)
    else Date(d.year + 1, 1, 1)
  }

  // ---------------------------------------------------------------------------
  // Counting days year by year
  // ---------------------------------------------------------------------------

  lemma LeapYearsBeforeStep(y: int)
    ensures LeapYearsBefore(y + 1) == LeapYearsBefore(y) + (if IsLeapYear(y) then 1 else 0)
  {
    DivStep(y, 4);
    DivStep(y, 100);
    DivStep(y, 400);
    DivisorsOfLeapRule(y);
  }

  /** A multiple of 400 is one of 100, and a multiple of 100 is one of 4. */
  lemma DivisorsOfLeapRule(y: int)
    ensures y % 400 == 0 ==> y % 100 == 0
    ensures y % 100 == 0 ==> y % 4 == 0
  {
    var q, c := y / 400, y / 100;
    assert y == 400 * q + y % 400 && y == 100 * c + y % 100;
    if y % 400 == 0 {
      var m := 4 * q;
      assert y == 100 * m;
    }
    if y % 100 == 0 {
      var m := 25 * c;
      assert y == 4 * m;
    }
  }

  /** Going from y - 1 to y, the quotient by k grows by one exactly when k divides y. */
  lemma DivStep(y: int, k: int)
    requires k == 4 || k == 100 || k == 400
    ensures y / k - (y - 1) / k == (if y % k == 0 then 1 else 0)
  {
    if k == 4 {
    } else if k == 100 {
    } else {
    }
  }

  /** January 1 of the next year comes exactly one year's length later. */
  lemma DaysBeforeYearStep(y: int)
    ensures DaysBeforeYear(y + 1) == DaysBeforeYear(y) + DaysInYear(y)
  {
    LeapYearsBeforeStep(y);
  }

  /** The Gregorian calendar repeats every 400 years, which hold 146097 days. */
  lemma DaysBeforeYearCycle(c: int)
    ensures DaysBeforeYear(1970 + 400 * c) == 146097 * c
  {
    assert (1969 + 400 * c) / 4 == 492 + 100 * c;
    assert (1969 + 400 * c) / 100 == 19 + 4 * c;
    assert (1969 + 400 * c) / 400 == 4 + c;
  }

  /** Later years start later, by at least 365 days a year. */
  lemma {:induction false} DaysBeforeYearMonotone(y1: int, y2: int)
    requires y1 <= y2
    ensures DaysBeforeYear(y1) + 365 * (y2 - y1) <= DaysBeforeYear(y2)
    decreases y2 - y1
  {
    if y1 < y2 {
      DaysBeforeYearMonotone(y1, y2 - 1);
      DaysBeforeYearStep(y2 - 1);
    }
  }

  lemma DaysBeforeMonthStep(y: int, m: int)
    requires 1 <= m <= 12
    ensures m < 12 ==> DaysBeforeMonth(y, m + 1) == DaysBeforeMonth(y, m) + DaysInMonth(y, m)
    ensures m == 12 ==> DaysBeforeMonth(y, m) + DaysInMonth(y, m) == DaysInYear(y)
  {
  }

  /** The day-of-year of a calendar date lies within its year. */
  lemma DayOfYearBounds(d: Date)
    requires d.IsCalendarDate()
    ensures 0 <= DaysBeforeMonth(d.year, d.month) + d.day - 1 < DaysInYear(d.year)
  {
  }

  // ---------------------------------------------------------------------------
  // From a day count back to a civil date
  // ---------------------------------------------------------------------------

  /** Walks r days forward from January 1 of year y; gives the year reached and the 0-based day within it. */
  function YearOf(y: int, r: nat): (res: (int, nat))
    ensures y <= res.0 && res.1 < DaysInYear(res.0)
    ensures DaysBeforeYear(res.0) + res.1 == DaysBeforeYear(y) + r
    decreases r
  {
    if r < DaysInYear(y) then (y, r)
    else
      DaysBeforeYearStep(y);
      YearOf(y + 1, r - DaysInYear(y))
  }

  /** Walks r days forward from the first of month m of year y; gives the month reached and the day in it. */
  function MonthOf(y: int, m: int, r: nat): (res: (int, int))
    requires 1 <= m <= 12
    requires DaysBeforeMonth(y, m) + r < DaysInYear(y)
    ensures m <= res.0 <= 12 && 1 <= res.1 <= DaysInMonth(y, res.0)
    ensures DaysBeforeMonth(y, res.0) + res.1 - 1 == DaysBeforeMonth(y, m) + r
    decreases 12 - m
  {
    DaysBeforeMonthStep(y, m);
    if r < DaysInMonth(y, m) then (m, r + 1)
    else MonthOf(y, m + 1, r - DaysInMonth(y, m))
  }

  /** The civil date of the day z days after 1970-01-01. */
  function CivilFromDays(z: int): (d: Date)
    ensures d.IsCalendarDate() && DaysFromCivil(d) == z
  {
    DaysBeforeYearCycle(z / 146097);
    var yd := YearOf(1970 + 400 * (z / 146097), z % 146097);
    var md := MonthOf(yd.0, 1, yd.1);
    Date(yd.0, md.0, md.1)
  }

  /** Distinct calendar dates have distinct day counts. */
  lemma DaysFromCivilInjective(d1: Date, d2: Date)
    requires d1.IsCalendarDate() && d2.IsCalendarDate()
    requires DaysFromCivil(d1) == DaysFromCivil(d2)
    ensures d1 == d2
  {
    if d1.year != d2.year {
      if d1.year < d2.year { DaysFromCivilYearOrder(d1, d2); } else { DaysFromCivilYearOrder(d2, d1); }
    } else if d1.month != d2.month {
      if d1.month < d2.month { DaysFromCivilMonthOrder(d1, d2); } else { DaysFromCivilMonthOrder(d2, d1); }
    }
  }

  /** Every day of an earlier year comes before every day of a later one. */
  lemma DaysFromCivilYearOrder(d1: Date, d2: Date)
    requires d1.IsCalendarDate() && d2.IsCalendarDate() && d1.year < d2.year
    ensures DaysFromCivil(d1) < DaysFromCivil(d2)
  {
    DayOfYearBounds(d1);
    DayOfYearBounds(d2);
    DaysBeforeYearStep(d1.year);
    DaysBeforeYearMonotone(d1.year + 1, d2.year);
  }

  /** Within a year, every day of an earlier month comes before every day of a later one. */
  lemma DaysFromCivilMonthOrder(d1: Date, d2: Date)
    requires d1.IsCalendarDate() && d2.IsCalendarDate() && d1.year == d2.year && d1.month < d2.month
    ensures DaysFromCivil(d1) < DaysFromCivil(d2)
  {
    DaysBeforeMonthGap(d1.year, d1.month, d2.month);
  }

  /** A later month starts after every day of an earlier month. */
  lemma {:induction false} DaysBeforeMonthGap(y: int, m1: int, m2: int)
    requires 1 <= m1 < m2 <= 12
    ensures DaysBeforeMonth(y, m1) + DaysInMonth(y, m1) <= DaysBeforeMonth(y, m2)
    decreases m2 - m1
  {
    DaysBeforeMonthStep(y, m1);
    if m1 + 1 < m2 {
      DaysBeforeMonthGap(y, m1 + 1, m2);
    }
  }

  /** CivilFromDays inverts DaysFromCivil on calendar dates. */
  lemma CivilFromDaysOfDaysFromCivil(d: Date)
    requires d.IsCalendarDate()
    ensures CivilFromDays(DaysFromCivil(d)) == d
  {
    DaysFromCivilInjective(CivilFromDays(DaysFromCivil(d)), d);
  }

  /** DaysFromCivil counts days: 1970-01-01 is day 0 and each next day adds one. */
  lemma DaysFromCivilCountsDays(d: Date)
    requires d.IsCalendarDate()
    ensures DaysFromCivil(Date(1970, 1, 1)) == 0
    ensures DaysFromCivil(NextDay(d)) == DaysFromCivil(d) + 1
  {
    if d.day == DaysInMonth(d.year, d.month) {
      DaysBeforeMonthStep(d.year, d.month);
      if d.month == 12 {
        DaysBeforeYearStep(d.year);
      }
    }
  }

  /** 1970-01-01 was a Thursday, and the weekday advances by one each day. */
  lemma WeekdayOfNextDay(d: Date)
    requires d.IsCalendarDate()
    ensures Weekday(DaysFromCivil(Date(1970, 1, 1))) == 4
    ensures Weekday(DaysFromCivil(NextDay(d))) == (Weekday(DaysFromCivil(d)) + 1) % 7
  {
    DaysFromCivilCountsDays(d);
    WeekdaySucc(DaysFromCivil(d));
  }

  lemma WeekdaySucc(z: int)
    ensures Weekday(z + 1) == (Weekday(z) + 1) % 7
  {
    var q := (z + 4) / 7;
    assert z + 4 == 7 * q + Weekday(z);
    if Weekday(z) == 6 {
      assert z + 5 == 7 * (q + 1);
    } else {
      assert z + 5 == 7 * q + Weekday(z) + 1;
    }
  }

  // ---------------------------------------------------------------------------
  // chrono's range, as day counts
  // ---------------------------------------------------------------------------

  /** Day count of chrono's first date, MinYear-01-01. */
  const MinDays: int := DaysFromCivil(Date(MinYear, 1, 1))
  /** Day count of chrono's last date, MaxYear-12-31. */
  const MaxDays: int := DaysFromCivil(Date(MaxYear, 12, 31))

  /** A calendar date is in chrono's range exactly when its day count lies between MinDays and MaxDays. */
  lemma InChronoRangeByDays(d: Date)
    requires d.IsCalendarDate()
    ensures InChronoRange(d) <==> MinDays <= DaysFromCivil(d) <= MaxDays
  {
    DayOfYearBounds(d);
    if d.year < MinYear {
      DaysBeforeYearStep(d.year);
      DaysBeforeYearMonotone(d.year + 1, MinYear);
    } else {
      DaysBeforeYearMonotone(MinYear, d.year);
    }
    if d.year <= MaxYear {
      DaysBeforeYearStep(d.year);
      DaysBeforeYearMonotone(d.year + 1, MaxYear + 1);
      DaysBeforeYearStep(MaxYear);
    } else {
      DaysBeforeYearMonotone(MaxYear + 1, d.year);
      DaysBeforeYearStep(MaxYear);
    }
  }

  /** chrono's day counts and their millisecond timestamps fit in an i64. */
  lemma ChronoRangeBounds()
    ensures MinDays == -96465292 && MaxDays == 95026236
    ensures -0x8000_0000_0000_0000 <= MinDays * 86400000 && MaxDays * 86400000 + 86399999 <= 0x7fff_ffff_ffff_ffff
  {
  }
}
