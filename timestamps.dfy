/**
 * The export's timestamp cells, read with the format '%Y-%m-%d %H:%M', and
 * their representation as a count of minutes.
 *
 * A timestamp is the number of minutes since 0001-01-01 00:00 in the
 * proleptic Gregorian calendar, the calendar of Python's `datetime`.
 * `MinutesOrder` shows that comparing these counts is comparing the
 * datetimes, `NextMinuteCount` that the count has no gaps, and
 * `MinuteOfDay` that midnight of a day is the count rounded down to a
 * multiple of 1440.
 */
module Timestamps {
  import opened Wrappers
  import opened Numerals

  const MinutesPerDay := 1440

  datatype DateTime = DateTime(year: int, month: int, day: int, hour: int, minute: int)

  predicate IsLeapYear(y: int) {
    y % 4 == 0 && (y % 100 != 0 || y % 400 == 0)
  }

  function DaysInMonth(y: int, m: int): (n: int)
    requires 1 <= m <= 12
    ensures 28 <= n <= 31
  {
    if m == 2 then (if IsLeapYear(y) then 29 else 28)
    else if m == 4 || m == 6 || m == 9 || m == 11 then 30
    else 31
  }

  function DaysInYear(y: int): int {
    if IsLeapYear(y) then 366 else 365
  }

  /** The values `datetime` accepts: years 1 to 9999 and a real day of the month. */
  predicate Valid(dt: DateTime) {
    && 1 <= dt.year <= 9999
    && 1 <= dt.month <= 12
    && 1 <= dt.day <= DaysInMonth(dt.year, dt.month)
    && 0 <= dt.hour < 24
    && 0 <= dt.minute < 60
  }

  /** The date and time written as 'YYYY-MM-DD HH:MM'. */
  function Format(dt: DateTime): (s: string)
    requires Valid(dt)
    ensures |s| == 16
  {
    PadDigits(dt.year, 4) + "-" + PadDigits(dt.month, 2) + "-" + PadDigits(dt.day, 2)
      + " " + PadDigits(dt.hour, 2) + ":" + PadDigits(dt.minute, 2)
  }

  predicate HasLayout(s: string) {
    && |s| == 16
    && s[4] == '-' && s[7] == '-' && s[10] == ' ' && s[13] == ':'
    && AllDigits(s[0..4]) && AllDigits(s[5..7]) && AllDigits(s[8..10])
    && AllDigits(s[11..13]) && AllDigits(s[14..16])
  }

  /**
   * `datetime.strptime(s, '%Y-%m-%d %H:%M')`, restricted to the zero-padded
   * layout; a field out of range (month 13, 30 February, hour 24, year 0)
   * fails as it does in Python.
   */
  function ParseDateTime(s: string): (r: Option<DateTime>)
    ensures r.Some? ==> Valid(r.value)
  {
    if HasLayout(s) then
      var dt := DateTime(DigitsValue(s[0..4]), DigitsValue(s[5..7]), DigitsValue(s[8..10]),
                         DigitsValue(s[11..13]), DigitsValue(s[14..16]));
      if Valid(dt) then Some(dt) else None
    else None
  }

  /** Whatever parses is exactly the text `Format` writes for it ... */
  lemma ParsedIsFormatted(s: string)
    requires ParseDateTime(s).Some?
    ensures Format(ParseDateTime(s).value) == s
  {
    var dt := ParseDateTime(s).value;
    DigitsValuePad(s[0..4]);
    DigitsValuePad(s[5..7]);
    DigitsValuePad(s[8..10]);
    DigitsValuePad(s[11..13]);
    DigitsValuePad(s[14..16]);
    assert s == s[0..4] + "-" + s[5..7] + "-" + s[8..10] + " " + s[11..13] + ":" + s[14..16];
  }

  /** ... and everything `Format` writes parses back to the same value. */
  lemma FormattedParses(dt: DateTime)
    requires Valid(dt)
    ensures ParseDateTime(Format(dt)) == Some(dt)
  {
    var s := Format(dt);
    var y, mo, d, h, mi := PadDigits(dt.year, 4), PadDigits(dt.month, 2), PadDigits(dt.day, 2),
                           PadDigits(dt.hour, 2), PadDigits(dt.minute, 2);
    assert s[0..4] == y && s[5..7] == mo && s[8..10] == d && s[11..13] == h && s[14..16] == mi;
    PadDigitsValue(dt.year, 4);
    PadDigitsValue(dt.month, 2);
    PadDigitsValue(dt.day, 2);
    PadDigitsValue(dt.hour, 2);
    PadDigitsValue(dt.minute, 2);
  }

  /** Days from 0001-01-01 to January 1st of year `y`. */
  function DaysBeforeYear(y: int): int
    requires y >= 1
  {
    var p := y - 1;
    p * 365 + p / 4 - p / 100 + p / 400
  }

  /** Days from January 1st to the first day of month `m` of year `y`. */
  function DaysBeforeMonth(y: int, m: int): int
    requires 1 <= m <= 12
  {
    [0, 31, 59, 90, 120, 151, 181, 212, 243, 273, 304, 334][m - 1]
      + (if m > 2 && IsLeapYear(y) then 1 else 0)
  }

  /** Days from 0001-01-01 to the date of `dt`. */
  function DayNumber(dt: DateTime): int
    requires Valid(dt)
  {
    DaysBeforeYear(dt.year) + DaysBeforeMonth(dt.year, dt.month) + dt.day - 1
  }

  function ToMinutes(dt: DateTime): int
    requires Valid(dt)
  {
    DayNumber(dt) * MinutesPerDay + dt.hour * 60 + dt.minute
  }

  /** The timestamp of a cell, when it parses. */
  function ParseTimestamp(s: string): (r: Option<int>)
    ensures r.Some? <==> ParseDateTime(s).Some?
  {
    match ParseDateTime(s)
    case Some(dt) => Some(ToMinutes(dt))
    case None => None
  }

  /** `t.replace(hour=0, minute=0, second=0)` on a timestamp in minutes. */
  function DayStart(t: int): int {
    t - t % MinutesPerDay
  }

  /** The minutes past midnight are the clock time, and midnight is the same date at 00:00. */
  lemma MinuteOfDay(dt: DateTime)
    requires Valid(dt)
    ensures ToMinutes(dt) % MinutesPerDay == dt.hour * 60 + dt.minute
    ensures DayStart(ToMinutes(dt)) == ToMinutes(dt.(hour := 0, minute := 0))
  {
    var midnight := dt.(hour := 0, minute := 0);
    assert Valid(midnight) && DayNumber(midnight) == DayNumber(dt);
    WithinDay(DayNumber(dt), dt.hour * 60 + dt.minute);
  }

  /** A minute `r` into day `n` has remainder `r` and day start `n` days. */
  lemma WithinDay(n: int, r: int)
    requires 0 <= r < MinutesPerDay
    ensures (n * MinutesPerDay + r) % MinutesPerDay == r
    ensures DayStart(n * MinutesPerDay + r) == n * MinutesPerDay
  {
  }

  /** How a count of multiples of `k` below a number grows by one step. */
  lemma DivStep(p: int, k: int)
    requires p >= 0 && (k == 4 || k == 100 || k == 400)
    ensures (p + 1) / k == p / k + (if (p + 1) % k == 0 then 1 else 0)
  {
    if k == 4 {
      assert (p + 1) / 4 == p / 4 + (if (p + 1) % 4 == 0 then 1 else 0);
    } else if k == 100 {
      assert (p + 1) / 100 == p / 100 + (if (p + 1) % 100 == 0 then 1 else 0);
    } else {
      assert (p + 1) / 400 == p / 400 + (if (p + 1) % 400 == 0 then 1 else 0);
    }
  }

  /** A year divisible by 100 is divisible by 4 ... */
  lemma CenturyIsLeapCandidate(y: int)
    requires y % 100 == 0
    ensures y % 4 == 0
  {
    assert y == 4 * (25 * (y / 100));
  }

  /** ... and one divisible by 400 is divisible by 100. */
  lemma FourCenturiesIsCentury(y: int)
    requires y % 400 == 0
    ensures y % 100 == 0
  {
    assert y == 100 * (4 * (y / 400));
  }

  lemma DaysBeforeNextYear(y: int)
    requires y >= 1
    ensures DaysBeforeYear(y + 1) == DaysBeforeYear(y) + DaysInYear(y)
  {
    var p := y - 1;
    DivStep(p, 4);
    DivStep(p, 100);
    DivStep(p, 400);
    if y % 100 == 0 {
      CenturyIsLeapCandidate(y);
    }
    if y % 400 == 0 {
      FourCenturiesIsCentury(y);
    }
  }

  lemma {:induction false} DaysBeforeYearMonotone(y1: int, y2: int)
    requires 1 <= y1 < y2
    ensures DaysBeforeYear(y1) + DaysInYear(y1) <= DaysBeforeYear(y2)
    decreases y2 - y1
  {
    DaysBeforeNextYear(y1);
    if y1 + 1 < y2 {
      DaysBeforeYearMonotone(y1 + 1, y2);
    }
  }

  /** Each month starts right after the last day of the month before it. */
  lemma MonthStep(y: int, m: int)
    requires 1 <= m < 12
    ensures DaysBeforeMonth(y, m + 1) == DaysBeforeMonth(y, m) + DaysInMonth(y, m)
  {
  }

  /** December ends on the last day of the year. */
  lemma YearEnd(y: int)
    ensures DaysBeforeMonth(y, 12) + DaysInMonth(y, 12) == DaysInYear(y)
  {
  }

  lemma MonthsBefore(y: int, m1: int, m2: int)
    requires 1 <= m1 < m2 <= 12
    ensures DaysBeforeMonth(y, m1) + DaysInMonth(y, m1) <= DaysBeforeMonth(y, m2)
  {
  }

  lemma MonthsWithinYear(y: int, m: int)
    requires 1 <= m <= 12
    ensures DaysBeforeMonth(y, m) + DaysInMonth(y, m) <= DaysInYear(y)
  {
  }

  /** Python's comparison of two datetimes: field by field, year first. */
  predicate Before(a: DateTime, b: DateTime) {
    || a.year < b.year
    || (a.year == b.year && a.month < b.month)
    || (a.year == b.year && a.month == b.month && a.day < b.day)
    || (a.year == b.year && a.month == b.month && a.day == b.day && a.hour < b.hour)
    || (a.year == b.year && a.month == b.month && a.day == b.day && a.hour == b.hour && a.minute < b.minute)
  }

  lemma BeforeMinutes(a: DateTime, b: DateTime)
    requires Valid(a) && Valid(b) && Before(a, b)
    ensures ToMinutes(a) < ToMinutes(b)
  {
    if a.year < b.year {
      MonthsWithinYear(a.year, a.month);
      DaysBeforeYearMonotone(a.year, b.year);
      assert DayNumber(a) < DayNumber(b);
    } else if a.month < b.month {
      MonthsBefore(a.year, a.month, b.month);
      assert DayNumber(a) < DayNumber(b);
    } else if a.day < b.day {
      assert DayNumber(a) < DayNumber(b);
    }
  }

  /** Timestamps in minutes order datetimes exactly as Python compares them. */
  lemma MinutesOrder(a: DateTime, b: DateTime)
    requires Valid(a) && Valid(b)
    ensures Before(a, b) <==> ToMinutes(a) < ToMinutes(b)
    ensures ToMinutes(a) == ToMinutes(b) <==> a == b
  {
    if Before(a, b) {
      BeforeMinutes(a, b);
    } else if Before(b, a) {
      BeforeMinutes(b, a);
    } else {
      assert a == b;
    }
  }

  /** The minute after `dt` on the clock and the calendar. */
  function NextMinute(dt: DateTime): DateTime
    requires Valid(dt)
  {
    if dt.minute < 59 then dt.(minute := dt.minute + 1)
    else if dt.hour < 23 then dt.(hour := dt.hour + 1, minute := 0)
    else if dt.day < DaysInMonth(dt.year, dt.month) then dt.(day := dt.day + 1, hour := 0, minute := 0)
    else if dt.month < 12 then DateTime(dt.year, dt.month + 1, 1, 0, 0)
    else DateTime(dt.year + 1, 1, 1, 0, 0)
  }

  /** The last minute `datetime` can hold. */
  const Latest := DateTime(9999, 12, 31, 23, 59)
  const LastMinute := 5258964959

  /**
   * Consecutive minutes have consecutive counts, across the end of an hour,
   * a day, a month and a year: the count has no gaps.
   */
  lemma NextMinuteCount(dt: DateTime)
    requires Valid(dt) && dt != Latest
    ensures Valid(NextMinute(dt))
    ensures ToMinutes(NextMinute(dt)) == ToMinutes(dt) + 1
  {
    var next := NextMinute(dt);
    if dt.minute == 59 && dt.hour == 23 && dt.day == DaysInMonth(dt.year, dt.month) {
      if dt.month < 12 {
        MonthStep(dt.year, dt.month);
        assert DayNumber(next) == DayNumber(dt) + 1;
      } else {
        YearEnd(dt.year);
        DaysBeforeNextYear(dt.year);
        assert DayNumber(next) == DayNumber(dt) + 1;
      }
    }
  }

  /** Every valid date and time lies between minute 0 and `LastMinute`. */
  lemma InRange(dt: DateTime)
    requires Valid(dt)
    ensures Valid(Latest) && ToMinutes(Latest) == LastMinute
    ensures 0 <= ToMinutes(dt) <= LastMinute
  {
    assert DaysBeforeYear(9999) == 3651694;
    MinutesOrder(dt, Latest);
    assert DaysBeforeYear(dt.year) >= 0;
  }

  /** Adding a day to midnight `dayStart` goes past the last minute of `datetime`. */
  predicate DayOverflows(dayStart: int) {
    dayStart + MinutesPerDay > LastMinute
  }

  /** The day after a parsed date overflows exactly when the date is 9999-12-31. */
  lemma OverflowsOnLastDay(dt: DateTime)
    requires Valid(dt)
    ensures DayOverflows(DayStart(ToMinutes(dt))) <==> dt.year == 9999 && dt.month == 12 && dt.day == 31
  {
    MinuteOfDay(dt);
    InRange(dt);
    var midnight := dt.(hour := 0, minute := 0);
    var lastMidnight := Latest.(hour := 0, minute := 0);
    assert DayStart(ToMinutes(dt)) == DayNumber(dt) * MinutesPerDay;
    assert ToMinutes(lastMidnight) == LastMinute - 1439;
    if !(dt.year == 9999 && dt.month == 12 && dt.day == 31) {
      MinutesOrder(midnight, lastMidnight);
      assert DayNumber(dt) < DayNumber(lastMidnight);
    }
  }
}
