/**
 * The part of JavaScript's `Date` that the calendar relies on, over local wall-clock time
 * with no time zone and no daylight-saving shifts.
 *
 * A date is a civil record (year, 0-based month, day of month, milliseconds into the day),
 * restricted to records that name a real day. Its time value counts milliseconds from
 * 1970-01-01 00:00, so comparing dates compares time values, as `<`, `>` and `getTime()` do.
 */
module JsDate {

  const MsPerDay: int := 86_400_000
  const MsPerHour: int := 3_600_000
  const MsPerMinute: int := 60_000
  const MsPerSecond: int := 1_000

  predicate IsLeapYear(y: int) {
    y % 4 == 0 && (y % 100 != 0 || y % 400 == 0)
  }

  function DaysInYear(y: int): int {
    if IsLeapYear(y) then 366 else 365
  }

  /** Number of days in month `m` (0 = January) of year `y`. */
  function DaysInMonth(y: int, m: int): (n: int)
    requires 0 <= m < 12
    ensures 28 <= n <= 31
    ensures n == 29 <==> m == 1 && IsLeapYear(y)
  {
    if m == 1 then (if IsLeapYear(y) then 29 else 28)
    else if m == 3 || m == 5 || m == 8 || m == 10 then 30
    else 31
  }

  /** Days in the months before month `m` of a common year. */
  function CommonDaysBeforeMonth(m: int): int
    requires 0 <= m <= 12
  {
    match m
    case 0 => 0
    case 1 => 31
    case 2 => 59
    case 3 => 90
    case 4 => 120
    case 5 => 151
    case 6 => 181
    case 7 => 212
    case 8 => 243
    case 9 => 273
    case 10 => 304
    case 11 => 334
    case _ => 365
  }

  function DaysBeforeMonth(y: int, m: int): int
    requires 0 <= m <= 12
  {
    CommonDaysBeforeMonth(m) + (if 2 <= m && IsLeapYear(y) then 1 else 0)
  }

  lemma MonthStep(y: int, m: int)
    requires 0 <= m < 12
    ensures DaysBeforeMonth(y, m + 1) == DaysBeforeMonth(y, m) + DaysInMonth(y, m)
    ensures DaysBeforeMonth(y, 12) == DaysInYear(y)
  {
  }

  /** Leap years among 1..x, counted with floor division so that it extends below 1. */
  function LeapYearsThrough(x: int): int {
    x / 4 - x / 100 + x / 400
  }

  /** Days from 1970-01-01 to 1 January of year `y` (negative before 1970). */
  function DaysBeforeYear(y: int): int {
    365 * (y - 1970) + LeapYearsThrough(y - 1) - LeapYearsThrough(1969)
  }

  lemma FloorDivStep(x: int, k: int)
    requires k == 4 || k == 100 || k == 400
    ensures x / k - (x - 1) / k == if x % k == 0 then 1 else 0
  {
    var q, r := x / k, x % k;
    assert x == k * q + r && 0 <= r < k;
    if r == 0 {
      assert x - 1 == k * (q - 1) + (k - 1);
    } else {
      assert x - 1 == k * q + (r - 1);
    }
  }

  lemma DividesStep(y: int, a: int, b: int)
    requires (a == 4 && b == 100) || (a == 100 && b == 400)
    ensures y % b == 0 ==> y % a == 0
  {
    if y % b == 0 {
      var q := y / b;
      assert y == b * q;
      var c := b / a;
      assert y == a * (c * q);
    }
  }

  lemma LeapYearsStep(y: int)
    ensures LeapYearsThrough(y) - LeapYearsThrough(y - 1) == if IsLeapYear(y) then 1 else 0
  {
    FloorDivStep(y, 4);
    FloorDivStep(y, 100);
    FloorDivStep(y, 400);
    DividesStep(y, 4, 100);
    DividesStep(y, 100, 400);
  }

  lemma YearStep(y: int)
    ensures DaysBeforeYear(y + 1) == DaysBeforeYear(y) + DaysInYear(y)
  {
    LeapYearsStep(y);
  }

  /** Month `m` starts `DaysInMonth` days after month `m - 1`. */
  lemma MonthStartStep(y: int, m: int)
    requires 0 < m < 12
    ensures DayNumber(y, m, 1) == DayNumber(y, m - 1, 1) + DaysInMonth(y, m - 1)
  {
    MonthStep(y, m - 1);
  }

  /** January of `y + 1` starts 31 days after December of `y`. */
  lemma YearStartStep(y: int)
    ensures DayNumber(y + 1, 0, 1) == DayNumber(y, 11, 1) + 31
  {
    YearStep(y);
    MonthStep(y, 11);
  }

  lemma {:induction false} DaysBeforeYearGrows(a: int, b: int)
    requires a < b
    ensures DaysBeforeYear(a) + DaysInYear(a) <= DaysBeforeYear(b)
    decreases b - a
  {
    YearStep(a);
    if a + 1 < b {
      DaysBeforeYearGrows(a + 1, b);
    }
  }

  /** Day number of (y, m, d), day 0 being 1970-01-01. */
  function DayNumber(y: int, m: int, d: int): int
    requires 0 <= m < 12
  {
    DaysBeforeYear(y) + DaysBeforeMonth(y, m) + d - 1
  }

  datatype DateTime = DateTime(year: int, month: int, day: int, msOfDay: int)

  predicate ValidDateTime(t: DateTime) {
    && 0 <= t.month < 12
    && 1 <= t.day <= DaysInMonth(t.year, t.month)
    && 0 <= t.msOfDay < MsPerDay
  }

  /** A `Date` that holds a time value: always a real calendar day. */
  type Date = t: DateTime | ValidDateTime(t) witness DateTime(1970, 0, 1, 0)

  function DayOf(t: Date): int {
    DayNumber(t.year, t.month, t.day)
  }

  /** `getTime()`. */
  function TimeValue(t: Date): (r: int)
    ensures DayOf(t) * MsPerDay <= r < (DayOf(t) + 1) * MsPerDay
  {
    DayOf(t) * MsPerDay + t.msOfDay
  }

  /**
   * `getDay()`: 0 = Sunday .. 6 = Saturday; 1970-01-01 was a Thursday. Which days are
   * Sundays is stated by `StepBackToSunday`.
   */
  function Weekday(t: Date): (w: int)
    ensures 0 <= w < 7
  {
    (DayOf(t) + 4) % 7
  }

  /** Going back from any day by its weekday lands on a Sunday. */
  lemma StepBackToSunday(t: Date, s: Date)
    requires DayOf(s) == DayOf(t) - Weekday(t)
    ensures Weekday(s) == 0
  {
    SundayArithmetic(DayOf(t), DayOf(s));
  }

  lemma SundayArithmetic(x: int, y: int)
    requires y == x - (x + 4) % 7
    ensures (y + 4) % 7 == 0
  {
    assert y + 4 == 7 * ((x + 4) / 7);
  }

  /** `getHours()`; `ClockReading` states the value for a time built from hours and minutes. */
  function Hours(t: Date): (h: int)
    ensures 0 <= h < 24
  {
    t.msOfDay / MsPerHour
  }

  /** `getMinutes()`; `ClockReading` states the value for a time built from hours and minutes. */
  function Minutes(t: Date): (m: int)
    ensures 0 <= m < 60
  {
    (t.msOfDay / MsPerMinute) % 60
  }

  /** A time of day made of `h` hours and `m` minutes reads back as `h` and `m`. */
  lemma ClockReading(t: Date, h: int, m: int)
    requires 0 <= h < 24 && 0 <= m < 60
    requires t.msOfDay == h * MsPerHour + m * MsPerMinute
    ensures Hours(t) == h && Minutes(t) == m
  {
    ClockArithmetic(t.msOfDay, h, m);
  }

  lemma ClockArithmetic(x: int, h: int, m: int)
    requires 0 <= h < 24 && 0 <= m < 60
    requires x == h * 3_600_000 + m * 60_000
    ensures x / 3_600_000 == h && (x / 60_000) % 60 == m
  {
    assert x == h * 3_600_000 + m * 60_000;
    assert 0 <= m * 60_000 < 3_600_000;
    assert x / 60_000 == h * 60 + m;
  }

  /** Day `d` of month `m`, rolled over into neighbouring months when `d` is out of range. */
  function NormalizeDay(y: int, m: int, d: int): (r: Date)
    requires 0 <= m < 12
    ensures r.msOfDay == 0
    decreases if d < 1 then 1 else 0, if d < 1 then -d else d
  {
    if d < 1 then
      (if m == 0 then NormalizeDay(y - 1, 11, d + 31)
       else NormalizeDay(y, m - 1, d + DaysInMonth(y, m - 1)))
    else if d > DaysInMonth(y, m) then
      (if m == 11 then NormalizeDay(y + 1, 0, d - 31)
       else NormalizeDay(y, m + 1, d - DaysInMonth(y, m)))
    else
      DateTime(y, m, d, 0)
  }

  lemma {:induction false} NormalizeDayNumber(y: int, m: int, d: int)
    requires 0 <= m < 12
    ensures DayOf(NormalizeDay(y, m, d)) == DayNumber(y, m, 1) + d - 1
    decreases if d < 1 then 1 else 0, if d < 1 then -d else d
  {
    if d < 1 {
      if m == 0 {
        assert NormalizeDay(y, m, d) == NormalizeDay(y - 1, 11, d + 31);
        NormalizeDayNumber(y - 1, 11, d + 31);
        YearStartStep(y - 1);
      } else {
        var n := DaysInMonth(y, m - 1);
        assert NormalizeDay(y, m, d) == NormalizeDay(y, m - 1, d + n);
        NormalizeDayNumber(y, m - 1, d + n);
        MonthStartStep(y, m);
      }
    } else if d > DaysInMonth(y, m) {
      var n := DaysInMonth(y, m);
      if m == 11 {
        assert NormalizeDay(y, m, d) == NormalizeDay(y + 1, 0, d - 31);
        NormalizeDayNumber(y + 1, 0, d - 31);
        YearStartStep(y);
      } else {
        assert NormalizeDay(y, m, d) == NormalizeDay(y, m + 1, d - n);
        NormalizeDayNumber(y, m + 1, d - n);
        MonthStartStep(y, m + 1);
      }
    } else {
      assert NormalizeDay(y, m, d) == DateTime(y, m, d, 0);
    }
  }

  /** A day of a month lies strictly inside its year's range of day numbers. */
  lemma DayWithinYear(t: Date)
    ensures DaysBeforeYear(t.year) <= DayOf(t) < DaysBeforeYear(t.year) + DaysInYear(t.year)
  {
    MonthStep(t.year, t.month);
    assert DaysBeforeMonth(t.year, t.month + 1) <= DaysBeforeMonth(t.year, 12);
  }

  /** Distinct calendar days have distinct day numbers. */
  lemma DayOfInjective(a: Date, b: Date)
    requires DayOf(a) == DayOf(b)
    ensures a.year == b.year && a.month == b.month && a.day == b.day
  {
    DayWithinYear(a);
    DayWithinYear(b);
    if a.year < b.year {
      DaysBeforeYearGrows(a.year, b.year);
    } else if b.year < a.year {
      DaysBeforeYearGrows(b.year, a.year);
    }
    assert a.year == b.year;
    MonthStep(a.year, a.month);
    MonthStep(b.year, b.month);
  }

  /** A midnight is determined by its day number. */
  lemma MidnightOfDayNumber(a: Date, y: int, m: int, k: int)
    requires 0 <= m < 12 && 1 <= k <= DaysInMonth(y, m)
    requires a.msOfDay == 0 && DayOf(a) == DayNumber(y, m, 1) + k - 1
    ensures a == DateTime(y, m, k, 0)
  {
    var b: Date := DateTime(y, m, k, 0);
    DayOfInjective(a, b);
  }

  /** `isSameDay`: equal year, month and day of month, whatever the time of day. */
  predicate SameCalendarDay(a: Date, b: Date) {
    a.year == b.year && a.month == b.month && a.day == b.day
  }

  /** Two dates are on the same calendar day exactly when their day numbers agree. */
  lemma SameDayIffSameDayNumber(a: Date, b: Date)
    ensures SameCalendarDay(a, b) <==> DayOf(a) == DayOf(b)
  {
    if DayOf(a) == DayOf(b) {
      DayOfInjective(a, b);
    }
  }

  /** The year the `Date` constructor uses: arguments 0..99 mean 1900..1999. */
  function ConstructorYear(year: int): (r: int)
    ensures r < 0 || 100 <= r
    ensures year < 0 || 100 <= year ==> r == year
  {
    if 0 <= year <= 99 then 1900 + year else year
  }

  /** `new Date(year, monthIndex, day)`: local midnight, month and day rolled over. */
  function MakeDate(year: int, monthIndex: int, day: int): (r: Date)
    ensures r.msOfDay == 0
  {
    NormalizeDay(ConstructorYear(year) + monthIndex / 12, monthIndex % 12, day)
  }

  /** The first day of the month `new Date(year, monthIndex, 1)` lands in. */
  function MonthStart(year: int, monthIndex: int): (r: Date)
    ensures r == DateTime(ConstructorYear(year) + monthIndex / 12, monthIndex % 12, 1, 0)
  {
    MakeDate(year, monthIndex, 1)
  }

  lemma MakeDateDayNumber(year: int, monthIndex: int, day: int)
    ensures DayOf(MakeDate(year, monthIndex, day)) == DayOf(MonthStart(year, monthIndex)) + day - 1
  {
    NormalizeDayNumber(ConstructorYear(year) + monthIndex / 12, monthIndex % 12, day);
  }

  /** `d.setDate(n)`: day `n` of `d`'s month, rolled over, time of day kept. */
  function SetDate(t: Date, n: int): (r: Date)
    ensures r.msOfDay == t.msOfDay
    ensures DayOf(r) == DayOf(t) - t.day + n
  {
    NormalizeDayNumber(t.year, t.month, n);
    NormalizeDay(t.year, t.month, n).(msOfDay := t.msOfDay)
  }

  /** `d.setHours(h, mi, s, ms)`: the same day at the given time, carried into other days on overflow. */
  function SetHours(t: Date, h: int, mi: int, s: int, ms: int): (r: Date)
    ensures r.msOfDay == (h * MsPerHour + mi * MsPerMinute + s * MsPerSecond + ms) % MsPerDay
  {
    var total := h * MsPerHour + mi * MsPerMinute + s * MsPerSecond + ms;
    NormalizeDay(t.year, t.month, t.day + total / MsPerDay).(msOfDay := total % MsPerDay)
  }

  /** `setHours` counts the given hours, minutes, seconds and milliseconds from the day's midnight, rolling over into other days. */
  lemma SetHoursTimeValue(t: Date, h: int, mi: int, s: int, ms: int)
    ensures TimeValue(SetHours(t, h, mi, s, ms)) == DayOf(t) * MsPerDay + h * MsPerHour + mi * MsPerMinute + s * MsPerSecond + ms
  {
    var total := h * MsPerHour + mi * MsPerMinute + s * MsPerSecond + ms;
    NormalizeDayNumber(t.year, t.month, t.day + total / MsPerDay);
  }

  /** `setHours(0, 0, 0, 0)`: local midnight of the same day. */
  function StartOfDay(t: Date): (r: Date)
    ensures r == SetHours(t, 0, 0, 0, 0)
  {
    assert NormalizeDay(t.year, t.month, t.day) == DateTime(t.year, t.month, t.day, 0);
    t.(msOfDay := 0)
  }

  /** Time values order dates first by day, then by time of day. */
  lemma TimeValueOrder(a: Date, b: Date)
    ensures TimeValue(a) <= TimeValue(b) <==>
            DayOf(a) < DayOf(b) || (DayOf(a) == DayOf(b) && a.msOfDay <= b.msOfDay)
  {
    if DayOf(a) < DayOf(b) {
      assert (DayOf(a) + 1) * MsPerDay <= DayOf(b) * MsPerDay;
    } else if DayOf(b) < DayOf(a) {
      assert (DayOf(b) + 1) * MsPerDay <= DayOf(a) * MsPerDay;
    }
  }
}
