/**
 * The six-week, Sunday-first month layout that both calendars draw: 42 consecutive days
 * starting on the Sunday on or before the 1st of the displayed month. `LayoutCell` is the
 * reference definition the two `generateDays` implementations are proved against.
 */
module MonthLayout {
  import opened JsDate

  /** One square of the grid: the number shown, whether it belongs to the displayed month, its date. */
  datatype Cell = Cell(day: int, isCurrentMonth: bool, date: Date)

  /** Six weeks of seven days. */
  const GridSize: int := 42

  /** The (year, month) before and after a month, wrapping at January and December. */
  function PrevYear(y: int, m: int): int { if m == 0 then y - 1 else y }
  function PrevMonthIndex(m: int): int { if m == 0 then 11 else m - 1 }
  function NextYear(y: int, m: int): int { if m == 11 then y + 1 else y }
  function NextMonthIndex(m: int): int { if m == 11 then 0 else m + 1 }

  /**
   * Cell `i` of the layout for `new Date(year, month, 1)`: the day `i - w` days after that 1st,
   * where `w` is the 1st's weekday; it belongs to the displayed month when its year and month do.
   */
  function LayoutCell(year: int, month: int, i: int): Cell
    requires 0 <= month < 12
  {
    var first := MonthStart(year, month);
    var d := NormalizeDay(first.year, first.month, 1 - Weekday(first) + i);
    Cell(d.day, d.year == first.year && d.month == first.month, d)
  }

  /** Cell `i` is `i` days after cell 0, and cell 0 is the 1st moved back by its weekday. */
  lemma LayoutCellDayNumber(year: int, month: int, i: int)
    requires 0 <= month < 12
    ensures DayOf(LayoutCell(year, month, i).date)
            == DayOf(MonthStart(year, month)) - Weekday(MonthStart(year, month)) + i
  {
    var first := MonthStart(year, month);
    NormalizeDayNumber(first.year, first.month, 1 - Weekday(first) + i);
  }

  /** Neighbouring cells are neighbouring days. */
  lemma LayoutConsecutive(year: int, month: int, i: int)
    requires 0 <= month < 12
    ensures DayOf(LayoutCell(year, month, i + 1).date) == DayOf(LayoutCell(year, month, i).date) + 1
  {
    LayoutCellDayNumber(year, month, i);
    LayoutCellDayNumber(year, month, i + 1);
  }

  /** The grid's first column is Sunday. */
  lemma LayoutStartsOnSunday(year: int, month: int)
    requires 0 <= month < 12
    ensures Weekday(LayoutCell(year, month, 0).date) == 0
  {
    LayoutCellDayNumber(year, month, 0);
    StepBackToSunday(MonthStart(year, month), LayoutCell(year, month, 0).date);
  }

  // ---------------------------------------------------------------------------
  // Calendar steps between neighbouring months

  /** Day in range needs no rolling over. */
  lemma NormalizeInRange(y: int, m: int, d: int)
    requires 0 <= m < 12 && 1 <= d <= DaysInMonth(y, m)
    ensures NormalizeDay(y, m, d) == DateTime(y, m, d, 0)
  {
  }

  /** The 1st of a month comes one previous-month length after the 1st of the previous month. */
  lemma PrevMonthStep(y: int, m: int)
    requires 0 <= m < 12
    ensures DayNumber(y, m, 1)
            == DayNumber(PrevYear(y, m), PrevMonthIndex(m), 1) + DaysInMonth(PrevYear(y, m), PrevMonthIndex(m))
  {
    if m == 0 {
      YearStartStep(y - 1);
    } else {
      MonthStartStep(y, m);
    }
  }

  /** The 1st of the next month comes one month length after the 1st of this one. */
  lemma NextMonthStep(y: int, m: int)
    requires 0 <= m < 12
    ensures DayNumber(NextYear(y, m), NextMonthIndex(m), 1) == DayNumber(y, m, 1) + DaysInMonth(y, m)
  {
    if m == 11 {
      YearStartStep(y);
    } else {
      MonthStartStep(y, m + 1);
    }
  }

  // ---------------------------------------------------------------------------
  // The constructor calls the grids make, for a month index `month` of 0..11

  /** `new Date(year, month, k)` for a day `k` of that month. */
  lemma MakeDateThisMonth(year: int, month: int, k: int)
    requires 0 <= month < 12 && 1 <= k <= DaysInMonth(ConstructorYear(year), month)
    ensures MakeDate(year, month, k) == DateTime(ConstructorYear(year), month, k, 0)
  {
    NormalizeInRange(ConstructorYear(year), month, k);
  }

  /** `new Date(year, month - 1, k)` for a day `k` of the previous month. */
  lemma MakeDatePrevMonth(year: int, month: int, k: int)
    requires 0 <= month < 12
    requires 1 <= k <= DaysInMonth(PrevYear(ConstructorYear(year), month), PrevMonthIndex(month))
    ensures MakeDate(year, month - 1, k)
            == DateTime(PrevYear(ConstructorYear(year), month), PrevMonthIndex(month), k, 0)
  {
    var y := ConstructorYear(year);
    assert (month - 1) / 12 == if month == 0 then -1 else 0;
    assert (month - 1) % 12 == PrevMonthIndex(month);
    NormalizeInRange(PrevYear(y, month), PrevMonthIndex(month), k);
  }

  /** `new Date(year, month + 1, k)` for a day `k` of the next month. */
  lemma MakeDateNextMonth(year: int, month: int, k: int)
    requires 0 <= month < 12
    requires 1 <= k <= DaysInMonth(NextYear(ConstructorYear(year), month), NextMonthIndex(month))
    ensures MakeDate(year, month + 1, k)
            == DateTime(NextYear(ConstructorYear(year), month), NextMonthIndex(month), k, 0)
  {
    var y := ConstructorYear(year);
    assert (month + 1) / 12 == if month == 11 then 1 else 0;
    assert (month + 1) % 12 == NextMonthIndex(month);
    NormalizeInRange(NextYear(y, month), NextMonthIndex(month), k);
  }

  /** `new Date(year, month, 0)` is the last day of the previous month. */
  lemma MakeDateDayZero(year: int, month: int)
    requires 0 <= month < 12
    ensures var y := ConstructorYear(year);
            MakeDate(year, month, 0)
            == DateTime(PrevYear(y, month), PrevMonthIndex(month),
                        DaysInMonth(PrevYear(y, month), PrevMonthIndex(month)), 0)
  {
    var y := ConstructorYear(year);
    var py, pm := PrevYear(y, month), PrevMonthIndex(month);
    var n := DaysInMonth(py, pm);
    if month == 0 {
      assert NormalizeDay(y, 0, 0) == NormalizeDay(y - 1, 11, 31);
    } else {
      assert NormalizeDay(y, month, 0) == NormalizeDay(y, month - 1, n);
    }
    NormalizeInRange(py, pm, n);
  }

  /** `new Date(year, month + 1, 0)` is the last day of the month itself. */
  lemma MakeDateNextDayZero(year: int, month: int)
    requires 0 <= month < 12
    ensures var y := ConstructorYear(year);
            MakeDate(year, month + 1, 0) == DateTime(y, month, DaysInMonth(y, month), 0)
  {
    var y := ConstructorYear(year);
    var n := DaysInMonth(y, month);
    if month == 11 {
      assert MakeDate(year, month + 1, 0) == NormalizeDay(y + 1, 0, 0);
      assert NormalizeDay(y + 1, 0, 0) == NormalizeDay(y, 11, 31);
    } else {
      assert MakeDate(year, month + 1, 0) == NormalizeDay(y, month + 1, 0);
      assert NormalizeDay(y, month + 1, 0) == NormalizeDay(y, month, n);
    }
    NormalizeInRange(y, month, n);
  }

  // ---------------------------------------------------------------------------
  // The three runs of the layout

  /**
   * The weekday of the displayed month's 1st: the number of leading cells. `LayoutStartsOnSunday`
   * states that this many cells before the 1st is a Sunday.
   */
  function LeadingCount(year: int, month: int): (w: int)
    requires 0 <= month < 12
    ensures 0 <= w < 7
  {
    Weekday(MonthStart(year, month))
  }

  /** The length of the displayed month: `MakeDateNextDayZero` states it is the `getDate()` of day 0 of the next month. */
  function MonthLength(year: int, month: int): (n: int)
    requires 0 <= month < 12
    ensures 28 <= n <= 31
  {
    DaysInMonth(ConstructorYear(year), month)
  }

  /** The length of the month before the displayed one: `MakeDateDayZero` states it is the `getDate()` of day 0 of this month. */
  function PrevMonthLength(year: int, month: int): (n: int)
    requires 0 <= month < 12
    ensures 28 <= n <= 31
  {
    DaysInMonth(PrevYear(ConstructorYear(year), month), PrevMonthIndex(month))
  }

  /** The leading cells are the last `LeadingCount` days of the previous month, outside the displayed month. */
  lemma LeadingCell(year: int, month: int, i: int)
    requires 0 <= month < 12 && 0 <= i < LeadingCount(year, month)
    ensures var y := ConstructorYear(year);
            var k := PrevMonthLength(year, month) - LeadingCount(year, month) + 1 + i;
            LayoutCell(year, month, i) == Cell(k, false, DateTime(PrevYear(y, month), PrevMonthIndex(month), k, 0))
  {
    var y := ConstructorYear(year);
    var k := PrevMonthLength(year, month) - LeadingCount(year, month) + 1 + i;
    var first := MonthStart(year, month);
    assert first == DateTime(y, month, 1, 0);
    var c := LayoutCell(year, month, i);
    LayoutCellDayNumber(year, month, i);
    PrevMonthStep(y, month);
    assert DayOf(c.date) == DayNumber(PrevYear(y, month), PrevMonthIndex(month), 1) + k - 1;
    MidnightOfDayNumber(c.date, PrevYear(y, month), PrevMonthIndex(month), k);
    assert c.date == DateTime(PrevYear(y, month), PrevMonthIndex(month), k, 0);
  }

  /** Cells `w .. w + n - 1` are the days 1 .. n of the displayed month, in order. */
  lemma CurrentCell(year: int, month: int, k: int)
    requires 0 <= month < 12 && 1 <= k <= MonthLength(year, month)
    ensures LayoutCell(year, month, LeadingCount(year, month) + k - 1)
            == Cell(k, true, DateTime(ConstructorYear(year), month, k, 0))
  {
    var y := ConstructorYear(year);
    var first := MonthStart(year, month);
    assert first == DateTime(y, month, 1, 0);
    var i := LeadingCount(year, month) + k - 1;
    var c := LayoutCell(year, month, i);
    LayoutCellDayNumber(year, month, i);
    assert DayOf(c.date) == DayNumber(y, month, 1) + k - 1;
    MidnightOfDayNumber(c.date, y, month, k);
    assert c.date == DateTime(y, month, k, 0);
  }

  /** The cells after the displayed month are the next month's days from 1 on, outside the displayed month. */
  lemma TrailingCell(year: int, month: int, k: int)
    requires 0 <= month < 12
    requires 1 <= k <= DaysInMonth(NextYear(ConstructorYear(year), month), NextMonthIndex(month))
    ensures var y := ConstructorYear(year);
            LayoutCell(year, month, LeadingCount(year, month) + MonthLength(year, month) + k - 1)
            == Cell(k, false, DateTime(NextYear(y, month), NextMonthIndex(month), k, 0))
  {
    var y := ConstructorYear(year);
    var i := LeadingCount(year, month) + MonthLength(year, month) + k - 1;
    var first := MonthStart(year, month);
    assert first == DateTime(y, month, 1, 0);
    var c := LayoutCell(year, month, i);
    LayoutCellDayNumber(year, month, i);
    NextMonthStep(y, month);
    assert DayOf(c.date) == DayNumber(NextYear(y, month), NextMonthIndex(month), 1) + k - 1;
    MidnightOfDayNumber(c.date, NextYear(y, month), NextMonthIndex(month), k);
    assert c.date == DateTime(NextYear(y, month), NextMonthIndex(month), k, 0);
  }

  /**
   * The numbering the grid shows: the previous month's tail, then 1 .. n, then at least five
   * days of the next month numbered from 1.
   */
  lemma LayoutNumbering(year: int, month: int, i: int)
    requires 0 <= month < 12 && 0 <= i < GridSize
    ensures var w, n := LeadingCount(year, month), MonthLength(year, month);
            var c := LayoutCell(year, month, i);
            && GridSize - w - n >= 5
            && (i < w ==> !c.isCurrentMonth && c.day == PrevMonthLength(year, month) - w + 1 + i)
            && (w <= i < w + n ==> c.isCurrentMonth && c.day == i - w + 1)
            && (w + n <= i ==> !c.isCurrentMonth && c.day == i - w - n + 1)
  {
    var w, n := LeadingCount(year, month), MonthLength(year, month);
    if i < w {
      LeadingCell(year, month, i);
    } else if i < w + n {
      CurrentCell(year, month, i - w + 1);
    } else {
      TrailingCell(year, month, i - w - n + 1);
    }
  }

  // ---------------------------------------------------------------------------
  // Month navigation: `new Date(d.getFullYear(), d.getMonth() - 1 / + 1, 1)`

  /** The 1st of the month `new Date(y, m - 1, 1)` lands in, for the year and month of `t`. */
  function MonthBefore(t: Date): (r: Date)
    ensures r.day == 1 && r.msOfDay == 0
  {
    MakeDate(t.year, t.month - 1, 1)
  }

  /** The 1st of the month `new Date(y, m + 1, 1)` lands in, for the year and month of `t`. */
  function MonthAfter(t: Date): (r: Date)
    ensures r.day == 1 && r.msOfDay == 0
  {
    MakeDate(t.year, t.month + 1, 1)
  }

  /** Outside the years 0..99, "previous month" is the calendar's previous month, wrapping at January. */
  lemma MonthBeforeIsPrevious(t: Date)
    requires t.year < 0 || 100 <= t.year
    ensures MonthBefore(t) == DateTime(PrevYear(t.year, t.month), PrevMonthIndex(t.month), 1, 0)
  {
    MakeDatePrevMonth(t.year, t.month, 1);
  }

  /** Outside the years 0..99, "next month" is the calendar's next month, wrapping at December. */
  lemma MonthAfterIsNext(t: Date)
    requires t.year < 0 || 100 <= t.year
    ensures MonthAfter(t) == DateTime(NextYear(t.year, t.month), NextMonthIndex(t.month), 1, 0)
  {
    MakeDateNextMonth(t.year, t.month, 1);
  }

  /** Back then forward returns to the 1st of the month, unless the step back lands in the year 99. */
  lemma MonthAfterUndoesMonthBefore(t: Date)
    requires t.year < 0 || 100 <= t.year
    requires !(t.year == 100 && t.month == 0)
    ensures MonthAfter(MonthBefore(t)) == t.(day := 1, msOfDay := 0)
  {
    MonthBeforeIsPrevious(t);
    MonthAfterIsNext(MonthBefore(t));
  }

  /** Forward then back returns to the 1st of the month, unless the step forward lands in the year 0. */
  lemma MonthBeforeUndoesMonthAfter(t: Date)
    requires t.year < 0 || 100 <= t.year
    requires !(t.year == -1 && t.month == 11)
    ensures MonthBefore(MonthAfter(t)) == t.(day := 1, msOfDay := 0)
  {
    MonthAfterIsNext(t);
    MonthBeforeIsPrevious(MonthAfter(t));
  }

  /**
   * The step back from January of the year 100 shows December of the year 99; the step forward
   * from there is read with the two-digit-year rule and lands in January 2000.
   */
  lemma CenturyRoundTrip()
    ensures MonthBefore(DateTime(100, 0, 1, 0)) == DateTime(99, 11, 1, 0)
    ensures MonthAfter(DateTime(99, 11, 1, 0)) == DateTime(2000, 0, 1, 0)
  {
    MakeDatePrevMonth(100, 0, 1);
    MakeDateNextMonth(99, 11, 1);
  }
}
