/**
 * The month grid of the calendar page: its 42 cells, the same-day test, the has-events dot
 * and the rule that only days of the displayed month can be picked.
 */
module CalendarGrid {
  import opened Optional
  import opened JsDate
  import opened Types
  import opened MonthLayout

  /**
   * `generateDays`: the previous month's trailing days, the month's days, then the next
   * month's leading days until six weeks are filled; it is exactly the reference layout.
   */
  method GenerateDays(currentMonth: Date) returns (days: seq<Cell>)
    ensures |days| == GridSize
    ensures forall i :: 0 <= i < GridSize ==> days[i] == LayoutCell(currentMonth.year, currentMonth.month, i)
  {
    var year := currentMonth.year;
    var month := currentMonth.month;
    var firstDayOfMonth := Weekday(MakeDate(year, month, 1));
    var daysInMonth := MakeDate(year, month + 1, 0).day;
    var prevMonthDays := MakeDate(year, month, 0).day;
    MakeDateNextDayZero(year, month);
    MakeDateDayZero(year, month);
    assert firstDayOfMonth == LeadingCount(year, month);
    assert daysInMonth == MonthLength(year, month);
    assert prevMonthDays == PrevMonthLength(year, month);

    days := [];
    for i := 0 to firstDayOfMonth
      invariant |days| == i
      invariant forall j :: 0 <= j < i ==> days[j] == LayoutCell(year, month, j)
    {
      var day := prevMonthDays - firstDayOfMonth + 1 + i;
      MakeDatePrevMonth(year, month, day);
      LeadingCell(year, month, i);
      GridAppend(days, Cell(day, false, MakeDate(year, month - 1, day)), year, month);
      days := days + [Cell(day, false, MakeDate(year, month - 1, day))];
    }

    for i := 1 to daysInMonth + 1
      invariant |days| == firstDayOfMonth + i - 1
      invariant forall j :: 0 <= j < |days| ==> days[j] == LayoutCell(year, month, j)
    {
      MakeDateThisMonth(year, month, i);
      CurrentCell(year, month, i);
      GridAppend(days, Cell(i, true, MakeDate(year, month, i)), year, month);
      days := days + [Cell(i, true, MakeDate(year, month, i))];
    }

    var remainingCells := GridSize - |days|;
    for i := 1 to remainingCells + 1
      invariant |days| == firstDayOfMonth + daysInMonth + i - 1
      invariant forall j :: 0 <= j < |days| ==> days[j] == LayoutCell(year, month, j)
    {
      MakeDateNextMonth(year, month, i);
      TrailingCell(year, month, i);
      GridAppend(days, Cell(i, false, MakeDate(year, month + 1, i)), year, month);
      days := days + [Cell(i, false, MakeDate(year, month + 1, i))];
    }
  }

  /** Appending the next layout cell keeps the days equal to the layout, position by position. */
  lemma GridAppend(days: seq<Cell>, c: Cell, year: int, month: int)
    requires 0 <= month < 12 && |days| < GridSize
    requires forall j :: 0 <= j < |days| ==> days[j] == LayoutCell(year, month, j)
    requires c == LayoutCell(year, month, |days|)
    ensures forall j :: 0 <= j < |days| + 1 ==> (days + [c])[j] == LayoutCell(year, month, j)
  {
  }

  /** `hasEvents`: some event starts on the calendar day of `date`. */
  function HasEvents(events: seq<CalendarEvent>, date: Date): (r: bool)
    ensures r <==> exists e :: e in events && SameCalendarDay(e.start, date)
  {
    if events == [] then false
    else SameCalendarDay(events[0].start, date) || HasEvents(events[1..], date)
  }

  /** A cell is drawn as selected when it is in the displayed month and on the selected day. */
  predicate IsSelected(cell: Cell, selectedDate: Date) {
    cell.isCurrentMonth && SameCalendarDay(cell.date, selectedDate)
  }

  /**
   * The has-events dot: a displayed-month day with events that is not the selected day. It
   * marks exactly the displayed-month days, other than the selected one, on which an event starts.
   */
  predicate ShowsEventDot(cell: Cell, events: seq<CalendarEvent>, selectedDate: Date): (r: bool)
    ensures r <==> cell.isCurrentMonth && DayOf(cell.date) != DayOf(selectedDate)
                   && exists e :: e in events && DayOf(e.start) == DayOf(cell.date)
  {
    SameDayIffSameDayNumber(cell.date, selectedDate);
    EventsOnDayNumber(events, cell.date);
    cell.isCurrentMonth && HasEvents(events, cell.date) && !IsSelected(cell, selectedDate)
  }

  /** The date a click on the cell reports to `onDateSelect`, if any. */
  function ClickedDate(cell: Cell): (r: Option<Date>)
    ensures r.Some? <==> cell.isCurrentMonth
    ensures r.Some? ==> r.value == cell.date
  {
    if cell.isCurrentMonth then Some(cell.date) else None
  }

  /** A click in the grid can only pick a day of the displayed month. */
  lemma ClickPicksDisplayedMonth(currentMonth: Date, i: int)
    requires 0 <= i < GridSize
    ensures var year, month := currentMonth.year, currentMonth.month;
            var picked := ClickedDate(LayoutCell(year, month, i));
            picked.Some? ==> picked.value.year == ConstructorYear(year) && picked.value.month == month
  {
    LayoutNumbering(currentMonth.year, currentMonth.month, i);
    var w := LeadingCount(currentMonth.year, currentMonth.month);
    var n := MonthLength(currentMonth.year, currentMonth.month);
    if w <= i < w + n {
      CurrentCell(currentMonth.year, currentMonth.month, i - w + 1);
    }
  }

  /** Every day of the displayed month can be picked, from exactly one cell. */
  lemma EveryDayPickableOnce(currentMonth: Date, k: int, i: int)
    requires 1 <= k <= MonthLength(currentMonth.year, currentMonth.month)
    requires 0 <= i < GridSize
    ensures var year, month := currentMonth.year, currentMonth.month;
            var w := LeadingCount(year, month);
            && w + k - 1 < GridSize
            && ClickedDate(LayoutCell(year, month, w + k - 1)) == Some(DateTime(ConstructorYear(year), month, k, 0))
            && (ClickedDate(LayoutCell(year, month, i)) == Some(DateTime(ConstructorYear(year), month, k, 0))
                ==> i == w + k - 1)
  {
    var year, month := currentMonth.year, currentMonth.month;
    var w := LeadingCount(year, month);
    CurrentCell(year, month, k);
    LayoutCellDayNumber(year, month, i);
    LayoutCellDayNumber(year, month, w + k - 1);
  }

  /** Some event starts on the day of `date` exactly when some event has that day number. */
  lemma EventsOnDayNumber(events: seq<CalendarEvent>, date: Date)
    ensures HasEvents(events, date) <==> exists e :: e in events && DayOf(e.start) == DayOf(date)
  {
    forall e | e in events
      ensures SameCalendarDay(e.start, date) <==> DayOf(e.start) == DayOf(date)
    {
      SameDayIffSameDayNumber(e.start, date);
    }
  }
}
