/**
 * The date picker of the event form: its own 42-cell month layout, a same-day test that
 * tolerates missing or invalid dates, the displayed month with its prev/next buttons, and
 * the rule that only days of the displayed month can be chosen, by click or keyboard.
 */
module PopupCalendar {
  import opened Optional
  import opened JsDate
  import opened MonthLayout

  /**
   * A cell as the picker builds it: the previous and next month's days are rebuilt with
   * `new Date(y, m, d)` from their own year and month, which reads the years 0..99 as 1900..1999.
   */
  function Rebuilt(cell: Cell): Cell {
    cell.(date := MakeDate(cell.date.year, cell.date.month, cell.date.day))
  }

  /**
   * The two displayed months whose neighbouring month falls in the years 0..99: January of
   * the year 100 (its leading days are in 99) and December of the year -1 (its trailing days are in 0).
   */
  predicate CenturyEdge(year: int, month: int) {
    (ConstructorYear(year) == 100 && month == 0) || (ConstructorYear(year) == -1 && month == 11)
  }

  /** `generateDays` of the picker: two counted loops, then a `while` loop that fills six weeks. */
  method GenerateDays(displayMonth: Date) returns (cells: seq<Cell>)
    ensures |cells| == GridSize
    ensures forall i :: 0 <= i < GridSize ==> cells[i] == Rebuilt(LayoutCell(displayMonth.year, displayMonth.month, i))
  {
    var year := displayMonth.year;
    var month := displayMonth.month;
    var firstDayOfMonth := Weekday(MakeDate(year, month, 1));
    var daysInCurrentMonth := MakeDate(year, month + 1, 0).day;
    MakeDateNextDayZero(year, month);
    MakeDateDayZero(year, month);
    assert firstDayOfMonth == LeadingCount(year, month);
    assert daysInCurrentMonth == MonthLength(year, month);

    var prevMonthDateInfo := MakeDate(year, month, 0);
    var daysInPrevMonth := prevMonthDateInfo.day;
    var prevMonthYear := prevMonthDateInfo.year;
    var prevMonthIndex := prevMonthDateInfo.month;

    cells := [];
    for i := 0 to firstDayOfMonth
      invariant |cells| == i
      invariant forall j :: 0 <= j < i ==> cells[j] == Rebuilt(LayoutCell(year, month, j))
    {
      var dayNumber := daysInPrevMonth - firstDayOfMonth + 1 + i;
      PickerLeadingCell(year, month, i);
      PickerAppend(cells, Cell(dayNumber, false, MakeDate(prevMonthYear, prevMonthIndex, dayNumber)), year, month);
      cells := cells + [Cell(dayNumber, false, MakeDate(prevMonthYear, prevMonthIndex, dayNumber))];
    }

    for i := 1 to daysInCurrentMonth + 1
      invariant |cells| == firstDayOfMonth + i - 1
      invariant forall j :: 0 <= j < |cells| ==> cells[j] == Rebuilt(LayoutCell(year, month, j))
    {
      PickerCurrentCell(year, month, i);
      PickerAppend(cells, Cell(i, true, MakeDate(year, month, i)), year, month);
      cells := cells + [Cell(i, true, MakeDate(year, month, i))];
    }

    var nextMonthDateInfo := MakeDate(year, month + 1, 1);
    var nextMonthYear := nextMonthDateInfo.year;
    var nextMonthIndex := nextMonthDateInfo.month;

    var dayNumberForNextMonth := 1;
    while |cells| < GridSize
      invariant |cells| == firstDayOfMonth + daysInCurrentMonth + dayNumberForNextMonth - 1
      invariant |cells| <= GridSize
      invariant forall j :: 0 <= j < |cells| ==> cells[j] == Rebuilt(LayoutCell(year, month, j))
      decreases GridSize - |cells|
    {
      PickerTrailingCell(year, month, dayNumberForNextMonth);
      PickerAppend(cells, Cell(dayNumberForNextMonth, false,
                               MakeDate(nextMonthYear, nextMonthIndex, dayNumberForNextMonth)), year, month);
      cells := cells + [Cell(dayNumberForNextMonth, false,
                             MakeDate(nextMonthYear, nextMonthIndex, dayNumberForNextMonth))];
      dayNumberForNextMonth := dayNumberForNextMonth + 1;
    }
  }

  /** Appending the next expected cell keeps the cells equal to the layout, position by position. */
  lemma PickerAppend(cells: seq<Cell>, c: Cell, year: int, month: int)
    requires 0 <= month < 12 && |cells| < GridSize
    requires forall j :: 0 <= j < |cells| ==> cells[j] == Rebuilt(LayoutCell(year, month, j))
    requires c == Rebuilt(LayoutCell(year, month, |cells|))
    ensures forall j :: 0 <= j < |cells| + 1 ==> (cells + [c])[j] == Rebuilt(LayoutCell(year, month, j))
  {
  }

  /** The picker's cell `i` of the previous month, as its first loop writes it. */
  lemma PickerLeadingCell(year: int, month: int, i: int)
    requires 0 <= month < 12 && 0 <= i < LeadingCount(year, month)
    ensures var prev := MakeDate(year, month, 0);
            var k := prev.day - LeadingCount(year, month) + 1 + i;
            Rebuilt(LayoutCell(year, month, i)) == Cell(k, false, MakeDate(prev.year, prev.month, k))
  {
    MakeDateDayZero(year, month);
    LeadingCell(year, month, i);
  }

  /** The picker's cell for day `k` of the displayed month, as its second loop writes it. */
  lemma PickerCurrentCell(year: int, month: int, k: int)
    requires 0 <= month < 12 && 1 <= k <= MonthLength(year, month)
    ensures Rebuilt(LayoutCell(year, month, LeadingCount(year, month) + k - 1)) == Cell(k, true, MakeDate(year, month, k))
  {
    MakeDateThisMonth(year, month, k);
    CurrentCell(year, month, k);
    MakeDateThisMonth(ConstructorYear(year), month, k);
  }

  /** The picker's cell for day `k` of the next month, as its `while` loop writes it. */
  lemma PickerTrailingCell(year: int, month: int, k: int)
    requires 0 <= month < 12 && 1 <= k
    requires LeadingCount(year, month) + MonthLength(year, month) + k - 1 < GridSize
    ensures var next := MakeDate(year, month + 1, 1);
            Rebuilt(LayoutCell(year, month, LeadingCount(year, month) + MonthLength(year, month) + k - 1))
            == Cell(k, false, MakeDate(next.year, next.month, k))
  {
    MakeDateNextMonth(year, month, 1);
    TrailingCell(year, month, k);
  }

  /** Rebuilding a midnight leaves it as it is outside the years 0..99. */
  lemma RebuiltKeeps(cell: Cell)
    requires cell.date.msOfDay == 0
    requires cell.date.year < 0 || 100 <= cell.date.year
    ensures Rebuilt(cell) == cell
  {
    MakeDateThisMonth(cell.date.year, cell.date.month, cell.date.day);
  }

  /**
   * The picker and the calendar page's grid show the same days, flags and dates, except for the
   * neighbouring-month dates of the two century-edge months.
   */
  lemma PopupAgreesWithGrid(year: int, month: int, i: int)
    requires 0 <= month < 12 && 0 <= i < GridSize
    ensures Rebuilt(LayoutCell(year, month, i)).day == LayoutCell(year, month, i).day
    ensures Rebuilt(LayoutCell(year, month, i)).isCurrentMonth == LayoutCell(year, month, i).isCurrentMonth
    ensures !CenturyEdge(year, month) ==> Rebuilt(LayoutCell(year, month, i)) == LayoutCell(year, month, i)
  {
    var w, n := LeadingCount(year, month), MonthLength(year, month);
    LayoutNumbering(year, month, i);
    if i < w {
      LeadingCell(year, month, i);
    } else if i < w + n {
      CurrentCell(year, month, i - w + 1);
    } else {
      TrailingCell(year, month, i - w - n + 1);
    }
    if !CenturyEdge(year, month) {
      RebuiltKeeps(LayoutCell(year, month, i));
    }
  }

  /**
   * In January of the year 100 the picker's first cell is dated 31 December 1999, where the
   * calendar page's grid shows 31 December of the year 99.
   */
  lemma PopupCenturyEdgeDiffers()
    ensures LayoutCell(100, 0, 0).date == DateTime(99, 11, 31 - LeadingCount(100, 0) + 1, 0)
    ensures Rebuilt(LayoutCell(100, 0, 0)).date == DateTime(1999, 11, 31 - LeadingCount(100, 0) + 1, 0)
    ensures LeadingCount(100, 0) == 5
  {
    var first := MonthStart(100, 0);
    assert first == DateTime(100, 0, 1, 0);
    assert LeapYearsThrough(99) == 24 && LeapYearsThrough(1969) == 477;
    assert DayOf(first) == -683003;
    assert LeadingCount(100, 0) == 5;
    LeadingCell(100, 0, 0);
    MakeDateThisMonth(1999, 11, 27);
  }

  /** A date argument that may be missing or an Invalid Date. */
  datatype DateArg = Missing | Invalid | Valid(date: Date)

  /** The picker's `isSameDay`: false unless both dates are present and valid, then the same calendar day. */
  function IsSameDay(d1: DateArg, d2: DateArg): (r: bool)
    ensures r ==> d1.Valid? && d2.Valid?
    ensures d1.Valid? && d2.Valid? ==> (r <==> DayOf(d1.date) == DayOf(d2.date))
  {
    if !d1.Valid? || !d2.Valid? then false
    else
      SameDayIffSameDayNumber(d1.date, d2.date);
      SameCalendarDay(d1.date, d2.date)
  }

  /** How a cell is activated: a click, or a key press. */
  datatype Activation = Click | KeyDown(key: string)

  /** The date passed to `onDateSelect`: only displayed-month cells, by click, Enter or Space. */
  function Activate(cell: Cell, how: Activation): (r: Option<Date>)
    ensures r.Some? <==> cell.isCurrentMonth && (how.Click? || how.key == "Enter" || how.key == " ")
    ensures r.Some? ==> r.value == cell.date
  {
    if cell.isCurrentMonth && (how.Click? || how.key == "Enter" || how.key == " ") then Some(cell.date)
    else None
  }

  /** Whatever the picker reports lies in the displayed month, and every day of that month can be reported. */
  lemma ActivationPicksDisplayedMonth(displayMonth: Date, i: int, how: Activation)
    requires 0 <= i < GridSize
    ensures var year, month := displayMonth.year, displayMonth.month;
            var picked := Activate(Rebuilt(LayoutCell(year, month, i)), how);
            picked.Some? ==> picked.value.year == ConstructorYear(year) && picked.value.month == month
  {
    var year, month := displayMonth.year, displayMonth.month;
    var w, n := LeadingCount(year, month), MonthLength(year, month);
    LayoutNumbering(year, month, i);
    if w <= i < w + n {
      CurrentCell(year, month, i - w + 1);
      MakeDateThisMonth(ConstructorYear(year), month, i - w + 1);
    }
  }

  /** The picker's state: the month on display and the date it shows as selected. */
  class PickerState {
    var displayMonth: Date
    var selectedDate: Date

    /** The displayed month is always held as its 1st, at midnight. */
    predicate Valid()
      reads this
    {
      displayMonth.day == 1 && displayMonth.msOfDay == 0
    }

    /** The picker opens on the month of `initialDate`, with it selected. */
    constructor (initialDate: Date)
      ensures Valid()
      ensures displayMonth == MakeDate(initialDate.year, initialDate.month, 1)
      ensures selectedDate == initialDate
    {
      displayMonth := MakeDate(initialDate.year, initialDate.month, 1);
      selectedDate := initialDate;
    }

    /** A new `initialDate` from the form resets both the displayed month and the selection. */
    method InitialDateChanged(initialDate: Date)
      modifies this
      ensures Valid()
      ensures displayMonth == MakeDate(initialDate.year, initialDate.month, 1)
      ensures selectedDate == initialDate
    {
      displayMonth := MakeDate(initialDate.year, initialDate.month, 1);
      selectedDate := initialDate;
    }

    /** `handlePrevMonth`: one month back; the selection stays. */
    method HandlePrevMonth()
      requires Valid()
      modifies this
      ensures Valid()
      ensures displayMonth == MonthBefore(old(displayMonth))
      ensures selectedDate == old(selectedDate)
    {
      displayMonth := MakeDate(displayMonth.year, displayMonth.month - 1, 1);
    }

    /** `handleNextMonth`: one month forward; the selection stays. */
    method HandleNextMonth()
      requires Valid()
      modifies this
      ensures Valid()
      ensures displayMonth == MonthAfter(old(displayMonth))
      ensures selectedDate == old(selectedDate)
    {
      displayMonth := MakeDate(displayMonth.year, displayMonth.month + 1, 1);
    }
  }
}
