/**
 * The new-event form: the YYYY-MM-DD and HH:MM text the form keeps, the parser that turns a
 * date field back into a `Date`, and the form's state transitions up to the submission that
 * hands the event to the store.
 */
module EventFormModal {
  import opened Optional
  import opened JsDate
  import opened Types
  import opened Decimal
  import opened CalendarData

  // ---------------------------------------------------------------------------
  // Date fields: YYYY-MM-DD

  /** `/^\d{4}-\d{2}-\d{2}$/`: four digits, a dash, two digits, a dash, two digits. */
  predicate MatchesDatePattern(s: string): (r: bool)
    ensures r <==> |s| == 10 && s[4] == s[7] == '-'
                   && forall i :: 0 <= i < 10 && i != 4 && i != 7 ==> IsDigit(s[i])
  {
    && |s| == 10
    && AllDigits(s[0..4]) && s[4] == '-'
    && AllDigits(s[5..7]) && s[7] == '-'
    && AllDigits(s[8..10])
  }

  /**
   * `getValidInitialCalendarDate`: `now` for text of any other shape, else local midnight of
   * `new Date(year, month - 1, day)`, with out-of-range months and days rolled over.
   */
  function ParseInputDate(s: string, now: Date): (r: Date)
    ensures !MatchesDatePattern(s) ==> r == now
    ensures MatchesDatePattern(s) ==> r.msOfDay == 0
  {
    if !MatchesDatePattern(s) then now
    else MakeDate(DigitsValue(s[0..4]), DigitsValue(s[5..7]) - 1, DigitsValue(s[8..10]))
  }

  /** A well-formed date text is the 1st of its (rolled-over) month moved on by day - 1 days. */
  lemma ParseInputDateDayNumber(s: string, now: Date)
    requires MatchesDatePattern(s)
    ensures DayOf(ParseInputDate(s, now))
            == DayOf(MonthStart(DigitsValue(s[0..4]), DigitsValue(s[5..7]) - 1)) + DigitsValue(s[8..10]) - 1
  {
    MakeDateDayNumber(DigitsValue(s[0..4]), DigitsValue(s[5..7]) - 1, DigitsValue(s[8..10]));
  }

  /** `formatDateForInput`: the year as written by `toString`, then the 1-based month and the day, padded to two digits. */
  function FormatDateForInput(d: Date): (r: string)
    ensures |r| == |IntToString(d.year)| + 6
    ensures r[0] == IntToString(d.year)[0]
  {
    TwoDigits(d.month + 1);
    TwoDigits(d.day);
    IntToString(d.year) + "-" + PadStart2(NatToString(d.month + 1)) + "-" + PadStart2(NatToString(d.day))
  }

  /** For a four-digit year the formatted date has the pattern, and its three parts read back as year, month and day. */
  lemma FormatDateParts(d: Date)
    requires 1000 <= d.year <= 9999
    ensures var s := FormatDateForInput(d);
            && MatchesDatePattern(s)
            && DigitsValue(s[0..4]) == d.year
            && DigitsValue(s[5..7]) == d.month + 1
            && DigitsValue(s[8..10]) == d.day
  {
    var y, m, dd := NatToString(d.year), PadStart2(NatToString(d.month + 1)), PadStart2(NatToString(d.day));
    NatToStringLength(d.year);
    NatToStringValue(d.year);
    TwoDigits(d.month + 1);
    TwoDigits(d.day);
    assert FormatDateForInput(d) == y + "-" + m + "-" + dd;
    DateTextParts(y, m, dd);
  }

  /** Where the parts of a YYYY-MM-DD text sit. */
  lemma DateTextParts(y: string, m: string, dd: string)
    requires |y| == 4 && |m| == 2 && |dd| == 2
    ensures var s := y + "-" + m + "-" + dd;
            |s| == 10 && s[0..4] == y && s[4] == '-' && s[5..7] == m && s[7] == '-' && s[8..10] == dd
  {
  }

  /** Formatting a date with a four-digit year and parsing it back gives midnight of the same day. */
  lemma ParseFormatRoundTrip(d: Date, now: Date)
    requires 1000 <= d.year <= 9999
    ensures ParseInputDate(FormatDateForInput(d), now) == StartOfDay(d)
  {
    FormatDateParts(d);
    assert (d.month + 1 - 1) / 12 == 0 && (d.month + 1 - 1) % 12 == d.month;
    assert MakeDate(d.year, d.month, d.day) == NormalizeDay(d.year, d.month, d.day);
  }

  /** A date written with a year outside 1000..9999 does not have the pattern: parsing it gives `now`. */
  lemma FormatOutsideFourDigitYears(d: Date, now: Date)
    requires d.year < 1000 || 9999 < d.year
    ensures ParseInputDate(FormatDateForInput(d), now) == now
  {
    var s := FormatDateForInput(d);
    if d.year < 0 {
      assert s[0..4][0] == '-';
    } else {
      NatToStringLength(d.year);
      assert |s| != 10;
    }
  }

  /**
   * Parsing a well-formed date whose year has no leading zero and whose month and day are in
   * range, then formatting it, gives back the same text.
   */
  lemma FormatParseRoundTrip(s: string, now: Date)
    requires MatchesDatePattern(s) && s[0] != '0'
    requires 1 <= DigitsValue(s[5..7]) <= 12
    requires 1 <= DigitsValue(s[8..10]) <= DaysInMonth(DigitsValue(s[0..4]), DigitsValue(s[5..7]) - 1)
    ensures FormatDateForInput(ParseInputDate(s, now)) == s
  {
    var year, month, day := DigitsValue(s[0..4]), DigitsValue(s[5..7]), DigitsValue(s[8..10]);
    ParseInRange(s, now);
    YearTextBack(s[0..4]);
    TwoDigitsBack(s[5..7]);
    TwoDigitsBack(s[8..10]);
    assert FormatDateForInput(DateTime(year, month - 1, day, 0))
           == s[0..4] + "-" + s[5..7] + "-" + s[8..10];
    assert s == s[0..4] + "-" + s[5..7] + "-" + s[8..10];
  }

  /** A four-digit year text with no leading zero names a year from 1000 on and is how `toString` writes it. */
  lemma YearTextBack(y: string)
    requires |y| == 4 && AllDigits(y) && y[0] != '0'
    ensures 1000 <= DigitsValue(y) && IntToString(DigitsValue(y)) == y
  {
    DigitsValueToString(y);
    FourDigitValue(y);
  }

  /** A well-formed date text with its year from 1000 on and its month and day in range names exactly that day. */
  lemma ParseInRange(s: string, now: Date)
    requires MatchesDatePattern(s) && s[0] != '0'
    requires 1 <= DigitsValue(s[5..7]) <= 12
    requires 1 <= DigitsValue(s[8..10]) <= DaysInMonth(DigitsValue(s[0..4]), DigitsValue(s[5..7]) - 1)
    ensures ParseInputDate(s, now) == DateTime(DigitsValue(s[0..4]), DigitsValue(s[5..7]) - 1, DigitsValue(s[8..10]), 0)
  {
    var year, month, day := DigitsValue(s[0..4]), DigitsValue(s[5..7]), DigitsValue(s[8..10]);
    assert s[0..4][0] == s[0];
    FourDigitValue(s[0..4]);
    assert 1000 <= year;
    assert (month - 1) / 12 == 0 && (month - 1) % 12 == month - 1;
    assert NormalizeDay(year, month - 1, day) == DateTime(year, month - 1, day, 0);
  }

  /** Out-of-range values are rolled over, not rejected: 31 February 2024 is 2 March. */
  lemma ParseRollsOver(now: Date)
    ensures ParseInputDate("2024-02-31", now) == DateTime(2024, 2, 2, 0)
  {
    LeapDayText();
    LeapFebruaryOverflow();
  }

  /** "2024-02-31" has the pattern, and its parts read as 2024, 2 and 31. */
  lemma LeapDayText()
    ensures var s := "2024-02-31";
            MatchesDatePattern(s) && DigitsValue(s[0..4]) == 2024 && DigitsValue(s[5..7]) == 2 && DigitsValue(s[8..10]) == 31
  {
    var s := "2024-02-31";
    DateTextParts("2024", "02", "31");
    assert s == "2024" + "-" + "02" + "-" + "31";
    FourDigitValue("2024");
    TwoDigitValue("02");
    TwoDigitValue("31");
  }

  /** 31 February 2024, a leap year, is 2 March. */
  lemma LeapFebruaryOverflow()
    ensures MakeDate(2024, 1, 31) == DateTime(2024, 2, 2, 0)
  {
    assert DaysInMonth(2024, 1) == 29;
    assert NormalizeDay(2024, 1, 31) == NormalizeDay(2024, 2, 2);
    assert DaysInMonth(2024, 2) == 31;
    assert NormalizeDay(2024, 2, 2) == DateTime(2024, 2, 2, 0);
  }

  // ---------------------------------------------------------------------------
  // Time fields: HH:MM

  /** What a time input holds: two-digit hours below 24, a colon, two-digit minutes below 60. */
  predicate ValidTimeString(s: string) {
    && |s| == 5
    && AllDigits(s[0..2]) && s[2] == ':' && AllDigits(s[3..5])
    && DigitsValue(s[0..2]) < 24 && DigitsValue(s[3..5]) < 60
  }

  /** `time.split(':').map(Number)`: the hours and the minutes. */
  function ParseTime(s: string): (hm: (int, int))
    requires ValidTimeString(s)
    ensures 0 <= hm.0 < 24 && 0 <= hm.1 < 60
  {
    (DigitsValue(s[0..2]), DigitsValue(s[3..5]))
  }

  /** `formatTimeForInput`: hours and minutes, each padded to two digits. */
  function FormatTimeForInput(d: Date): (r: string)
    ensures ValidTimeString(r)
  {
    var h, m := PadStart2(NatToString(Hours(d))), PadStart2(NatToString(Minutes(d)));
    TwoDigits(Hours(d));
    TwoDigits(Minutes(d));
    TimeTextParts(h, m);
    h + ":" + m
  }

  /** The formatted time reads back as the date's hours and minutes. */
  lemma FormatTimeRoundTrip(d: Date)
    ensures ParseTime(FormatTimeForInput(d)) == (Hours(d), Minutes(d))
  {
    var h, m := PadStart2(NatToString(Hours(d))), PadStart2(NatToString(Minutes(d)));
    TwoDigits(Hours(d));
    TwoDigits(Minutes(d));
    TimeTextParts(h, m);
  }

  /** Where the parts of an HH:MM text sit. */
  lemma TimeTextParts(h: string, m: string)
    requires |h| == 2 && |m| == 2
    ensures var s := h + ":" + m;
            |s| == 5 && s[0..2] == h && s[2] == ':' && s[3..5] == m
  {
  }

  /** The hours and minutes `setHours(h, m, 0, 0)` leaves on a date, for a time of day in range. */
  lemma SetHoursClock(t: Date, h: int, m: int)
    requires 0 <= h < 24 && 0 <= m < 60
    ensures Hours(SetHours(t, h, m, 0, 0)) == h && Minutes(SetHours(t, h, m, 0, 0)) == m
    ensures SameCalendarDay(SetHours(t, h, m, 0, 0), t)
  {
    var total := h * MsPerHour + m * MsPerMinute;
    assert 0 <= total < MsPerDay;
    assert total / MsPerDay == 0 && total % MsPerDay == total;
    assert NormalizeDay(t.year, t.month, t.day) == DateTime(t.year, t.month, t.day, 0);
    ClockReading(SetHours(t, h, m, 0, 0), h, m);
  }

  /** A well-formed time read and set on a date, then formatted, is the same text. */
  lemma ParseTimeRoundTrip(s: string, t: Date)
    requires ValidTimeString(s)
    ensures FormatTimeForInput(SetHours(t, ParseTime(s).0, ParseTime(s).1, 0, 0)) == s
  {
    SetHoursClock(t, ParseTime(s).0, ParseTime(s).1);
    TwoDigitsBack(s[0..2]);
    TwoDigitsBack(s[3..5]);
    assert s == s[0..2] + ":" + s[3..5];
  }

  // ---------------------------------------------------------------------------
  // The form's fields and transitions

  /** The two date fields a picker can be open for. */
  datatype DateField = StartDate | EndDate

  /** The fields `handleChange` writes a text value to; the date fields are read-only. */
  datatype TextField = Title | Location | Description | ParticipantsCategory | StartTime | EndTime

  /** `{ ...prev, [name]: value }` for a text field. */
  function WithText(fd: FormData, field: TextField, value: string): FormData {
    match field
    case Title => fd.(title := value)
    case Location => fd.(location := value)
    case Description => fd.(description := value)
    case ParticipantsCategory => fd.(participantsCategory := value)
    case StartTime => fd.(startTime := value)
    case EndTime => fd.(endTime := value)
  }

  /** The form as it opens at `now`: today's date, the next two full hours, everything else empty. */
  function InitialFormData(now: Date): (r: FormData)
    ensures ValidTimeString(r.startTime) && ValidTimeString(r.endTime)
    ensures r.startDate == r.endDate == FormatDateForInput(now)
  {
    FormData("", "", FormatDateForInput(now), LaterHourText(now, 1),
             FormatDateForInput(now), LaterHourText(now, 2),
             "", false, "")
  }

  /** `new Date().setHours(h + k, 0, 0, 0)`: the full hour `k` hours after the current one, rolling into the next day. */
  function LaterHour(now: Date, k: int): Date {
    SetHours(now, Hours(now) + k, 0, 0, 0)
  }

  /** The time text of the full hour `k` hours after the current one. */
  function LaterHourText(now: Date, k: int): string {
    FormatTimeForInput(LaterHour(now, k))
  }

  /** The initial times are the next two full hours, wrapping past midnight. */
  lemma InitialTimes(now: Date)
    ensures ValidTimeString(InitialFormData(now).startTime) && ValidTimeString(InitialFormData(now).endTime)
    ensures ParseTime(InitialFormData(now).startTime) == ((Hours(now) + 1) % 24, 0)
    ensures ParseTime(InitialFormData(now).endTime) == ((Hours(now) + 2) % 24, 0)
  {
    LaterHourReads(now, 1);
    LaterHourReads(now, 2);
  }

  /** The time text of a later full hour is well-formed and reads back as that hour, past midnight wrapped. */
  lemma LaterHourReads(now: Date, k: int)
    requires 1 <= k <= 2
    ensures ValidTimeString(LaterHourText(now, k)) && ParseTime(LaterHourText(now, k)) == ((Hours(now) + k) % 24, 0)
  {
    var hour := Hours(now) + k;
    var r := LaterHour(now, k);
    FullHourClock(now, hour);
    assert Hours(r) == hour % 24 && Minutes(r) == 0;
    FormatTimeRoundTrip(r);
  }

  /** The initial dates are today: for a four-digit year they parse back to today's midnight. */
  lemma InitialDates(now: Date)
    requires 1000 <= now.year <= 9999
    ensures ParseInputDate(InitialFormData(now).startDate, now) == StartOfDay(now)
    ensures ParseInputDate(InitialFormData(now).endDate, now) == StartOfDay(now)
  {
    ParseFormatRoundTrip(now, now);
  }

  /** `setHours(k, 0, 0, 0)` for a full hour `k` up to 25 shows `k` modulo 24 hours and no minutes. */
  lemma FullHourClock(t: Date, k: int)
    requires 1 <= k <= 25
    ensures Hours(SetHours(t, k, 0, 0, 0)) == k % 24 && Minutes(SetHours(t, k, 0, 0, 0)) == 0
  {
    var r := SetHours(t, k, 0, 0, 0);
    FullHourMs(t, k);
    ClockReading(r, k % 24, 0);
  }

  lemma HourWrap(k: int)
    requires 1 <= k <= 25
    ensures (k * 3_600_000 + 0 * 60_000 + 0 * 1_000 + 0) % 86_400_000 == (k % 24) * 3_600_000 + 0 * 60_000
  {
    if k >= 24 {
      assert k * 3_600_000 == 86_400_000 + (k - 24) * 3_600_000;
    }
  }

  // ---------------------------------------------------------------------------
  // The initial end time past midnight

  /**
   * Opened between 22:00 and 22:59, the form as written starts at 23:00 and ends at 00:00 of
   * the same date, so submitting it untouched is refused.
   */
  lemma LateEveningFormRefused(now: Date)
    requires Hours(now) == 22 && 1000 <= now.year <= 9999
    ensures ValidTimeString(InitialFormData(now).startTime) && ValidTimeString(InitialFormData(now).endTime)
    ensures var input := SubmittedInput(InitialFormData(now), now);
            TimeValue(input.end) + 23 * MsPerHour == TimeValue(input.start)
  {
    var fd := InitialFormData(now);
    assert (Hours(now) + 1) % 24 == 23 && (Hours(now) + 2) % 24 == 0;
    InitialTimes(now);
    InitialDates(now);
    SubmitDateTimeMeaning(fd.startDate, fd.startTime, now);
    SubmitDateTimeMeaning(fd.endDate, fd.endTime, now);
  }

  /**
   * The initial form with each date taken from its own full hour, as the two times are: when
   * the end hour rolls past midnight, the end date moves on to the next day with it.
   */
  function CorrectedInitialFormData(now: Date): (r: FormData)
    ensures ValidTimeString(r.startTime) && ValidTimeString(r.endTime)
    ensures r.(startDate := "", endDate := "") == InitialFormData(now).(startDate := "", endDate := "")
  {
    FormData("", "", FormatDateForInput(LaterHour(now, 1)), LaterHourText(now, 1),
             FormatDateForInput(LaterHour(now, 2)), LaterHourText(now, 2),
             "", false, "")
  }

  /** Opened before 22:00, the corrected form is the form as written: the next two hours are still today. */
  lemma CorrectionOnlyLateInTheDay(now: Date)
    ensures Hours(now) < 22 ==> CorrectedInitialFormData(now) == InitialFormData(now)
  {
    if Hours(now) < 22 {
      LaterHourSameDay(now, 1);
      LaterHourSameDay(now, 2);
      SameDayFormats(LaterHour(now, 1), now);
      SameDayFormats(LaterHour(now, 2), now);
    }
  }

  /** The date text depends only on the calendar day. */
  lemma SameDayFormats(a: Date, b: Date)
    requires SameCalendarDay(a, b)
    ensures FormatDateForInput(a) == FormatDateForInput(b)
  {
  }

  /** A full hour later that is still before midnight falls on the same calendar day. */
  lemma LaterHourSameDay(now: Date, k: int)
    requires 1 <= k && Hours(now) + k < 24
    ensures SameCalendarDay(LaterHour(now, k), now)
  {
    var total := (Hours(now) + k) * MsPerHour + 0 * MsPerMinute + 0 * MsPerSecond + 0;
    assert 0 <= total < MsPerDay;
    assert total / MsPerDay == 0;
    assert NormalizeDay(now.year, now.month, now.day) == DateTime(now.year, now.month, now.day, 0);
  }

  /**
   * Submitted untouched, the corrected form runs from the next full hour to the one after it,
   * whatever the time of day (for dates with four-digit years).
   */
  lemma CorrectedInitialFormSpansAnHour(now: Date)
    requires 1000 <= LaterHour(now, 1).year <= 9999 && 1000 <= LaterHour(now, 2).year <= 9999
    ensures ValidTimeString(CorrectedInitialFormData(now).startTime)
    ensures ValidTimeString(CorrectedInitialFormData(now).endTime)
    ensures var input := SubmittedInput(CorrectedInitialFormData(now), now);
            && TimeValue(input.start) == DayOf(now) * MsPerDay + (Hours(now) + 1) * MsPerHour
            && TimeValue(input.end) == TimeValue(input.start) + MsPerHour
  {
    LaterHourReads(now, 1);
    LaterHourReads(now, 2);
    FullHourSubmitted(now, 1);
    FullHourSubmitted(now, 2);
  }

  /** A later full hour written as date and time text and submitted is that same instant. */
  lemma FullHourSubmitted(now: Date, k: int)
    requires 1 <= k <= 2 && 1000 <= LaterHour(now, k).year <= 9999
    ensures ValidTimeString(LaterHourText(now, k))
    ensures TimeValue(SubmitDateTime(FormatDateForInput(LaterHour(now, k)), LaterHourText(now, k), now))
            == DayOf(now) * MsPerDay + (Hours(now) + k) * MsPerHour
  {
    var t, hour := LaterHour(now, k), Hours(now) + k;
    assert t == SetHours(now, hour, 0, 0, 0);
    LaterHourReads(now, k);
    FullHourClock(now, hour);
    FullHourMs(now, hour);
    assert t.msOfDay == Hours(t) * MsPerHour + Minutes(t) * MsPerMinute;
    WholeMinuteSubmitted(t, now);
    SetHoursTimeValue(now, hour, 0, 0, 0);
    assert TimeValue(t) == DayOf(now) * MsPerDay + hour * MsPerHour;
  }

  /**
   * An instant on a whole minute, written into a date field and a time field and submitted,
   * is the same instant again (for a four-digit year).
   */
  lemma WholeMinuteSubmitted(t: Date, now: Date)
    requires 1000 <= t.year <= 9999
    requires t.msOfDay == Hours(t) * MsPerHour + Minutes(t) * MsPerMinute
    ensures ValidTimeString(FormatTimeForInput(t))
    ensures TimeValue(SubmitDateTime(FormatDateForInput(t), FormatTimeForInput(t), now)) == TimeValue(t)
  {
    ParseFormatRoundTrip(t, now);
    FormatTimeRoundTrip(t);
    SubmitDateTimeMeaning(FormatDateForInput(t), FormatTimeForInput(t), now);
  }

  /** `setHours(k, 0, 0, 0)` for a full hour `k` up to 25 leaves `k` modulo 24 hours in the day. */
  lemma FullHourMs(t: Date, k: int)
    requires 1 <= k <= 25
    ensures SetHours(t, k, 0, 0, 0).msOfDay == (k % 24) * MsPerHour
  {
    HourWrap(k);
  }

  /** `handleCalendarToggle`: the target's picker closes if it is open, else it opens (closing the other). */
  function Toggled(active: Option<DateField>, target: DateField): (r: Option<DateField>)
    ensures r.Some? ==> r.value == target
    ensures r.None? <==> active == Some(target)
  {
    if active == Some(target) then None else Some(target)
  }

  /** Toggling the same target twice restores the state, unless the other picker was open: that one stays closed. */
  lemma ToggleTwice(active: Option<DateField>, target: DateField)
    ensures Toggled(Toggled(active, target), target)
            == if active.Some? && active.value != target then None else active
  {
  }

  /**
   * `calendarInitialDate`: the parsed text of the field whose picker is open, the start date
   * when none is (a parsed date is never falsy, so the `|| new Date()` fallback is never taken).
   */
  function CalendarInitialDate(fd: FormData, active: Option<DateField>, now: Date): (r: Date)
    ensures active == Some(EndDate) ==> r == ParseInputDate(fd.endDate, now)
    ensures active != Some(EndDate) ==> r == ParseInputDate(fd.startDate, now)
  {
    if active == Some(StartDate) then ParseInputDate(fd.startDate, now)
    else if active == Some(EndDate) then ParseInputDate(fd.endDate, now)
    else ParseInputDate(fd.startDate, now)
  }

  /** A picker opened on a field the form filled from date `d` (four-digit year) opens on `d`'s midnight. */
  lemma PickerOpensOnFieldDate(fd: FormData, field: DateField, d: Date, now: Date)
    requires 1000 <= d.year <= 9999
    requires (if field == StartDate then fd.startDate else fd.endDate) == FormatDateForInput(d)
    ensures CalendarInitialDate(fd, Some(field), now) == StartOfDay(d)
  {
    ParseFormatRoundTrip(d, now);
  }

  /** The form with `text` written into the date field `field`. */
  function WithDateText(fd: FormData, field: DateField, text: string): FormData {
    if field == StartDate then fd.(startDate := text) else fd.(endDate := text)
  }

  /**
   * The form after `date` is picked for `field`: the field takes the formatted date, and then
   * the end date is set to the start date's text if, as parsed, it would lie before the start.
   * Only the two date fields change; afterwards the start date is not after the end date, and
   * the end date is moved, to the start date, only when it would lie before it.
   */
  function WithPickedDate(fd: FormData, field: DateField, date: Date, now: Date): (r: FormData)
    ensures var picked := WithDateText(fd, field, FormatDateForInput(date));
            && r.(startDate := fd.startDate, endDate := fd.endDate) == fd
            && r.startDate == picked.startDate
            && TimeValue(ParseInputDate(r.startDate, now)) <= TimeValue(ParseInputDate(r.endDate, now))
            && (TimeValue(ParseInputDate(picked.startDate, now)) <= TimeValue(ParseInputDate(picked.endDate, now))
                ==> r == picked)
            && (TimeValue(ParseInputDate(picked.startDate, now)) > TimeValue(ParseInputDate(picked.endDate, now))
                ==> r == picked.(endDate := picked.startDate))
  {
    var formattedDate := FormatDateForInput(date);
    var picked := WithDateText(fd, field, formattedDate);
    var newStartDate := ParseInputDate(picked.startDate, now);
    var newEndDate := ParseInputDate(picked.endDate, now);
    if field == StartDate && TimeValue(newStartDate) > TimeValue(newEndDate) then picked.(endDate := formattedDate)
    else if field == EndDate && TimeValue(newEndDate) < TimeValue(newStartDate) then picked.(endDate := picked.startDate)
    else picked
  }

  /** The date and time `handleSubmit` assembles: the parsed date, set to the hours and minutes of the time. */
  function SubmitDateTime(dateText: string, timeText: string, now: Date): (r: Date)
    requires ValidTimeString(timeText)
    ensures SameCalendarDay(r, ParseInputDate(dateText, now))
    ensures (Hours(r), Minutes(r)) == ParseTime(timeText)
  {
    var (h, m) := ParseTime(timeText);
    SetHoursClock(ParseInputDate(dateText, now), h, m);
    SetHours(ParseInputDate(dateText, now), h, m, 0, 0)
  }

  /** The assembled instant is the date's midnight plus the time. */
  lemma SubmitDateTimeMeaning(dateText: string, timeText: string, now: Date)
    requires ValidTimeString(timeText)
    ensures var day := ParseInputDate(dateText, now);
            var (h, m) := ParseTime(timeText);
            TimeValue(SubmitDateTime(dateText, timeText, now)) == DayOf(day) * MsPerDay + h * MsPerHour + m * MsPerMinute
  {
    var (h, m) := ParseTime(timeText);
    SetHoursClock(ParseInputDate(dateText, now), h, m);
  }

  /** The two times the all-day box writes are well-formed: midnight and one minute before the next. */
  lemma AllDayTimes()
    ensures ValidTimeString("00:00") && ParseTime("00:00") == (0, 0)
    ensures ValidTimeString("23:59") && ParseTime("23:59") == (23, 59)
  {
    assert "00:00"[0..2] == "00" && "00:00"[3..5] == "00";
    assert "23:59"[0..2] == "23" && "23:59"[3..5] == "59";
    TwoDigitValue("00");
    TwoDigitValue("23");
    TwoDigitValue("59");
  }

  /** With the all-day times, the event runs from the start date's midnight to 23:59 of the end date. */
  lemma AllDaySpan(fd: FormData, now: Date)
    requires fd.startTime == "00:00" && fd.endTime == "23:59"
    ensures ValidTimeString(fd.startTime) && ValidTimeString(fd.endTime)
    ensures TimeValue(SubmitDateTime(fd.startDate, fd.startTime, now))
            == DayOf(ParseInputDate(fd.startDate, now)) * MsPerDay
    ensures TimeValue(SubmitDateTime(fd.endDate, fd.endTime, now))
            == (DayOf(ParseInputDate(fd.endDate, now)) + 1) * MsPerDay - MsPerMinute
  {
    AllDayTimes();
  }

  /** The event `handleSubmit` hands to `addEvent`: the text fields and the two assembled instants. */
  function SubmittedInput(fd: FormData, now: Date): (r: EventInput)
    requires ValidTimeString(fd.startTime) && ValidTimeString(fd.endTime)
    ensures r.title == fd.title && r.allDay == fd.allDay
    ensures r.location == Some(fd.location) && r.description == Some(fd.description)
    ensures r.participantsCategory == Some(fd.participantsCategory)
    ensures SameCalendarDay(r.start, ParseInputDate(fd.startDate, now))
    ensures (Hours(r.start), Minutes(r.start)) == ParseTime(fd.startTime)
    ensures SameCalendarDay(r.end, ParseInputDate(fd.endDate, now))
    ensures (Hours(r.end), Minutes(r.end)) == ParseTime(fd.endTime)
  {
    EventInput(fd.title, Some(fd.location), SubmitDateTime(fd.startDate, fd.startTime, now),
               SubmitDateTime(fd.endDate, fd.endTime, now), Some(fd.description), fd.allDay,
               Some(fd.participantsCategory))
  }

  /** The form's state: its fields and which date picker, if any, is open. */
  class EventForm {
    var formData: FormData
    var activeCalendarFor: Option<DateField>

    /** The time fields always hold well-formed times. */
    predicate Valid()
      reads this
    {
      ValidTimeString(formData.startTime) && ValidTimeString(formData.endTime)
    }

    /**
     * The form opens at `now` with no picker open, on the next two full hours; each date is
     * that of its own hour (the corrected initial state; `InitialFormData` is the one as written).
     */
    constructor (now: Date)
      ensures Valid()
      ensures formData == CorrectedInitialFormData(now)
      ensures activeCalendarFor == None
    {
      formData := CorrectedInitialFormData(now);
      activeCalendarFor := None;
      LaterHourReads(now, 1);
      LaterHourReads(now, 2);
    }

    /** `handleChange` for the all-day checkbox: checking it also sets the times to 00:00 and 23:59. */
    method HandleCheckboxChange(checked: bool)
      requires Valid()
      modifies this
      ensures Valid()
      ensures formData == if checked then old(formData).(allDay := true, startTime := "00:00", endTime := "23:59")
                          else old(formData).(allDay := false)
      ensures activeCalendarFor == old(activeCalendarFor)
    {
      formData := formData.(allDay := checked);
      if checked {
        formData := formData.(startTime := "00:00", endTime := "23:59");
        AllDayTimes();
      }
    }

    /** `handleChange` for a text, select or time input: only the named field changes. */
    method HandleInputChange(field: TextField, value: string)
      requires Valid()
      requires field == StartTime || field == EndTime ==> ValidTimeString(value)
      modifies this
      ensures Valid()
      ensures formData == WithText(old(formData), field, value)
      ensures activeCalendarFor == old(activeCalendarFor)
    {
      formData := WithText(formData, field, value);
    }

    /** `handleCalendarToggle`. */
    method HandleCalendarToggle(target: DateField)
      modifies this
      ensures activeCalendarFor == Toggled(old(activeCalendarFor), target)
      ensures formData == old(formData)
    {
      if activeCalendarFor == Some(target) {
        activeCalendarFor := None;
      } else {
        activeCalendarFor := Some(target);
      }
    }

    /**
     * `handleDatePicked`: the open picker's field takes the picked date, then the end date is
     * pulled up to the start date if it would lie before it; the picker always closes.
     */
    method HandleDatePicked(date: Date, now: Date)
      requires Valid()
      modifies this
      ensures Valid()
      ensures activeCalendarFor == None
      ensures old(activeCalendarFor).None? ==> formData == old(formData)
      ensures old(activeCalendarFor).Some? ==>
                formData == WithPickedDate(old(formData), old(activeCalendarFor).value, date, now)
    {
      if activeCalendarFor.Some? {
        var field := activeCalendarFor.value;
        var formattedDate := FormatDateForInput(date);
        var newFormData := if field == StartDate then formData.(startDate := formattedDate)
                           else formData.(endDate := formattedDate);
        var newStartDate := ParseInputDate(newFormData.startDate, now);
        var newEndDate := ParseInputDate(newFormData.endDate, now);
        if field == StartDate && TimeValue(newStartDate) > TimeValue(newEndDate) {
          newFormData := newFormData.(endDate := formattedDate);
        }
        if field == EndDate && TimeValue(newEndDate) < TimeValue(newStartDate) {
          newFormData := newFormData.(endDate := newFormData.startDate);
        }
        formData := newFormData;
      }
      activeCalendarFor := None;
    }

    /**
     * `handleSubmit`: assemble the start and end instants and, unless the end lies before the
     * start, add the event to the store; report whether it was added.
     */
    method HandleSubmit(store: CalendarStore, now: Date, freshId: string) returns (submitted: bool)
      requires Valid()
      modifies store
      ensures var input := SubmittedInput(formData, now);
              submitted <==> TimeValue(input.start) <= TimeValue(input.end)
      ensures submitted ==>
                store.events == old(store.events) + [NewEvent(SubmittedInput(formData, now), freshId, old(store.currentUser))]
      ensures !submitted ==> store.events == old(store.events)
      ensures store.currentUser == old(store.currentUser)
    {
      var startDateTime := SubmitDateTime(formData.startDate, formData.startTime, now);
      var endDateTime := SubmitDateTime(formData.endDate, formData.endTime, now);
      if TimeValue(endDateTime) < TimeValue(startDateTime) {
        submitted := false;
        return;
      }
      store.AddEvent(SubmittedInput(formData, now), freshId);
      submitted := true;
    }
  }
}
