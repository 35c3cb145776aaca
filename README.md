# Family calendar core, modelled in Dafny

This project models the core of a small family-shared calendar. Two fixed users propose events. An event is
pending until the other user approves or rejects it. Approved events appear on a month calendar and in
day, week and month lists. The modelled core has four parts:

- **The event store** (`CalendarDataContext.tsx`), modelled as class `CalendarData.CalendarStore`:
  - the event list and the active user;
  - switching user, with a fallback to the default user on an unknown key;
  - adding an event, which gets a fresh id, `PENDING` status and the active user as its creator;
  - updating an event's status by id, and deleting events by id;
  - the two queries: the approved events of one calendar day, and the filtered list, which filters by
    status, creator, excluded creator, a specific day, or a day/week/month window around an anchor date.
    Both results are sorted stably by start time.
  - The list operations are pure functions in module `EventQueries`: a filter, a stable insertion sort,
    the status update, deletion, and the two queries.
- **The month grid** (`CalendarGrid.tsx`), module `CalendarGrid`:
  - the 42-cell layout of a month (previous month's tail, the month, next month's head), built by a method
    with three loops;
  - the same-day test and the has-events dot;
  - month navigation;
  - the rule that only days of the displayed month can be picked.
  - The layout itself is specified once, in module `MonthLayout`.
- **The popup date picker** (`PopupCalendar.tsx`), module `PopupCalendar`:
  - its own grid builder, which rebuilds the neighbouring months' dates from their year and month;
  - its guarded same-day test, click and keyboard activation;
  - class `PickerState`, holding the displayed month and selected date, with the prop-change effect and
    the previous/next month buttons.
- **The new-event form** (`EventFormModal.tsx`), module `EventFormModal`:
  - the `YYYY-MM-DD` date text and `HH:MM` time text, both formatting and parsing;
  - the initial form contents;
  - the all-day checkbox, text inputs, the picker toggle, date picking with its start/end correction, and
    submission with its end-before-start check.
  - Class `EventForm` holds the form data and which date field the picker is open for.

Two supporting modules:

- Module `JsDate` models the part of JavaScript's `Date` these files rely on:
  - the `new Date(y, m, d)` constructor, with month/day rollover and with years 0..99 meaning 1900..1999;
  - `getDay`, `getHours`, `getMinutes`, `setDate`, `setHours` and `getTime`, and comparison of dates.
  - It works in local wall-clock time, with no time zone. A date is a civil record restricted to real
    days, and its time value counts milliseconds from 1970-01-01.
- Module `Decimal` models `Number(...)` on digit runs, `toString()` and `padStart(2, '0')`.

Things that the browser or the clock supply are parameters of the model:

- the current instant `now`, one per operation;
- the fresh event id that `Date.now()` gives `addEvent`;
- the user's clicks and key presses.

## Model

| member | source | states |
|---|---|---|
| Types.LookupUser | CalendarDataContext.tsx:111 | a user key names a user exactly when it is one of the two known keys; "karsen" and "dalton" give those two user records themselves, whose id is the key |
| CalendarData.CalendarStore.constructor | CalendarDataContext.tsx:107-108 | the store starts with the given seed list and with Karsen as the active user |
| CalendarData.CalendarStore.SetCurrentUser | CalendarDataContext.tsx:110-118 | a known key makes exactly the user record it names active; any other key reports the fallback and makes Karsen active; events unchanged |
| CalendarData.NewEvent | CalendarDataContext.tsx:124-130 | the added event carries the given id, status pending, the given creator, and every field of the input unchanged |
| CalendarData.CalendarStore.AddEvent | CalendarDataContext.tsx:121-132 | the new list is the old list with one new pending event at the end, created by the user active before the call |
| CalendarData.AddedEventHiddenUntilApproved | CalendarDataContext.tsx:121-154 | adding an event never changes any day's list of approved events |
| EventQueries.WithStatus | CalendarDataContext.tsx:134-140 | same length; every event keeps all its fields except status; events with the id get the new status, the others stay as they were |
| CalendarData.CalendarStore.UpdateEventStatus | CalendarDataContext.tsx:134-140 | the new list is the status update of the old list; the active user is unchanged |
| EventQueries.WithStatusAbsentId | CalendarDataContext.tsx:136-138 | updating an id that no event has leaves the list unchanged |
| EventQueries.WithStatusLastWins | CalendarDataContext.tsx:134-140 | two updates of the same id equal the second one alone |
| CalendarData.ApprovedEventShown | CalendarDataContext.tsx:134-154 | once an event is approved, it is in the list of approved events for its start day |
| EventQueries.WithoutId | CalendarDataContext.tsx:142-144 | an event remains exactly when it was there and its id differs from the deleted id |
| CalendarData.CalendarStore.DeleteEvent | CalendarDataContext.tsx:142-144 | the new list is the old list without the id; the active user is unchanged |
| EventQueries.WithoutIdConcat | CalendarDataContext.tsx:143 | deletion works element by element: deleting from a concatenation deletes from each part |
| EventQueries.WithoutIdIdempotent | CalendarDataContext.tsx:143 | deleting the same id twice equals deleting it once |
| EventQueries.WithoutIdAbsentId | CalendarDataContext.tsx:143 | deleting an id that no event has leaves the list unchanged |
| CalendarData.DeletedEventGone | CalendarDataContext.tsx:142-210 | after a deletion, no filtered query returns an event with the deleted id |
| EventQueries.Keep | CalendarDataContext.tsx:147-152 | the filter is no longer than its input, is a sub-multiset of it, and holds exactly the input's events that pass the test |
| EventQueries.KeepConcat | CalendarDataContext.tsx:161-169 | filtering a concatenation filters each part in turn |
| EventQueries.KeepEverything | CalendarDataContext.tsx:161-169 | a filter that every event passes returns the list unchanged |
| EventQueries.KeepTwice | CalendarDataContext.tsx:161-169 | two filters in a row equal one filter by the conjunction, order kept |
| EventQueries.KeepAgreeing | CalendarDataContext.tsx:171-206 | two tests that agree on every event of the list filter it identically |
| EventQueries.InsertBy | CalendarDataContext.tsx:209 | inserting into a sorted list keeps it sorted and adds one element |
| EventQueries.InsertByPermutes | CalendarDataContext.tsx:209 | insertion adds exactly the inserted event to the multiset |
| EventQueries.SortBy | CalendarDataContext.tsx:209 | the result is sorted ascending by the key and as long as the input |
| EventQueries.SortByPermutes | CalendarDataContext.tsx:209 | the sort is a permutation: same multiset, same members |
| EventQueries.InsertByStable | CalendarDataContext.tsx:209 | among events with equal key, the inserted event lands after those already in the list |
| EventQueries.SortByStable | CalendarDataContext.tsx:209 | the sort is stable: events with equal start keep their original order |
| EventQueries.SortedSelectionStable | CalendarDataContext.tsx:209 | filtering then sorting keeps, for every start time, the original order of the selected events |
| EventQueries.EventsForDate | CalendarDataContext.tsx:146-154 | the day list is sorted by start and holds exactly the approved events starting on that calendar day |
| CalendarData.CalendarStore.GetEventsForDate | CalendarDataContext.tsx:146-154 | sorted by start; holds exactly the approved events of the store starting on that calendar day |
| EventQueries.EventsForDateIsFiltered | CalendarDataContext.tsx:146-154 | the day list is the filtered query with status approved and that specific day |
| EventQueries.MidnightsEqualIffSameDay | CalendarDataContext.tsx:171-186 | two dates have the same midnight exactly when they are on the same calendar day |
| EventQueries.WeekBounds | CalendarDataContext.tsx:188-193 | the week starts at midnight of the Sunday on or before the anchor and ends one millisecond before the next Sunday |
| EventQueries.StartOfWeek | CalendarDataContext.tsx:189-190 | a Sunday, on the first day of the anchor's Sunday-to-Saturday week, at the anchor's time of day |
| EventQueries.EndOfWeek | CalendarDataContext.tsx:191-193 | one millisecond before midnight seven days after the week's Sunday |
| EventQueries.WeekWindowMeaning | CalendarDataContext.tsx:188-198 | an event is inside the week bounds exactly when its start day is one of the seven days Sunday..Saturday of the anchor's week |
| EventQueries.ByStatusAndCreatorMeaning | CalendarDataContext.tsx:161-169 | the three optional filters, applied in turn, equal one filter by their conjunction; absent or empty options filter nothing |
| EventQueries.ByStatusAndCreator | CalendarDataContext.tsx:161-169 | holds exactly the events meeting the status, creator and not-creator options |
| EventQueries.WindowedMeaning | CalendarDataContext.tsx:171-207 | the date stage keeps exactly the events on the specific day, or else those in the anchor's day, Sunday-to-Saturday week or month; nothing without a view mode |
| EventQueries.Windowed | CalendarDataContext.tsx:171-207 | the date stage keeps part of its input: nothing new and no more events (which ones: WindowedMeaning) |
| EventQueries.EventsFiltered | CalendarDataContext.tsx:156-210 | sorted by start; every event in it is one of the given events and meets the status and creator options (the exact selection: EventsFilteredSelects) |
| EventQueries.EventsFilteredMeaning | CalendarDataContext.tsx:156-210 | the staged query equals sorting the events that meet every supplied option |
| EventQueries.EventsFilteredSelects | CalendarDataContext.tsx:156-210 | the result is sorted by start, holds exactly the events meeting every option, and is a permutation of that selection |
| EventQueries.EventsFilteredStable | CalendarDataContext.tsx:156-210 | events with equal start appear in the order they have in the store |
| CalendarData.CalendarStore.GetEventsFiltered | CalendarDataContext.tsx:156-210 | sorted by start; holds exactly the store's events meeting every option; equal starts keep store order |
| JsDate.DaysInMonth | CalendarGrid.tsx:25 | a month has 28 to 31 days, and 29 exactly for February of a leap year |
| JsDate.Weekday | CalendarGrid.tsx:24 | the weekday is in 0..6 |
| JsDate.StepBackToSunday | CalendarDataContext.tsx:190 | stepping back from a day by its weekday lands on a Sunday |
| JsDate.NormalizeDayNumber | CalendarGrid.tsx:30 | an out-of-range day rolls over: it lands `d - 1` days after the 1st of the named month |
| JsDate.MakeDateDayNumber | CalendarGrid.tsx:30 | the constructor's day argument counts days from the 1st of the month it lands in, whatever its range |
| JsDate.MakeDate | CalendarGrid.tsx:24-30 | `new Date(y, m, d)` is a midnight (which day: MakeDateDayNumber, ConstructorYear) |
| JsDate.ConstructorYear | CalendarGrid.tsx:61 | the constructor keeps a year outside 0..99 and moves a year in 0..99 to 1900..1999 |
| JsDate.MonthStart | CalendarGrid.tsx:24 | the 1st of the month the arguments name, with the month index carried into the year |
| JsDate.DayOfInjective | CalendarGrid.tsx:48-52 | distinct calendar days have distinct day numbers |
| JsDate.SameDayIffSameDayNumber | CalendarGrid.tsx:48-52 | the year/month/day test holds exactly when the two dates have the same day number |
| JsDate.SetDate | CalendarDataContext.tsx:190-192 | the result lies `n - day` days from the date, at the same time of day |
| JsDate.SetHours | CalendarDataContext.tsx:193 | the time of day becomes the given total taken modulo one day |
| JsDate.SetHoursTimeValue | EventFormModal.tsx:121 | the time value is the day's midnight plus the given hours, minutes, seconds and milliseconds, overflowing into other days |
| JsDate.StartOfDay | CalendarDataContext.tsx:159 | equals `setHours(0, 0, 0, 0)` on the date, so it is the same calendar day at midnight (SetHours, SetHoursTimeValue) |
| JsDate.TimeValue | CalendarDataContext.tsx:177 | a date's time value lies within its own day's range of milliseconds (its order: TimeValueOrder) |
| JsDate.TimeValueOrder | CalendarDataContext.tsx:197 | comparing time values compares days first, then time of day |
| JsDate.Hours | EventFormModal.tsx:38 | hours are in 0..23 |
| JsDate.Minutes | EventFormModal.tsx:39 | minutes are in 0..59 |
| JsDate.ClockReading | EventFormModal.tsx:38-39 | a time of day of h hours and m minutes reads back as h and m |
| MonthLayout.LayoutCellDayNumber | CalendarGrid.tsx:20-44 | cell i is the day i places after the Sunday on or before the month's 1st |
| MonthLayout.LayoutConsecutive | CalendarGrid.tsx:20-44 | consecutive cells are consecutive days |
| MonthLayout.LayoutStartsOnSunday | CalendarGrid.tsx:24-31 | the grid's first cell is a Sunday |
| MonthLayout.MakeDateThisMonth | CalendarGrid.tsx:35 | day k of the displayed month, for k in range, is exactly that day at midnight |
| MonthLayout.MakeDatePrevMonth | CalendarGrid.tsx:30 | day k with month index `month - 1` is day k of the previous month, carried across January |
| MonthLayout.MakeDateNextMonth | CalendarGrid.tsx:41 | day k with month index `month + 1` is day k of the next month, carried across December |
| MonthLayout.MakeDateDayZero | CalendarGrid.tsx:28 | day 0 of a month is the last day of the previous month |
| MonthLayout.MakeDateNextDayZero | CalendarGrid.tsx:25 | day 0 of the next month is the last day of this month |
| MonthLayout.LeadingCount | CalendarGrid.tsx:24 | the number of leading cells is in 0..6 |
| MonthLayout.MonthLength | CalendarGrid.tsx:25 | the displayed month has 28 to 31 days |
| MonthLayout.PrevMonthLength | CalendarGrid.tsx:28 | the previous month has 28 to 31 days |
| MonthLayout.LeadingCell | CalendarGrid.tsx:29-31 | each leading cell is the matching last-week day of the previous month, marked not in the month |
| MonthLayout.CurrentCell | CalendarGrid.tsx:34-36 | the cell of day k of the month is that day, numbered k and marked in the month |
| MonthLayout.TrailingCell | CalendarGrid.tsx:39-42 | trailing cell k is day k of the next month, marked not in the month |
| MonthLayout.LayoutNumbering | CalendarGrid.tsx:20-44 | at least five trailing cells remain; every cell's number and in-month mark follow its region |
| MonthLayout.MonthBefore | CalendarGrid.tsx:61 | the previous-month button lands on a 1st at midnight |
| MonthLayout.MonthAfter | CalendarGrid.tsx:65 | the next-month button lands on a 1st at midnight |
| MonthLayout.MonthBeforeIsPrevious | CalendarGrid.tsx:61 | outside the years 0..99 the button shows the previous month, crossing into the previous year from January |
| MonthLayout.MonthAfterIsNext | CalendarGrid.tsx:65 | outside the years 0..99 the button shows the next month, crossing into the next year from December |
| MonthLayout.MonthAfterUndoesMonthBefore | CalendarGrid.tsx:61-65 | back then forward returns to the displayed month, except from January of the year 100 |
| MonthLayout.MonthBeforeUndoesMonthAfter | CalendarGrid.tsx:61-65 | forward then back returns to the displayed month, except from December of the year -1 |
| MonthLayout.CenturyRoundTrip | CalendarGrid.tsx:61-65 | back from January 100 shows December 99, and forward from there jumps to January 2000 |
| CalendarGrid.GenerateDays | CalendarGrid.tsx:20-44 | the three loops produce 42 cells that are exactly the month layout, cell by cell |
| CalendarGrid.HasEvents | CalendarGrid.tsx:54-56 | true exactly when some event starts on that calendar day |
| CalendarGrid.ClickPicksDisplayedMonth | CalendarGrid.tsx:89 | a click can only report a day of the displayed month and year |
| CalendarGrid.ClickedDate | CalendarGrid.tsx:89 | a click reports a date exactly for a displayed-month cell, and then the cell's own date |
| CalendarGrid.EveryDayPickableOnce | CalendarGrid.tsx:89 | every day of the displayed month is reported by exactly one cell |
| CalendarGrid.ShowsEventDot | CalendarGrid.tsx:74-92 | the dot shows exactly on displayed-month days, other than the selected one, on which an event starts |
| PopupCalendar.GenerateDays | PopupCalendar.tsx:30-74 | two counted loops and a fill-to-42 loop produce exactly the layout, each date rebuilt through the constructor |
| PopupCalendar.PickerLeadingCell | PopupCalendar.tsx:38-50 | a leading cell is built from the previous month's year, month and day number |
| PopupCalendar.PickerCurrentCell | PopupCalendar.tsx:52-58 | a current cell is day i of the displayed month |
| PopupCalendar.PickerTrailingCell | PopupCalendar.tsx:60-72 | a trailing cell is built from the next month's year, month and running day number |
| PopupCalendar.RebuiltKeeps | PopupCalendar.tsx:48 | rebuilding a midnight date outside the years 0..99 gives the same date |
| PopupCalendar.PopupAgreesWithGrid | PopupCalendar.tsx:30-74 | the picker's cells have the grid's numbers and in-month marks, and are the grid's cells except in the two months at the year-100 edge |
| PopupCalendar.PopupCenturyEdgeDiffers | PopupCalendar.tsx:38-48 | in January of the year 100 the picker dates its leading cells in 1999, where the grid has the year 99 |
| PopupCalendar.IsSameDay | PopupCalendar.tsx:78-83 | false whenever an argument is missing or invalid; for two valid dates, true exactly on the same day |
| PopupCalendar.Activate | PopupCalendar.tsx:128-132 | a click, Enter or Space picks the cell's date exactly when the cell is in the displayed month |
| PopupCalendar.ActivationPicksDisplayedMonth | PopupCalendar.tsx:128-132 | whatever activates it, the picker can only pick a day of the displayed month and year |
| PopupCalendar.PickerState.constructor | PopupCalendar.tsx:12-13 | the picker opens on the 1st of the initial date's month, with the initial date selected |
| PopupCalendar.PickerState.InitialDateChanged | PopupCalendar.tsx:15-21 | a new initial date resets both the displayed month and the selection |
| PopupCalendar.PickerState.HandlePrevMonth | PopupCalendar.tsx:85-87 | the displayed month moves one month back; the selection is kept |
| PopupCalendar.PickerState.HandleNextMonth | PopupCalendar.tsx:89-91 | the displayed month moves one month forward; the selection is kept |
| Decimal.NatToString | EventFormModal.tsx:32-33 | the text is a non-empty run of digits with no leading zero |
| Decimal.IntToString | EventFormModal.tsx:31-34 | a negative year is written as a minus sign before its digits |
| Decimal.NatToStringValue | EventFormModal.tsx:19 | reading back the written digits gives the number |
| Decimal.DigitsValueToString | EventFormModal.tsx:19 | writing the value of a digit run with no leading zero gives the run back |
| Decimal.NatToStringLength | EventFormModal.tsx:31-34 | the number of digits written, by magnitude |
| Decimal.PadStart2 | EventFormModal.tsx:32-33 | text of two or more characters is kept; shorter text is filled to two characters with leading zeros |
| Decimal.TwoDigits | EventFormModal.tsx:32-33 | a number below 100, written and padded, is two digits that read back as the number |
| Decimal.TwoDigitsBack | EventFormModal.tsx:32-33 | two digits, read then written and padded, are the same two digits |
| Decimal.FourDigitValue | EventFormModal.tsx:19 | the value of a four-digit year, digit by digit |
| EventFormModal.ParseInputDate | EventFormModal.tsx:13-23 | text not of the `dddd-dd-dd` shape gives the current instant; text of that shape gives a midnight |
| EventFormModal.MatchesDatePattern | EventFormModal.tsx:15 | the pattern holds exactly for ten characters with dashes at positions 4 and 7 and digits everywhere else |
| EventFormModal.FormatDateForInput | EventFormModal.tsx:30-35 | the year as `toString` writes it, followed by six characters (`-MM-DD`; their values: FormatDateParts) |
| EventFormModal.ParseInputDateDayNumber | EventFormModal.tsx:19-20 | a well-shaped text names the day `day - 1` days after the 1st of month `month - 1`, rolled over |
| EventFormModal.FormatDateParts | EventFormModal.tsx:30-35 | for a four-digit year the formatted date has the shape, and its parts read back as year, month and day |
| EventFormModal.ParseFormatRoundTrip | EventFormModal.tsx:13-35 | formatting then parsing a date with a four-digit year gives its midnight |
| EventFormModal.FormatOutsideFourDigitYears | EventFormModal.tsx:15 | a date outside the years 1000..9999 formats to text that parsing refuses, so it falls back to the current instant |
| EventFormModal.FormatParseRoundTrip | EventFormModal.tsx:13-35 | parsing then formatting a real date text with no leading-zero year gives the text back |
| EventFormModal.ParseRollsOver | EventFormModal.tsx:20 | "2024-02-31" is accepted and means 2 March 2024 |
| EventFormModal.ParseTime | EventFormModal.tsx:120 | a time text gives hours in 0..23 and minutes in 0..59 |
| EventFormModal.FormatTimeForInput | EventFormModal.tsx:37-41 | the text is a well-formed `HH:MM` time |
| EventFormModal.FormatTimeRoundTrip | EventFormModal.tsx:37-41 | a formatted time reads back as the date's hours and minutes |
| EventFormModal.SetHoursClock | EventFormModal.tsx:121 | setting hours and minutes in range keeps the day and reads back as those hours and minutes |
| EventFormModal.ParseTimeRoundTrip | EventFormModal.tsx:120-121 | a time text, set into a date and formatted again, gives the text back |
| EventFormModal.InitialTimes | EventFormModal.tsx:47-49 | the initial times are the next two full hours, wrapping past midnight |
| EventFormModal.LaterHourReads | EventFormModal.tsx:47-49 | the text of the full hour k hours ahead is well-formed and reads as that hour modulo 24 |
| EventFormModal.InitialFormData | EventFormModal.tsx:43-53 | as written: the initial times are well-formed and both dates are today's date text |
| EventFormModal.CorrectedInitialFormData | EventFormModal.tsx:43-53 | the times are well-formed, and every field but the two dates is as in the form as written |
| EventFormModal.CorrectionOnlyLateInTheDay | EventFormModal.tsx:46-49 | opened before 22:00, the corrected form is exactly the form as written |
| EventFormModal.LaterHourSameDay | EventFormModal.tsx:47-49 | a full hour later that is still before midnight falls on the same calendar day |
| EventFormModal.InitialDates | EventFormModal.tsx:46-48 | both initial dates parse back to today's midnight |
| EventFormModal.LateEveningFormRefused | EventFormModal.tsx:43-53 | opened at 22:xx, the form as written submits an end 23 hours before its start |
| EventFormModal.CorrectedInitialFormSpansAnHour | EventFormModal.tsx:43-53 | the corrected initial form runs from the next full hour to the one after, at any time of day |
| EventFormModal.FullHourSubmitted | EventFormModal.tsx:119-125 | submitting the date and time of the full hour k hours ahead gives that instant |
| EventFormModal.WholeMinuteSubmitted | EventFormModal.tsx:119-125 | submitting the formatted date and time of a whole-minute instant gives that instant back |
| EventFormModal.Toggled | EventFormModal.tsx:77-83 | the picker closes exactly when it was open for the target field, and otherwise opens for the target field |
| EventFormModal.ToggleTwice | EventFormModal.tsx:77-83 | toggling the same field twice restores the state, unless the picker was open for the other field |
| EventFormModal.CalendarInitialDate | EventFormModal.tsx:147-153 | the picker opens on the end date when it is open for the end field, and on the start date otherwise |
| EventFormModal.PickerOpensOnFieldDate | EventFormModal.tsx:147-153 | a picker opened for a field holding a formatted date starts on that date's midnight |
| EventFormModal.SubmitDateTimeMeaning | EventFormModal.tsx:119-125 | the submitted instant's time value is the parsed day's midnight plus the typed hours and minutes |
| EventFormModal.SubmitDateTime | EventFormModal.tsx:119-125 | the assembled instant is on the parsed date's calendar day and reads as the typed hours and minutes |
| EventFormModal.SubmittedInput | EventFormModal.tsx:132-140 | the event handed to `addEvent` carries the form's text fields and flag, with start and end on the parsed dates at the typed times |
| EventFormModal.AllDayTimes | EventFormModal.tsx:66-70 | the all-day times are well-formed and mean 00:00 and 23:59 |
| EventFormModal.AllDaySpan | EventFormModal.tsx:62-71 | an all-day event runs from the start day's midnight to the last minute of the end day |
| EventFormModal.EventForm.constructor | EventFormModal.tsx:43-55 | the form opens with the corrected initial data and no picker open |
| EventFormModal.EventForm.HandleCheckboxChange | EventFormModal.tsx:62-71 | checking all-day also sets the times to 00:00 and 23:59; unchecking changes only the flag |
| EventFormModal.EventForm.HandleInputChange | EventFormModal.tsx:72-74 | exactly the named text field takes the new value |
| EventFormModal.EventForm.HandleCalendarToggle | EventFormModal.tsx:77-83 | the picker toggles for the target field; the form data is unchanged |
| EventFormModal.WithPickedDate | EventFormModal.tsx:85-105 | picking changes only the date fields, keeps the start not after the end, and moves the end date to the start date only when it would lie before the start |
| EventFormModal.EventForm.HandleDatePicked | EventFormModal.tsx:85-105 | with a picker open, the form becomes the picked-date update for the active field; with none, it is unchanged; either way the picker closes |
| EventFormModal.EventForm.HandleSubmit | EventFormModal.tsx:107-142 | the event is added exactly when its end is not before its start, with the submitted fields; otherwise the store is unchanged |

## Left out

- Rendering is not modelled: React state hooks, JSX, styling, the modal's close button and `onClose`,
  and the month names from `toLocaleString`.
- Today highlighting (`isToday`) and the picker's selected-cell highlight (PopupCalendar.tsx:113-119) are
  not modelled, because they only choose CSS classes.
- Time zones, daylight-saving shifts and the `Date` range limit of ±8.64e15 ms are not modelled. Dates are
  local wall-clock records that always hold a real day.
- There is no invalid (`NaN`) date in the model. Every parse either succeeds or falls back to the current
  instant, so the `isNaN` guards in EventFormModal.tsx:22 and :114-117 cannot fire. The alert branch of
  `handleSubmit` is therefore absent.
- The seed events (CalendarDataContext.tsx:19-103) are not modelled. The store's constructor takes any
  initial list.
- `constants.ts` (the `USERS` table) is not part of this model. The two users are taken to be
  `User("karsen", "Karsen")` and `User("dalton", "Dalton")`.
- `console.warn` and `alert` become return flags (`fellBack`, `submitted`). The message text is not modelled.
- The source reads the clock with `new Date()` several times within one operation. The model passes one
  instant `now` per operation, and the fresh event id from `Date.now()` is a parameter.
- The browser's `required` attribute checks on the form inputs are not modelled.
- EventFormModal.EventForm.constructor: opens with `CorrectedInitialFormData`, not with the initial state as written
  (EventFormModal.tsx:43-53), because of the finding below. The as-written state is `InitialFormData`, and
  `LateEveningFormRefused` shows what it does at 22:xx. `CorrectionOnlyLateInTheDay` proves the two states are
  the same whenever the form is opened before 22:00.
- EventFormModal.EventForm.HandleInputChange: requires well-formed `HH:MM` text for the two time fields, as
  a `type="time"` input supplies. An emptied time input would make the submitted date invalid in the
  source, and that path is not modelled. The date fields are read-only inputs changed only through the
  picker, so they have no text-input path.
- Where a form field's name is not one of the known fields, the source's computed-key update is not
  modelled. Fields are an enumeration.
- The context provider's memoisation and the error thrown when the context is used outside its provider
  are not modelled.

## Findings

| source | as written | input that shows it | evidently intended | confidence | as-written member | corrected member |
|---|---|---|---|---|---|---|
| EventFormModal.tsx:46-49 | both initial dates are today's date, while the initial times come from `setHours(hour + 1)` and `setHours(hour + 2)`, which roll past midnight into tomorrow | the form opened at 22:xx starts at 23:00 today and ends at 00:00 today, 23 hours before its start, so submitting it untouched is refused | the event runs from the next full hour to the one after, on the days those hours fall on | not executed; medium | EventFormModal.LateEveningFormRefused | EventFormModal.CorrectedInitialFormSpansAnHour (over `CorrectedInitialFormData`, which `EventForm.constructor` uses) |
