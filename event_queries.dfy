/**
 * The pure part of the event store: the list transformations behind `updateEventStatus`
 * and `deleteEvent`, and the two queries `getEventsForDate` and `getEventsFiltered`,
 * each written as a function over a snapshot of the event list.
 */
module EventQueries {
  import opened Optional
  import opened JsDate
  import opened Types

  // ---------------------------------------------------------------------------
  // Array.prototype.filter

  /** The events of `s` that satisfy `p`, in their original order. */
  function Keep(s: seq<CalendarEvent>, p: CalendarEvent -> bool): (r: seq<CalendarEvent>)
    ensures |r| <= |s|
    ensures forall e :: e in r <==> e in s && p(e)
    ensures multiset(r) <= multiset(s)
  {
    if s == [] then []
    else
      assert s == [s[0]] + s[1..];
      (if p(s[0]) then [s[0]] else []) + Keep(s[1..], p)
  }

  /** Filtering a concatenation filters each part: the kept events keep their relative order. */
  lemma {:induction false} KeepConcat(a: seq<CalendarEvent>, b: seq<CalendarEvent>, p: CalendarEvent -> bool)
    ensures Keep(a + b, p) == Keep(a, p) + Keep(b, p)
  {
    if a == [] {
      assert a + b == b;
    } else {
      assert (a + b)[0] == a[0];
      assert (a + b)[1..] == a[1..] + b;
      KeepConcat(a[1..], b, p);
    }
  }

  /** A filter every event passes changes nothing. */
  lemma {:induction false} KeepEverything(s: seq<CalendarEvent>, p: CalendarEvent -> bool)
    requires forall e :: e in s ==> p(e)
    ensures Keep(s, p) == s
  {
    if s != [] {
      KeepEverything(s[1..], p);
    }
  }

  /** Filtering twice is filtering once by the conjunction. */
  lemma {:induction false} KeepTwice(s: seq<CalendarEvent>, p: CalendarEvent -> bool, q: CalendarEvent -> bool,
                                     pq: CalendarEvent -> bool)
    requires forall e :: pq(e) == (p(e) && q(e))
    ensures Keep(Keep(s, p), q) == Keep(s, pq)
  {
    if s != [] {
      KeepTwice(s[1..], p, q, pq);
      var rest := Keep(s[1..], p);
      if p(s[0]) {
        assert Keep(s, p) == [s[0]] + rest;
        assert ([s[0]] + rest)[1..] == rest;
      } else {
        assert Keep(s, p) == rest;
      }
    }
  }

  /** Filters that agree on the events of `s` keep the same events. */
  lemma {:induction false} KeepAgreeing(s: seq<CalendarEvent>, p: CalendarEvent -> bool, q: CalendarEvent -> bool)
    requires forall e :: e in s ==> p(e) == q(e)
    ensures Keep(s, p) == Keep(s, q)
  {
    if s != [] {
      KeepAgreeing(s[1..], p, q);
    }
  }

  // ---------------------------------------------------------------------------
  // Sorting by start: `sort((a, b) => a.start.getTime() - b.start.getTime())`, a stable sort.
  // The sort is written over any integer key; the store sorts by `StartKey`.

  function StartKey(e: CalendarEvent): int {
    TimeValue(e.start)
  }

  predicate SortedBy(s: seq<CalendarEvent>, key: CalendarEvent -> int) {
    forall i, j :: 0 <= i < j < |s| ==> key(s[i]) <= key(s[j])
  }

  /**
   * Places `e` just after the last event of `s` whose key is not greater than its own,
   * passing over the events at the end of `s` that have a greater key.
   */
  function InsertBy(s: seq<CalendarEvent>, e: CalendarEvent, key: CalendarEvent -> int): (r: seq<CalendarEvent>)
    ensures SortedBy(s, key) ==> SortedBy(r, key)
    ensures |r| == |s| + 1
    ensures r[|r| - 1] == if s == [] || key(s[|s| - 1]) <= key(e) then e else s[|s| - 1]
  {
    if s == [] || key(s[|s| - 1]) <= key(e) then
      s + [e]
    else
      var front, last := s[..|s| - 1], s[|s| - 1];
      assert s == front + [last];
      var r' := InsertBy(front, e, key);
      assert SortedBy(s, key) ==> key(r'[|r'| - 1]) <= key(last);
      r' + [last]
  }

  /** Inserting adds `e` and loses nothing. */
  lemma {:induction false} InsertByPermutes(s: seq<CalendarEvent>, e: CalendarEvent, key: CalendarEvent -> int)
    ensures multiset(InsertBy(s, e, key)) == multiset(s) + multiset{e}
    decreases |s|
  {
    if s != [] && key(s[|s| - 1]) > key(e) {
      var front, last := s[..|s| - 1], s[|s| - 1];
      assert s == front + [last];
      InsertByPermutes(front, e, key);
      assert InsertBy(s, e, key) == InsertBy(front, e, key) + [last];
    }
  }

  /** A stable insertion sort of `s` into ascending order of `key`. */
  function SortBy(s: seq<CalendarEvent>, key: CalendarEvent -> int): (r: seq<CalendarEvent>)
    ensures SortedBy(r, key)
    ensures |r| == |s|
  {
    if s == [] then []
    else InsertBy(SortBy(s[..|s| - 1], key), s[|s| - 1], key)
  }

  /** Sorting rearranges the events: each is kept exactly as often as it occurs. */
  lemma {:induction false} SortByPermutes(s: seq<CalendarEvent>, key: CalendarEvent -> int)
    ensures multiset(SortBy(s, key)) == multiset(s)
    ensures forall e :: e in SortBy(s, key) <==> e in s
    decreases |s|
  {
    if s != [] {
      var front := s[..|s| - 1];
      assert s == front + [s[|s| - 1]];
      SortByPermutes(front, key);
      InsertByPermutes(SortBy(front, key), s[|s| - 1], key);
    }
    var r := SortBy(s, key);
    forall e ensures e in r <==> e in s {
      assert e in r <==> e in multiset(r);
      assert e in s <==> e in multiset(s);
    }
  }

  /** The events of `s` whose key is `k`, in order. */
  function WithKey(s: seq<CalendarEvent>, key: CalendarEvent -> int, k: int): seq<CalendarEvent> {
    Keep(s, (e: CalendarEvent) => key(e) == k)
  }

  /** Filtering one event keeps it or drops it. */
  lemma KeepOne(x: CalendarEvent, p: CalendarEvent -> bool)
    ensures Keep([x], p) == if p(x) then [x] else []
  {
    assert [x][1..] == [];
  }

  /** Two events of which at most one is kept can be filtered in either order. */
  lemma KeepSwap(x: CalendarEvent, y: CalendarEvent, p: CalendarEvent -> bool)
    requires !(p(x) && p(y))
    ensures Keep([x], p) + Keep([y], p) == Keep([y], p) + Keep([x], p)
  {
    KeepOne(x, p);
    KeepOne(y, p);
  }

  /**
   * One step of insertion: when filtering `r'` lists `e` after the kept events of `front`,
   * and at most one of `e` and `last` is kept, then filtering `r' + [last]` lists `e` after
   * the kept events of `front + [last]`.
   */
  lemma KeepPastLast(front: seq<CalendarEvent>, e: CalendarEvent, last: CalendarEvent,
                     r': seq<CalendarEvent>, p: CalendarEvent -> bool)
    requires Keep(r', p) == Keep(front, p) + Keep([e], p)
    requires !(p(e) && p(last))
    ensures Keep(r' + [last], p) == Keep(front + [last], p) + Keep([e], p)
  {
    KeepConcat(r', [last], p);
    KeepSwap(e, last, p);
    KeepConcat(front, [last], p);
    SwapLastTwo(Keep(front, p), Keep([e], p), Keep([last], p));
  }

  /** Two parts that commute can trade places at the end of a sequence. */
  lemma SwapLastTwo(f: seq<CalendarEvent>, x: seq<CalendarEvent>, y: seq<CalendarEvent>)
    requires x + y == y + x
    ensures (f + x) + y == (f + y) + x
  {
    calc {
      (f + x) + y;
      f + (x + y);
      f + (y + x);
      (f + y) + x;
    }
  }

  /** Inserting keeps the events of each key in order, with the inserted one after its equals. */
  lemma {:induction false} InsertByStable(s: seq<CalendarEvent>, e: CalendarEvent, key: CalendarEvent -> int, k: int)
    ensures WithKey(InsertBy(s, e, key), key, k) == WithKey(s, key, k) + WithKey([e], key, k)
    decreases |s|
  {
    var p := (x: CalendarEvent) => key(x) == k;
    if s == [] || key(s[|s| - 1]) <= key(e) {
      KeepConcat(s, [e], p);
    } else {
      var front, last := s[..|s| - 1], s[|s| - 1];
      assert s == front + [last];
      var r' := InsertBy(front, e, key);
      assert InsertBy(s, e, key) == r' + [last];
      InsertByStable(front, e, key, k);
      // `last` starts later than `e`, so at most one of them has key `k`
      assert !(p(e) && p(last));
      KeepPastLast(front, e, last, r', p);
    }
  }

  /** Stability: events with equal keys keep their original relative order. */
  lemma {:induction false} SortByStable(s: seq<CalendarEvent>, key: CalendarEvent -> int, k: int)
    ensures WithKey(SortBy(s, key), key, k) == WithKey(s, key, k)
  {
    if s != [] {
      var front, last := s[..|s| - 1], s[|s| - 1];
      assert s == front + [last];
      SortByStable(front, key, k);
      InsertByStable(SortBy(front, key), last, key, k);
      KeepConcat(front, [last], (x: CalendarEvent) => key(x) == k);
    }
  }

  // ---------------------------------------------------------------------------
  // The list updates behind `updateEventStatus` and `deleteEvent`

  /** `events.map(event => event.id === eventId ? { ...event, status } : event)`. */
  function WithStatus(s: seq<CalendarEvent>, id: string, status: EventStatus): (r: seq<CalendarEvent>)
    ensures |r| == |s|
    ensures forall i :: 0 <= i < |s| ==> r[i] == s[i].(status := r[i].status)
    ensures forall i :: 0 <= i < |s| && s[i].id == id ==> r[i].status == status
    ensures forall i :: 0 <= i < |s| && s[i].id != id ==> r[i] == s[i]
  {
    if s == [] then []
    else [if s[0].id == id then s[0].(status := status) else s[0]] + WithStatus(s[1..], id, status)
  }

  /** An id no event carries leaves the list as it was. */
  lemma WithStatusAbsentId(s: seq<CalendarEvent>, id: string, status: EventStatus)
    requires forall e :: e in s ==> e.id != id
    ensures WithStatus(s, id, status) == s
  {
    var r := WithStatus(s, id, status);
    assert forall i :: 0 <= i < |s| ==> r[i] == s[i] by {
      forall i | 0 <= i < |s| ensures r[i] == s[i] {
        assert s[i] in s;
      }
    }
  }

  /** The last status written wins; no history is kept. */
  lemma WithStatusLastWins(s: seq<CalendarEvent>, id: string, first: EventStatus, second: EventStatus)
    ensures WithStatus(WithStatus(s, id, first), id, second) == WithStatus(s, id, second)
  {
    var once := WithStatus(s, id, first);
    var twice := WithStatus(once, id, second);
    var direct := WithStatus(s, id, second);
    assert forall i :: 0 <= i < |s| ==> twice[i] == direct[i] by {
      forall i | 0 <= i < |s| ensures twice[i] == direct[i] {
        assert once[i].id == s[i].id;
      }
    }
  }

  /** `events.filter(event => event.id !== eventId)`. */
  function WithoutId(s: seq<CalendarEvent>, id: string): (r: seq<CalendarEvent>)
    ensures forall e :: e in r <==> e in s && e.id != id
  {
    Keep(s, (e: CalendarEvent) => e.id != id)
  }

  /** Deleting keeps the order of what remains: it works segment by segment. */
  lemma WithoutIdConcat(a: seq<CalendarEvent>, b: seq<CalendarEvent>, id: string)
    ensures WithoutId(a + b, id) == WithoutId(a, id) + WithoutId(b, id)
  {
    KeepConcat(a, b, (e: CalendarEvent) => e.id != id);
  }

  /** Deleting the same id twice is deleting it once. */
  lemma WithoutIdIdempotent(s: seq<CalendarEvent>, id: string)
    ensures WithoutId(WithoutId(s, id), id) == WithoutId(s, id)
  {
    KeepTwice(s, (e: CalendarEvent) => e.id != id, (e: CalendarEvent) => e.id != id, (e: CalendarEvent) => e.id != id);
  }

  /** Deleting an id no event carries changes nothing. */
  lemma WithoutIdAbsentId(s: seq<CalendarEvent>, id: string)
    requires forall e :: e in s ==> e.id != id
    ensures WithoutId(s, id) == s
  {
    KeepEverything(s, (e: CalendarEvent) => e.id != id);
  }

  // ---------------------------------------------------------------------------
  // getEventsForDate

  /** The approved events starting on the calendar day of `date`, by start time. */
  function EventsForDate(events: seq<CalendarEvent>, date: Date): (r: seq<CalendarEvent>)
    ensures SortedBy(r, StartKey)
    ensures forall e :: e in r <==> e in events && e.status == Approved && SameCalendarDay(e.start, date)
  {
    var onDay := Keep(events, (e: CalendarEvent) => SameCalendarDay(e.start, date) && e.status == Approved);
    SortByPermutes(onDay, StartKey);
    SortBy(onDay, StartKey)
  }

  // ---------------------------------------------------------------------------
  // getEventsFiltered

  /** The options bag; every field may be left out. */
  datatype FilterOptions = FilterOptions(
    viewMode: Option<ViewMode>,
    date: Option<Date>,
    status: Option<EventStatus>,
    specificDay: Option<Date>,
    createdByUserId: Option<string>,
    notCreatedByUserId: Option<string>
  )

  /** A string option constrains only when present and non-empty (the empty string is falsy). */
  predicate Truthy(o: Option<string>) {
    o.Some? && o.value != ""
  }

  /** The day the view window is anchored at: `options.date`, or now. */
  function Anchor(options: FilterOptions, now: Date): Date {
    if options.date.Some? then options.date.value else now
  }

  /** First day (a Sunday) of the week containing `t`, as a day number. */
  function WeekStartDay(t: Date): int {
    DayOf(t) - Weekday(t)
  }

  /** The intended meaning of the view window: the calendar day, Sunday-to-Saturday week or month of the anchor. */
  predicate InWindow(options: FilterOptions, anchor: Date, e: CalendarEvent) {
    if options.specificDay.Some? then SameCalendarDay(e.start, options.specificDay.value)
    else if options.viewMode.None? then true
    else match options.viewMode.value
      case Day => SameCalendarDay(e.start, anchor)
      case Week => WeekStartDay(anchor) <= DayOf(e.start) <= WeekStartDay(anchor) + 6
      case Month => e.start.year == anchor.year && e.start.month == anchor.month
  }

  predicate StatusMatches(options: FilterOptions, e: CalendarEvent) {
    options.status.None? || e.status == options.status.value
  }

  predicate CreatorMatches(options: FilterOptions, e: CalendarEvent) {
    !Truthy(options.createdByUserId) || e.createdBy.id == options.createdByUserId.value
  }

  predicate OtherCreatorMatches(options: FilterOptions, e: CalendarEvent) {
    !Truthy(options.notCreatedByUserId) || e.createdBy.id != options.notCreatedByUserId.value
  }

  /** An event is selected when it meets every supplied option. */
  predicate Selected(options: FilterOptions, anchor: Date, e: CalendarEvent) {
    StatusMatches(options, e) && CreatorMatches(options, e) && OtherCreatorMatches(options, e)
    && InWindow(options, anchor, e)
  }

  /** `startOfWeek`: the Sunday on or before `today`, at the time of day of `today`. */
  function StartOfWeek(today: Date): (r: Date)
    ensures Weekday(r) == 0 && DayOf(r) == WeekStartDay(today) && r.msOfDay == today.msOfDay
  {
    var r := SetDate(today, today.day - Weekday(today));
    StepBackToSunday(today, r);
    r
  }

  /** `endOfWeek`: six days after `startOfWeek`, at 23:59:59.999. */
  function EndOfWeek(startOfWeek: Date): (r: Date)
    ensures TimeValue(r) == (DayOf(startOfWeek) + 7) * MsPerDay - 1
  {
    var lastDay := SetDate(startOfWeek, startOfWeek.day + 6);
    SetHoursTimeValue(lastDay, 23, 59, 59, 999);
    SetHours(lastDay, 23, 59, 59, 999)
  }

  /** The first three stages of `getEventsFiltered`: status, creator, and excluded creator. */
  function ByStatusAndCreator(events: seq<CalendarEvent>, options: FilterOptions): (r: seq<CalendarEvent>)
    ensures forall e :: e in r <==> e in events && StatusMatches(options, e) && CreatorMatches(options, e)
                                    && OtherCreatorMatches(options, e)
  {
    var byStatus :=
      if options.status.Some? then Keep(events, (e: CalendarEvent) => e.status == options.status.value) else events;
    var byCreator :=
      if Truthy(options.createdByUserId) then
        Keep(byStatus, (e: CalendarEvent) => e.createdBy.id == options.createdByUserId.value)
      else byStatus;
    if Truthy(options.notCreatedByUserId) then
      Keep(byCreator, (e: CalendarEvent) => e.createdBy.id != options.notCreatedByUserId.value)
    else byCreator
  }

  /** The date stage of `getEventsFiltered`: `specificDay` first, else the view window around `today`. */
  function Windowed(s: seq<CalendarEvent>, options: FilterOptions, today: Date): (r: seq<CalendarEvent>)
    ensures |r| <= |s|
    ensures forall e :: e in r ==> e in s
  {
    if options.specificDay.Some? then
      var specific := StartOfDay(options.specificDay.value);
      Keep(s, (e: CalendarEvent) => TimeValue(StartOfDay(e.start)) == TimeValue(specific))
    else if options.viewMode.None? then s
    else match options.viewMode.value
      case Day => Keep(s, (e: CalendarEvent) => TimeValue(StartOfDay(e.start)) == TimeValue(today))
      case Week =>
        var startOfWeek := StartOfWeek(today);
        var endOfWeek := EndOfWeek(startOfWeek);
        Keep(s, (e: CalendarEvent) => TimeValue(startOfWeek) <= TimeValue(e.start) <= TimeValue(endOfWeek))
      case Month => Keep(s, (e: CalendarEvent) => e.start.year == today.year && e.start.month == today.month)
  }

  /** `getEventsFiltered`, stage by stage as the store computes it, then sorted by start. */
  function EventsFiltered(events: seq<CalendarEvent>, options: FilterOptions, now: Date): (r: seq<CalendarEvent>)
    ensures SortedBy(r, StartKey)
    ensures forall e :: e in r ==> e in events && StatusMatches(options, e) && CreatorMatches(options, e)
                                   && OtherCreatorMatches(options, e)
  {
    var today := StartOfDay(Anchor(options, now));
    var windowed := Windowed(ByStatusAndCreator(events, options), options, today);
    SortByPermutes(windowed, StartKey);
    SortBy(windowed, StartKey)
  }

  /** Comparing midnights compares calendar days. */
  lemma MidnightsEqualIffSameDay(a: Date, b: Date)
    ensures TimeValue(StartOfDay(a)) == TimeValue(StartOfDay(b)) <==> SameCalendarDay(a, b)
  {
    SameDayIffSameDayNumber(a, b);
  }

  /** The week window runs from Sunday 00:00 to Saturday 23:59:59.999 of the anchor's week. */
  lemma WeekBounds(anchor: Date)
    ensures TimeValue(StartOfWeek(StartOfDay(anchor))) == WeekStartDay(anchor) * MsPerDay
    ensures TimeValue(EndOfWeek(StartOfWeek(StartOfDay(anchor)))) == (WeekStartDay(anchor) + 7) * MsPerDay - 1
    ensures Weekday(StartOfWeek(StartOfDay(anchor))) == 0
  {
    var today := StartOfDay(anchor);
    var startOfWeek := StartOfWeek(today);
    var w := WeekStartDay(anchor);
    assert DayOf(today) == DayOf(anchor);
    assert DayOf(startOfWeek) == w;
    assert startOfWeek.msOfDay == 0;
    var lastDay := SetDate(startOfWeek, startOfWeek.day + 6);
    assert DayOf(lastDay) == w + 6;
    assert TimeValue(EndOfWeek(startOfWeek)) == (w + 6) * MsPerDay + 23 * MsPerHour + 59 * MsPerMinute + 59 * MsPerSecond + 999;
    StepBackToSunday(anchor, startOfWeek);
  }

  /** An event's start lies in the week window exactly when its day is one of the week's seven. */
  lemma WeekWindowMeaning(anchor: Date, e: CalendarEvent)
    ensures var startOfWeek := StartOfWeek(StartOfDay(anchor));
            TimeValue(startOfWeek) <= TimeValue(e.start) <= TimeValue(EndOfWeek(startOfWeek))
            <==> WeekStartDay(anchor) <= DayOf(e.start) <= WeekStartDay(anchor) + 6
  {
    WeekBounds(anchor);
  }

  /** The first three stages keep exactly the events whose status and creator match. */
  lemma ByStatusAndCreatorMeaning(events: seq<CalendarEvent>, options: FilterOptions)
    ensures ByStatusAndCreator(events, options)
            == Keep(events, (e: CalendarEvent) => StatusMatches(options, e) && CreatorMatches(options, e)
                                                  && OtherCreatorMatches(options, e))
  {
    var p1 := (e: CalendarEvent) => StatusMatches(options, e);
    var p2 := (e: CalendarEvent) => StatusMatches(options, e) && CreatorMatches(options, e);
    var p3 := (e: CalendarEvent) => StatusMatches(options, e) && CreatorMatches(options, e)
                                    && OtherCreatorMatches(options, e);
    if options.status.Some? {
      KeepAgreeing(events, (e: CalendarEvent) => e.status == options.status.value, p1);
    } else {
      KeepEverything(events, p1);
    }
    var byStatus :=
      if options.status.Some? then Keep(events, (e: CalendarEvent) => e.status == options.status.value) else events;
    assert byStatus == Keep(events, p1);
    if Truthy(options.createdByUserId) {
      KeepTwice(events, p1, (e: CalendarEvent) => e.createdBy.id == options.createdByUserId.value, p2);
    } else {
      KeepAgreeing(events, p1, p2);
    }
    var byCreator :=
      if Truthy(options.createdByUserId) then
        Keep(byStatus, (e: CalendarEvent) => e.createdBy.id == options.createdByUserId.value)
      else byStatus;
    assert byCreator == Keep(events, p2);
    if Truthy(options.notCreatedByUserId) {
      KeepTwice(events, p2, (e: CalendarEvent) => e.createdBy.id != options.notCreatedByUserId.value, p3);
    } else {
      KeepAgreeing(events, p2, p3);
    }
  }

  /** The date stage keeps exactly the events inside the window around the anchor date. */
  lemma WindowedMeaning(s: seq<CalendarEvent>, options: FilterOptions, anchor: Date)
    ensures Windowed(s, options, StartOfDay(anchor)) == Keep(s, (e: CalendarEvent) => InWindow(options, anchor, e))
  {
    var today := StartOfDay(anchor);
    var w := (e: CalendarEvent) => InWindow(options, anchor, e);
    if options.specificDay.Some? {
      var specific := StartOfDay(options.specificDay.value);
      var q := (e: CalendarEvent) => TimeValue(StartOfDay(e.start)) == TimeValue(specific);
      forall e | e in s ensures q(e) == w(e) {
        MidnightsEqualIffSameDay(e.start, options.specificDay.value);
      }
      KeepAgreeing(s, q, w);
    } else if options.viewMode.None? {
      KeepEverything(s, w);
    } else {
      match options.viewMode.value
      case Day =>
        var q := (e: CalendarEvent) => TimeValue(StartOfDay(e.start)) == TimeValue(today);
        forall e | e in s ensures q(e) == w(e) {
          MidnightsEqualIffSameDay(e.start, anchor);
        }
        KeepAgreeing(s, q, w);
      case Week =>
        var startOfWeek := StartOfWeek(today);
        var endOfWeek := EndOfWeek(startOfWeek);
        var q := (e: CalendarEvent) => TimeValue(startOfWeek) <= TimeValue(e.start) <= TimeValue(endOfWeek);
        forall e | e in s ensures q(e) == w(e) {
          WeekWindowMeaning(anchor, e);
        }
        KeepAgreeing(s, q, w);
      case Month =>
        var q := (e: CalendarEvent) => e.start.year == today.year && e.start.month == today.month;
        KeepAgreeing(s, q, w);
    }
  }

  /**
   * `getEventsFiltered` keeps exactly the events meeting every supplied option, in the order
   * of a stable sort by start time.
   */
  lemma EventsFilteredMeaning(events: seq<CalendarEvent>, options: FilterOptions, now: Date)
    ensures EventsFiltered(events, options, now)
            == SortBy(Keep(events, (e: CalendarEvent) => Selected(options, Anchor(options, now), e)), StartKey)
  {
    var anchor := Anchor(options, now);
    var p3 := (e: CalendarEvent) => StatusMatches(options, e) && CreatorMatches(options, e)
                                    && OtherCreatorMatches(options, e);
    var w := (e: CalendarEvent) => InWindow(options, anchor, e);
    ByStatusAndCreatorMeaning(events, options);
    WindowedMeaning(Keep(events, p3), options, anchor);
    KeepTwice(events, p3, w, (e: CalendarEvent) => Selected(options, anchor, e));
  }

  /** `getEventsFiltered` returns the selected events, each as often as in the store, by start time. */
  lemma EventsFilteredSelects(events: seq<CalendarEvent>, options: FilterOptions, now: Date)
    ensures var r := EventsFiltered(events, options, now);
            && SortedBy(r, StartKey)
            && (forall e :: e in r <==> e in events && Selected(options, Anchor(options, now), e))
            && multiset(r) == multiset(Keep(events, (e: CalendarEvent) => Selected(options, Anchor(options, now), e)))
  {
    EventsFilteredMeaning(events, options, now);
    var kept := Keep(events, (e: CalendarEvent) => Selected(options, Anchor(options, now), e));
    SortByPermutes(kept, StartKey);
  }

  /** Sorting a selection keeps events with equal keys in their original relative order. */
  lemma SortedSelectionStable(s: seq<CalendarEvent>, p: CalendarEvent -> bool, key: CalendarEvent -> int, k: int)
    ensures WithKey(SortBy(Keep(s, p), key), key, k) == Keep(WithKey(s, key, k), p)
  {
    SortByStable(Keep(s, p), key, k);
    var hasK := (e: CalendarEvent) => key(e) == k;
    var both := (e: CalendarEvent) => p(e) && key(e) == k;
    KeepTwice(s, p, hasK, both);
    KeepTwice(s, hasK, p, both);
  }

  /** Events of `getEventsFiltered` that start at the same instant keep the store's order. */
  lemma EventsFilteredStable(events: seq<CalendarEvent>, options: FilterOptions, now: Date, k: int)
    ensures WithKey(EventsFiltered(events, options, now), StartKey, k)
            == Keep(WithKey(events, StartKey, k), (e: CalendarEvent) => Selected(options, Anchor(options, now), e))
  {
    EventsFilteredMeaning(events, options, now);
    SortedSelectionStable(events, (e: CalendarEvent) => Selected(options, Anchor(options, now), e), StartKey, k);
  }

  /** `getEventsForDate(d)` is `getEventsFiltered` with an APPROVED status and `specificDay` d. */
  lemma EventsForDateIsFiltered(events: seq<CalendarEvent>, date: Date, now: Date)
    ensures EventsForDate(events, date)
            == EventsFiltered(events, FilterOptions(None, None, Some(Approved), Some(date), None, None), now)
  {
    var options := FilterOptions(None, None, Some(Approved), Some(date), None, None);
    EventsFilteredMeaning(events, options, now);
    KeepAgreeing(events, (e: CalendarEvent) => SameCalendarDay(e.start, date) && e.status == Approved,
                 (e: CalendarEvent) => Selected(options, Anchor(options, now), e));
  }
}
