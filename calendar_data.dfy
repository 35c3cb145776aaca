/**
 * The event store of `CalendarDataProvider`: the list of events and the active user,
 * replaced wholesale by each mutation, and the two queries over the current list.
 * The clock behind `Date.now()` ids and `new Date()` is a parameter of the operations.
 */
module CalendarData {
  import opened Optional
  import opened JsDate
  import opened Types
  import opened EventQueries

  /** The event `addEvent` appends: the input's fields, the given id, PENDING, the active user. */
  function NewEvent(data: EventInput, id: string, creator: User): (e: CalendarEvent)
    ensures e.id == id && e.status == Pending && e.createdBy == creator
    ensures EventInput(e.title, e.location, e.start, e.end, e.description, e.allDay, e.participantsCategory) == data
  {
    CalendarEvent(id, data.title, data.location, data.start, data.end, data.description,
                  creator, Pending, data.allDay, data.participantsCategory)
  }

  /** A pending event is invisible to `getEventsForDate`: adding one does not change any day's list. */
  lemma AddedEventHiddenUntilApproved(events: seq<CalendarEvent>, data: EventInput, id: string, creator: User,
                                      date: Date)
    ensures EventsForDate(events + [NewEvent(data, id, creator)], date) == EventsForDate(events, date)
  {
    var p := (e: CalendarEvent) => SameCalendarDay(e.start, date) && e.status == Approved;
    var e := NewEvent(data, id, creator);
    KeepConcat(events, [e], p);
    assert Keep([e], p) == [] by {
      assert [e][1..] == [];
    }
    assert Keep(events + [e], p) == Keep(events, p);
  }

  /** Approving an event of the list makes it appear on its own day. */
  lemma ApprovedEventShown(events: seq<CalendarEvent>, id: string, i: int)
    requires 0 <= i < |events| && events[i].id == id
    ensures events[i].(status := Approved) in EventsForDate(WithStatus(events, id, Approved), events[i].start)
  {
    var r := WithStatus(events, id, Approved);
    assert r[i] == events[i].(status := Approved);
    assert r[i] in r;
  }

  /** Deleting an id leaves no event with that id in any query result. */
  lemma DeletedEventGone(events: seq<CalendarEvent>, id: string, options: FilterOptions, now: Date)
    ensures forall e :: e in EventsFiltered(WithoutId(events, id), options, now) ==> e.id != id
  {
    EventsFilteredSelects(WithoutId(events, id), options, now);
  }

  class CalendarStore {
    var events: seq<CalendarEvent>
    var currentUser: User

    /** The provider starts from the given list with Karsen active. */
    constructor (initialEvents: seq<CalendarEvent>)
      ensures events == initialEvents
      ensures currentUser == Karsen
    {
      events := initialEvents;
      currentUser := Karsen;
    }

    /**
     * `setCurrentUser`: a known key selects its user; any other key falls back to Karsen
     * (the source warns on the console) and reports that it did.
     */
    method SetCurrentUser(key: string) returns (fellBack: bool)
      modifies this
      ensures fellBack <==> !(key == "karsen" || key == "dalton")
      ensures !fellBack ==> currentUser.id == key && Some(currentUser) == LookupUser(key)
      ensures fellBack ==> currentUser == Karsen
      ensures events == old(events)
    {
      var user := LookupUser(key);
      if user.Some? {
        currentUser := user.value;
        fellBack := false;
      } else {
        currentUser := Karsen;
        fellBack := true;
      }
    }

    /** `addEvent`: one new PENDING event created by the active user is appended; nothing else changes. */
    method AddEvent(data: EventInput, freshId: string)
      modifies this
      ensures events == old(events) + [NewEvent(data, freshId, old(currentUser))]
      ensures currentUser == old(currentUser)
    {
      events := events + [NewEvent(data, freshId, currentUser)];
    }

    /** `updateEventStatus`: every event carrying `id` gets `status`; all else is kept in place. */
    method UpdateEventStatus(id: string, status: EventStatus)
      modifies this
      ensures events == WithStatus(old(events), id, status)
      ensures currentUser == old(currentUser)
    {
      events := WithStatus(events, id, status);
    }

    /** `deleteEvent`: every event carrying `id` is removed; the rest keep their order. */
    method DeleteEvent(id: string)
      modifies this
      ensures events == WithoutId(old(events), id)
      ensures currentUser == old(currentUser)
    {
      events := WithoutId(events, id);
    }

    /** `getEventsForDate`: the approved events of `date`'s day, by start time; the store is unchanged. */
    method GetEventsForDate(date: Date) returns (r: seq<CalendarEvent>)
      ensures SortedBy(r, StartKey)
      ensures forall e :: e in r <==> e in events && e.status == Approved && SameCalendarDay(e.start, date)
      ensures r == EventsForDate(events, date)
    {
      r := EventsForDate(events, date);
    }

    /** `getEventsFiltered`: the selected events by start time, ties in list order; the store is unchanged. */
    method GetEventsFiltered(options: FilterOptions, now: Date) returns (r: seq<CalendarEvent>)
      ensures SortedBy(r, StartKey)
      ensures forall e :: e in r <==> e in events && Selected(options, Anchor(options, now), e)
      ensures forall k :: WithKey(r, StartKey, k)
                          == Keep(WithKey(events, StartKey, k),
                                  (e: CalendarEvent) => Selected(options, Anchor(options, now), e))
    {
      r := EventsFiltered(events, options, now);
      EventsFilteredSelects(events, options, now);
      forall k ensures WithKey(r, StartKey, k)
                       == Keep(WithKey(events, StartKey, k),
                               (e: CalendarEvent) => Selected(options, Anchor(options, now), e)) {
        EventsFilteredStable(events, options, now, k);
      }
    }
  }
}
