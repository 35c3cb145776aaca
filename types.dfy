/** The records shared by the store, the calendars and the event form. */
module Types {
  import opened Optional
  import opened JsDate

  datatype User = User(id: string, name: string)

  datatype EventStatus = Pending | Approved | Rejected

  datatype CalendarEvent = CalendarEvent(
    id: string,
    title: string,
    location: Option<string>,
    start: Date,
    end: Date,
    description: Option<string>,
    createdBy: User,
    status: EventStatus,
    allDay: bool,
    participantsCategory: Option<string>
  )

  /** What `addEvent` is given: an event without `id`, `status` and `createdBy`. */
  datatype EventInput = EventInput(
    title: string,
    location: Option<string>,
    start: Date,
    end: Date,
    description: Option<string>,
    allDay: bool,
    participantsCategory: Option<string>
  )

  datatype ViewMode = Day | Week | Month

  /** The event form's fields; dates are YYYY-MM-DD strings and times HH:MM strings. */
  datatype FormData = FormData(
    title: string,
    location: string,
    startDate: string,
    startTime: string,
    endDate: string,
    endTime: string,
    description: string,
    allDay: bool,
    participantsCategory: string
  )

  /** The two fixed members of the family calendar, keyed as in the `USERS` table. */
  const Karsen: User := User("karsen", "Karsen")
  const Dalton: User := User("dalton", "Dalton")

  /** `USERS[key]`: a known key names its user, any other key nothing. */
  function LookupUser(key: string): (r: Option<User>)
    ensures r.Some? <==> key == "karsen" || key == "dalton"
    ensures r.Some? ==> r.value.id == key
    ensures key == "karsen" ==> r == Some(Karsen)
    ensures key == "dalton" ==> r == Some(Dalton)
  {
    if key == "karsen" then Some(Karsen)
    else if key == "dalton" then Some(Dalton)
    else None
  }
}
