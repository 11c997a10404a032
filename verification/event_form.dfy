/** The create and edit dialogs' form (src/components/events/CreateEventDialog.tsx
    and src/components/events/EditEventDialog.tsx): the timestamp texts built
    from the date and time fields, the all-day toggle, the category controls,
    what a submit writes to the backend, and how the edit dialog fills its form
    from a stored event. */
module EventForm {
  import opened Wrappers
  import opened Seqs
  import opened Text
  import opened Schema
  import opened Categories
  import opened Timezones
  import opened Attendees

  /** The fields both dialogs share. Dates are the `YYYY-MM-DD` text of a date
      input, times the `HH:MM` text of a time input. */
  datatype Fields = Fields(
    title: string,
    description: string,
    location: string,
    startDate: string,
    startTime: string,
    endDate: string,
    endTime: string,
    allDay: bool,
    attendees: string)

  /** The create dialog's form: the shared fields, the category with the colour
      shown for it, and the zone. */
  datatype CreateForm = CreateForm(
    fields: Fields,
    category: string,
    timezone: string,
    categoryColor: string)

  const DefaultStartTime: string := "09:00"
  const DefaultEndTime: string := "10:00"

  // ---------------------------------------------------------------------------
  // timestamps
  // ---------------------------------------------------------------------------

  /** The text handed to `new Date(...)`: a date, a `T`, and a clock reading
      that always ends in `Z`, so the typed time is read as UTC whatever zone
      the form names. */
  function Stamp(date: string, clock: string): string {
    date + "T" + clock
  }

  /** The start of an all-day event is midnight; a timed event starts at the
      typed time, zero seconds. */
  function StartStamp(f: Fields): (s: string)
    ensures 'T' !in f.startDate && f.allDay ==> Split(s, 'T') == [f.startDate, "00:00:00Z"]
    ensures 'T' !in f.startDate && 'T' !in f.startTime && !f.allDay
            ==> Split(s, 'T') == [f.startDate, f.startTime + ":00Z"]
  {
    var clock := if f.allDay then "00:00:00Z" else f.startTime + ":00Z";
    StampSplits(f.startDate, clock);
    Stamp(f.startDate, clock)
  }

  /** The end of an all-day event is the last second of its end date; a timed
      event ends at the typed time, zero seconds. */
  function EndStamp(f: Fields): (s: string)
    ensures 'T' !in f.endDate && f.allDay ==> Split(s, 'T') == [f.endDate, "23:59:59Z"]
    ensures 'T' !in f.endDate && 'T' !in f.endTime && !f.allDay
            ==> Split(s, 'T') == [f.endDate, f.endTime + ":00Z"]
  {
    var clock := if f.allDay then "23:59:59Z" else f.endTime + ":00Z";
    StampSplits(f.endDate, clock);
    Stamp(f.endDate, clock)
  }

  /** A stamp splits at its `T` back into the date and the clock, which is how
      the edit dialog takes the date out of a stored timestamp. */
  lemma StampSplits(date: string, clock: string)
    ensures 'T' !in date && 'T' !in clock ==> Split(Stamp(date, clock), 'T') == [date, clock]
  {
    if 'T' !in date && 'T' !in clock {
      assert Stamp(date, clock) == date + ['T'] + clock;
      SplitAppend(date, clock, 'T');
    }
  }

  // ---------------------------------------------------------------------------
  // nullable text columns
  // ---------------------------------------------------------------------------

  /** `text || null`: the empty text is stored as null. */
  function NullIfEmpty(s: string): (r: Option<string>)
    ensures r.None? <==> s == ""
    ensures r.Some? ==> r.value == s
  {
    if s == "" then None else Some(s)
  }

  /** `column || ""`: null is shown as the empty text. */
  function TextOrEmpty(o: Option<string>): (s: string)
    ensures o.None? ==> s == ""
    ensures o.Some? ==> s == o.value
  {
    match o
    case None => ""
    case Some(v) => v
  }

  /** Writing a text field and reading it back gives it back; reading a column
      and writing it back gives it back, except that a stored empty text comes
      back as null. */
  lemma NullableRoundTrip(s: string, o: Option<string>)
    ensures TextOrEmpty(NullIfEmpty(s)) == s
    ensures o != Some("") ==> NullIfEmpty(TextOrEmpty(o)) == o
    ensures o == Some("") ==> NullIfEmpty(TextOrEmpty(o)) == None
  {
  }

  // ---------------------------------------------------------------------------
  // the all-day checkbox
  // ---------------------------------------------------------------------------

  /** `handleAllDayChange(checked)`, the same in both dialogs: the flag takes
      the new value; ticking it also copies the start date into the end date.
      No other field changes. */
  function AllDayChange(f: Fields, checked: bool): (r: Fields)
    ensures r.allDay == checked
    ensures checked ==> r.endDate == f.startDate
    ensures !checked ==> r.endDate == f.endDate
    ensures r.(allDay := f.allDay, endDate := f.endDate) == f
  {
    var flagged := f.(allDay := checked);
    if checked then flagged.(endDate := flagged.startDate) else flagged
  }

  /** Ticking the box twice is ticking it once, and so is clearing it. */
  lemma AllDayChangeIdempotent(f: Fields, checked: bool)
    ensures AllDayChange(AllDayChange(f, checked), checked) == AllDayChange(f, checked)
  {
  }

  /** Once "all day" is ticked, the event written runs from midnight to the last
      second of one and the same date. */
  lemma AllDayCoversOneDate(f: Fields)
    requires 'T' !in f.startDate
    ensures var g := AllDayChange(f, true);
      && Split(StartStamp(g), 'T') == [f.startDate, "00:00:00Z"]
      && Split(EndStamp(g), 'T') == [f.startDate, "23:59:59Z"]
  {
  }

  // ---------------------------------------------------------------------------
  // category controls (create dialog)
  // ---------------------------------------------------------------------------

  /** `handleCategoryChange(category)`: the category and the colour shown for
      it (its override or its table colour); nothing else changes. */
  function CategoryChange(form: CreateForm, store: ColorStore, category: string): (r: CreateForm)
    ensures r.category == category
    ensures r.categoryColor == ColorWithCustom(store, category)
    ensures r.fields == form.fields && r.timezone == form.timezone
  {
    form.(category := category, categoryColor := ColorWithCustom(store, category))
  }

  /** `handleCategoryColorChange(color)`: the colour is remembered for the
      current category and shown at once, even if remembering it fails. */
  function CategoryColorChange(form: CreateForm, store: ColorStore, color: string, writeFails: bool)
    : (r: (CreateForm, ColorStore))
    ensures r.0.categoryColor == color
    ensures r.0.(categoryColor := form.categoryColor) == form
    ensures r.1 == SetCustomColor(store, form.category, color, writeFails)
  {
    (form.(categoryColor := color), SetCustomColor(store, form.category, color, writeFails))
  }

  /** A non-empty colour picked for a category comes back when the user picks
      another category and then returns to it. */
  lemma PickedColorComesBack(form: CreateForm, store: ColorStore, color: string, other: string)
    requires !store.NoWindow? && color != ""
    ensures var (f1, s1) := CategoryColorChange(form, store, color, false);
      CategoryChange(CategoryChange(f1, s1, other), s1, form.category).categoryColor == color
  {
    var (f1, s1) := CategoryColorChange(form, store, color, false);
    if other != form.category {
      SetThenReadColor(store, form.category, color, other);
    } else {
      SetThenReadColor(store, form.category, color, form.category + "x");
    }
  }

  // ---------------------------------------------------------------------------
  // the create dialog's starting form
  // ---------------------------------------------------------------------------

  /** The `useState` initializer of the create dialog's form. `selectedIso` is
      `selectedDate.toISOString()` for the `selectedDate` prop the dialog has
      when it mounts; its date part fills both date fields. The category is
      "personal", shown in its current colour, and the zone is the browser's
      (`resolvedZone`) or "UTC". The initializer runs only at mount; see
      `ClickDay` for what a later click does. */
  function InitialCreateForm(selectedIso: Option<string>, resolvedZone: Option<string>, store: ColorStore)
    : (r: CreateForm)
    ensures selectedIso.None? ==> r.fields.startDate == "" && r.fields.endDate == ""
    ensures selectedIso.Some? ==> r.fields.startDate == r.fields.endDate
                                  && r.fields.startDate == Split(selectedIso.value, 'T')[0]
    ensures r.fields.startTime == DefaultStartTime && r.fields.endTime == DefaultEndTime
    ensures !r.fields.allDay && r.fields.title == "" && r.fields.attendees == ""
    ensures r.fields.description == "" && r.fields.location == ""
    ensures r.category == DefaultCategory
    ensures r.categoryColor == ColorWithCustom(store, DefaultCategory)
    ensures r.timezone == UserTimezone(resolvedZone)
  {
    var date := if selectedIso.Some? then Split(selectedIso.value, 'T')[0] else "";
    CreateForm(
      Fields("", "", "", date, DefaultStartTime, date, DefaultEndTime, false, ""),
      DefaultCategory, UserTimezone(resolvedZone), ColorWithCustom(store, DefaultCategory))
  }

  /** The date part of an ISO timestamp is everything before its `T`. */
  lemma SelectedDateIsDatePart(date: string, clock: string, resolvedZone: Option<string>, store: ColorStore)
    requires 'T' !in date && 'T' !in clock
    ensures InitialCreateForm(Some(Stamp(date, clock)), resolvedZone, store).fields.startDate == date
  {
    StampSplits(date, clock);
  }

  // ---------------------------------------------------------------------------
  // clicking a day on the month page
  // ---------------------------------------------------------------------------

  /** The month page's part in creating an event: the day it has selected (as
      `toISOString()` text) and the mounted create dialog's form. Both pages
      mount the dialog once, together with the grid, after loading, when no
      day is selected yet; its form then starts as
      `InitialCreateForm(None, ...)`. */
  datatype CreatePage = CreatePage(selectedIso: Option<string>, form: CreateForm)

  /** `handleDateClick(date)` as written: the page selects the day and opens
      the dialog. The form is the dialog's own state, seeded only at mount, so
      the changed `selectedDate` prop leaves every field as it was. */
  function ClickDay(p: CreatePage, iso: string): (r: CreatePage)
    ensures r.selectedIso == Some(iso)
    ensures r.form == p.form
  {
    CreatePage(Some(iso), p.form)
  }

  /** On a freshly loaded page, clicking a day selects it but the dialog still
      shows empty date fields, not the clicked date. */
  lemma ClickedDayNeverReachesForm(resolvedZone: Option<string>, store: ColorStore, date: string, clock: string)
    requires 'T' !in date && 'T' !in clock && date != ""
    ensures var p := ClickDay(CreatePage(None, InitialCreateForm(None, resolvedZone, store)), Stamp(date, clock));
            && p.selectedIso == Some(Stamp(date, clock))
            && Split(p.selectedIso.value, 'T')[0] == date
            && p.form.fields.startDate == "" && p.form.fields.endDate == ""
            && p.form.fields.startDate != date
  {
    StampSplits(date, clock);
  }

  /** `handleDateClick(date)` as the dialog's `selectedDate` prop evidently
      intends: the clicked day's date part fills both date fields (what the
      initializer would have done had the day been selected at mount); every
      other field the user typed is kept. */
  function ClickDayFixed(p: CreatePage, iso: string): (r: CreatePage)
    ensures r.selectedIso == Some(iso)
    ensures r.form.fields.startDate == Split(iso, 'T')[0] && r.form.fields.endDate == Split(iso, 'T')[0]
    ensures r.form.(fields := r.form.fields.(startDate := p.form.fields.startDate,
                                             endDate := p.form.fields.endDate)) == p.form
  {
    var date := Split(iso, 'T')[0];
    CreatePage(Some(iso), p.form.(fields := p.form.fields.(startDate := date, endDate := date)))
  }

  /** With the fix, clicking a day shows that day in both date fields, and on a
      freshly loaded page the form is exactly the one the initializer builds
      for that selected day. */
  lemma FixedClickShowsDay(p: CreatePage, resolvedZone: Option<string>, store: ColorStore,
                           date: string, clock: string)
    requires 'T' !in date && 'T' !in clock
    ensures var r := ClickDayFixed(p, Stamp(date, clock));
            r.form.fields.startDate == date && r.form.fields.endDate == date
    ensures ClickDayFixed(CreatePage(None, InitialCreateForm(None, resolvedZone, store)), Stamp(date, clock)).form
            == InitialCreateForm(Some(Stamp(date, clock)), resolvedZone, store)
  {
    StampSplits(date, clock);
  }

  // ---------------------------------------------------------------------------
  // submitting
  // ---------------------------------------------------------------------------

  /** Why a submit ends in its `catch`: no signed-in user, the calendar query
      failed (`single()` also fails unless exactly one calendar has the id), a
      timestamp text is not a valid date (`toISOString` throws), or the event
      write failed. */
  datatype SubmitError = NotAuthenticated | CalendarLookupFailed | InvalidTime | WriteFailed

  /** The backend calls of a create that can fail on their own. */
  datatype CreateFaults = CreateFaults(
    calendarQueryFails: bool,
    eventInsertFails: bool,
    attendeeInsertFails: bool)

  /** The backend after a successful create, and the form it leaves behind. */
  datatype Created = Created(db: Db, form: CreateForm)

  /** `calendars.select("org_id").eq("id", calendarId).single()`: the owning
      organisation when exactly one calendar has the id. */
  function CalendarOrg(calendars: seq<Calendar>, calendarId: string, queryFails: bool)
    : (r: Option<string>)
    ensures r.Some? <==> !queryFails && |CalendarsWithId(calendars, calendarId)| == 1
    ensures r.Some? ==> exists c :: c in calendars && c.id == calendarId && c.orgId == r.value
  {
    var found := CalendarsWithId(calendars, calendarId);
    if queryFails || |found| != 1 then None
    else
      assert found[0] in calendars;
      Some(found[0].orgId)
  }

  /** The attendee rows a submit inserts: one per parsed e-mail, when there are
      any and the insert goes through. */
  function InsertedAttendees(eventId: string, text: string, insertFails: bool): (r: seq<Attendee>)
    ensures insertFails || ParseAttendees(text) == [] ==> r == []
    ensures !insertFails ==> r == AttendeeRows(eventId, ParseAttendees(text))
  {
    var emails := ParseAttendees(text);
    if |emails| > 0 && !insertFails then AttendeeRows(eventId, emails) else []
  }

  /** The create dialog's submit. `userId` is the signed-in user, if any;
      `eventId` the id the backend gives the new row; `toIso(s)` stands for
      `new Date(s).toISOString()`, nothing when `s` is not a valid date. On
      success the new event is appended, its attendees follow it (a failed
      attendee insert is only logged) and the form is reset. */
  function SubmitCreate(
    form: CreateForm, calendarId: string, userId: Option<string>, eventId: string,
    toIso: string -> Option<string>, db: Db, faults: CreateFaults,
    resolvedZone: Option<string>, store: ColorStore): (r: Result<Created, SubmitError>)
    ensures userId.None? ==> r == Failure(NotAuthenticated)
    ensures userId.Some? && CalendarOrg(db.calendars, calendarId, faults.calendarQueryFails).None?
            ==> r == Failure(CalendarLookupFailed)
    ensures r == Failure(InvalidTime) <==>
              && userId.Some? && CalendarOrg(db.calendars, calendarId, faults.calendarQueryFails).Some?
              && (toIso(StartStamp(form.fields)).None? || toIso(EndStamp(form.fields)).None?)
    ensures r.Success? <==>
              && userId.Some? && CalendarOrg(db.calendars, calendarId, faults.calendarQueryFails).Some?
              && toIso(StartStamp(form.fields)).Some? && toIso(EndStamp(form.fields)).Some?
              && !faults.eventInsertFails
    ensures r.Success? ==>
              && r.value.db.calendars == db.calendars
              && |r.value.db.events| == |db.events| + 1
              && r.value.db.events[..|db.events|] == db.events
              && r.value.db.attendees
                 == db.attendees + InsertedAttendees(eventId, form.fields.attendees, faults.attendeeInsertFails)
              && r.value.form == InitialCreateForm(None, resolvedZone, store)
    ensures r.Success? ==>
              var e := r.value.db.events[|db.events|];
              && e.id == eventId && e.calendarId == calendarId && e.createdBy == userId.value
              && Some(e.orgId) == CalendarOrg(db.calendars, calendarId, faults.calendarQueryFails)
              && e.title == form.fields.title && e.allDay == form.fields.allDay
              && e.description == NullIfEmpty(form.fields.description)
              && e.location == NullIfEmpty(form.fields.location)
              && Some(e.startAt) == toIso(StartStamp(form.fields))
              && Some(e.endAt) == toIso(EndStamp(form.fields))
              && e.category == Some(form.category) && e.timezone == form.timezone
              && e.rrule.None?
  {
    if userId.None? then Failure(NotAuthenticated)
    else
      var org := CalendarOrg(db.calendars, calendarId, faults.calendarQueryFails);
      if org.None? then Failure(CalendarLookupFailed)
      else
        var f := form.fields;
        var startAt := toIso(StartStamp(f));
        var endAt := toIso(EndStamp(f));
        if startAt.None? || endAt.None? then Failure(InvalidTime)
        else if faults.eventInsertFails then Failure(WriteFailed)
        else
          var row := Event(
            eventId, org.value, calendarId, f.title, NullIfEmpty(f.description),
            NullIfEmpty(f.location), startAt.value, endAt.value, f.allDay,
            Some(form.category), form.timezone, userId.value, None);
          var events := db.events + [row];
          assert events[..|db.events|] == db.events;
          var attendees := db.attendees + InsertedAttendees(eventId, f.attendees, faults.attendeeInsertFails);
          Success(Created(Db(db.calendars, events, attendees), InitialCreateForm(None, resolvedZone, store)))
  }

  /** The zone picked in the form is stored beside the timestamps and never
      applied to them: two submits that differ only in the zone write the same
      rows except for the new event's zone. */
  lemma ZoneNeverApplied(
    form: CreateForm, tz: string, calendarId: string, userId: Option<string>, eventId: string,
    toIso: string -> Option<string>, db: Db, faults: CreateFaults,
    resolvedZone: Option<string>, store: ColorStore)
    ensures var r1 := SubmitCreate(form, calendarId, userId, eventId, toIso, db, faults, resolvedZone, store);
      var r2 := SubmitCreate(form.(timezone := tz), calendarId, userId, eventId, toIso, db, faults, resolvedZone, store);
      && r1.Success? == r2.Success?
      && (r1.Success? ==>
            && r2.value.db.attendees == r1.value.db.attendees
            && r2.value.db.events[..|db.events|] == r1.value.db.events[..|db.events|]
            && r2.value.db.events[|db.events|]
               == r1.value.db.events[|db.events|].(timezone := tz))
  {
  }

  // ---------------------------------------------------------------------------
  // the edit dialog
  // ---------------------------------------------------------------------------

  /** How the edit dialog reads a stored timestamp `s`: `isoText(s)` stands for
      `new Date(s).toISOString()` (UTC) and `localTimeText(s)` for
      `new Date(s).toTimeString()` (the browser's local time). */
  datatype StampReader = StampReader(isoText: string -> string, localTimeText: string -> string)

  /** `slice(0, 5)`: at most the first five characters. */
  function FirstFive(s: string): (r: string)
    ensures |r| <= |s| && r == s[..|r|]
    ensures |r| == if |s| < 5 then |s| else 5
  {
    if |s| <= 5 then s else s[..5]
  }

  /** The form the edit dialog fills from the selected event: the texts of the
      event (null shown as empty), the UTC date part of each timestamp, the
      local time of each (the placeholders 09:00 and 10:00 for an all-day
      event), and the attendee e-mails joined by ", ". */
  function Prefill(listed: Listed, reader: StampReader): (f: Fields)
    ensures f.title == listed.event.title && f.allDay == listed.event.allDay
    ensures f.description == TextOrEmpty(listed.event.description)
    ensures f.location == TextOrEmpty(listed.event.location)
    ensures f.startDate == Split(reader.isoText(listed.event.startAt), 'T')[0]
    ensures f.endDate == Split(reader.isoText(listed.event.endAt), 'T')[0]
    ensures listed.event.allDay ==> f.startTime == DefaultStartTime && f.endTime == DefaultEndTime
    ensures !listed.event.allDay ==> f.startTime == FirstFive(reader.localTimeText(listed.event.startAt))
                                     && f.endTime == FirstFive(reader.localTimeText(listed.event.endAt))
    ensures f.attendees == SerializeAttendees(listed.attendees)
  {
    var e := listed.event;
    Fields(
      e.title, TextOrEmpty(e.description), TextOrEmpty(e.location),
      Split(reader.isoText(e.startAt), 'T')[0],
      if e.allDay then DefaultStartTime else FirstFive(reader.localTimeText(e.startAt)),
      Split(reader.isoText(e.endAt), 'T')[0],
      if e.allDay then DefaultEndTime else FirstFive(reader.localTimeText(e.endAt)),
      e.allDay, SerializeAttendees(listed.attendees))
  }

  /** The backend calls of an edit that can fail on their own. The result of
      the attendee delete is never looked at. */
  datatype EditFaults = EditFaults(updateFails: bool, deleteFails: bool, insertFails: bool)

  /** The six columns the edit writes. */
  datatype EventPatch = EventPatch(
    title: string,
    description: Option<string>,
    location: Option<string>,
    startAt: string,
    endAt: string,
    allDay: bool)

  /** An event row with the patch written over it. */
  function ApplyPatch(e: Event, p: EventPatch): (r: Event)
    ensures r.title == p.title && r.description == p.description && r.location == p.location
    ensures r.startAt == p.startAt && r.endAt == p.endAt && r.allDay == p.allDay
    ensures r.(title := e.title, description := e.description, location := e.location,
               startAt := e.startAt, endAt := e.endAt, allDay := e.allDay) == e
  {
    e.(title := p.title, description := p.description, location := p.location,
       startAt := p.startAt, endAt := p.endAt, allDay := p.allDay)
  }

  /** `events.update(patch).eq("id", id)`: every row with the id patched, the
      others untouched, the order kept. No matching row is not an error. */
  function UpdateEvents(events: seq<Event>, id: string, p: EventPatch): (r: seq<Event>)
    ensures |r| == |events|
    ensures forall i :: 0 <= i < |r| && events[i].id == id ==> r[i] == ApplyPatch(events[i], p)
    ensures forall i :: 0 <= i < |r| && events[i].id != id ==> r[i] == events[i]
  {
    if |events| == 0 then []
    else [if events[0].id == id then ApplyPatch(events[0], p) else events[0]]
         + UpdateEvents(events[1..], id, p)
  }

  /** The edit dialog's submit. Without a selected event nothing happens. The
      event row is patched first; a failed update, or a timestamp text that is
      not a valid date, ends the submit. Then all of the event's attendee rows
      are deleted (a failed delete goes unnoticed) and one row per parsed
      e-mail is inserted (a failed insert is only logged). */
  function SubmitEdit(
    selected: Option<Listed>, f: Fields, toIso: string -> Option<string>, db: Db, faults: EditFaults)
    : (r: Result<Db, SubmitError>)
    ensures selected.None? ==> r == Success(db)
    ensures selected.Some? ==>
              (r == Failure(InvalidTime) <==> toIso(StartStamp(f)).None? || toIso(EndStamp(f)).None?)
    ensures selected.Some? ==>
              (r.Success? <==> toIso(StartStamp(f)).Some? && toIso(EndStamp(f)).Some? && !faults.updateFails)
    ensures r.Success? ==> r.value.calendars == db.calendars
    ensures selected.Some? && r.Success? ==>
              var id := selected.value.event.id;
              && r.value.events == UpdateEvents(db.events, id, EventPatch(
                   f.title, NullIfEmpty(f.description), NullIfEmpty(f.location),
                   toIso(StartStamp(f)).value, toIso(EndStamp(f)).value, f.allDay))
              && r.value.attendees
                 == (if faults.deleteFails then db.attendees else DeleteAttendeesOf(db.attendees, id))
                    + InsertedAttendees(id, f.attendees, faults.insertFails)
  {
    if selected.None? then Success(db)
    else
      var id := selected.value.event.id;
      var startAt := toIso(StartStamp(f));
      var endAt := toIso(EndStamp(f));
      if startAt.None? || endAt.None? then Failure(InvalidTime)
      else if faults.updateFails then Failure(WriteFailed)
      else
        var patch := EventPatch(
          f.title, NullIfEmpty(f.description), NullIfEmpty(f.location),
          startAt.value, endAt.value, f.allDay);
        var kept := if faults.deleteFails then db.attendees else DeleteAttendeesOf(db.attendees, id);
        Success(Db(db.calendars, UpdateEvents(db.events, id, patch),
                   kept + InsertedAttendees(id, f.attendees, faults.insertFails)))
  }

  /** After a successful edit whose attendee calls go through, the event's
      attendee rows are exactly the parsed e-mails, one row each, in order, all
      with a fresh "pending" response: earlier answers are not carried over. */
  lemma EditReconcilesAttendees(listed: Listed, f: Fields, toIso: string -> Option<string>, db: Db)
    requires toIso(StartStamp(f)).Some? && toIso(EndStamp(f)).Some?
    ensures var r := SubmitEdit(Some(listed), f, toIso, db, EditFaults(false, false, false));
      && r.Success?
      && AttendeesOf(r.value.attendees, listed.event.id)
         == AttendeeRows(listed.event.id, ParseAttendees(f.attendees))
      && Emails(AttendeesOf(r.value.attendees, listed.event.id)) == ParseAttendees(f.attendees)
  {
    var id := listed.event.id;
    var kept := DeleteAttendeesOf(db.attendees, id);
    var added := InsertedAttendees(id, f.attendees, false);
    AttendeesOfAppend(kept, added, id);
    DeleteAttendeesOfClears(db.attendees, id);
    AttendeeRowsFaithful(id, ParseAttendees(f.attendees));
  }

  /** An edit, whatever fails, leaves every other event's attendee rows as they
      were. */
  lemma EditKeepsOtherAttendees(
    listed: Listed, f: Fields, toIso: string -> Option<string>, db: Db, faults: EditFaults, other: string)
    requires other != listed.event.id
    ensures var r := SubmitEdit(Some(listed), f, toIso, db, faults);
      r.Success? ==> AttendeesOf(r.value.attendees, other) == AttendeesOf(db.attendees, other)
  {
    var id := listed.event.id;
    var r := SubmitEdit(Some(listed), f, toIso, db, faults);
    if r.Success? {
      var kept := if faults.deleteFails then db.attendees else DeleteAttendeesOf(db.attendees, id);
      var added := InsertedAttendees(id, f.attendees, faults.insertFails);
      AttendeesOfAppend(kept, added, other);
      DeleteAttendeesOfKeepsOthers(db.attendees, id, other);
      AttendeeRowsOfOtherEvent(id, ParseAttendees(f.attendees), other);
    }
  }

  /** Rows built for one event are none of another event's rows. */
  lemma {:induction false} AttendeeRowsOfOtherEvent(eventId: string, emails: seq<string>, other: string)
    requires other != eventId
    ensures AttendeesOf(AttendeeRows(eventId, emails), other) == []
  {
    if |emails| > 0 {
      AttendeeRowsOfOtherEvent(eventId, emails[1..], other);
      assert AttendeeRows(eventId, emails)[1..] == AttendeeRows(eventId, emails[1..]);
    }
  }

  /** Because the delete's result is not checked, a failed delete followed by
      a successful insert keeps the event's old rows and adds the new ones
      after them: an unchanged e-mail is then listed twice. */
  lemma EditWithFailedDeleteKeepsOldRows(listed: Listed, f: Fields, toIso: string -> Option<string>, db: Db)
    requires toIso(StartStamp(f)).Some? && toIso(EndStamp(f)).Some?
    ensures var id := listed.event.id;
      var r := SubmitEdit(Some(listed), f, toIso, db, EditFaults(false, true, false));
      && r.Success?
      && AttendeesOf(r.value.attendees, id)
         == AttendeesOf(db.attendees, id) + AttendeeRows(id, ParseAttendees(f.attendees))
  {
    var id := listed.event.id;
    AttendeesOfAppend(db.attendees, InsertedAttendees(id, f.attendees, false), id);
    AttendeeRowsFaithful(id, ParseAttendees(f.attendees));
  }

  /** The edit writes only the six patched columns: every row keeps its id,
      organisation, calendar, category, zone, author and recurrence. */
  lemma EditWritesOnlyPatchedColumns(
    listed: Listed, f: Fields, toIso: string -> Option<string>, db: Db, faults: EditFaults, i: nat)
    requires i < |db.events|
    ensures var r := SubmitEdit(Some(listed), f, toIso, db, faults);
      r.Success? ==>
        var before, after := db.events[i], r.value.events[i];
        && after.id == before.id && after.orgId == before.orgId
        && after.calendarId == before.calendarId && after.category == before.category
        && after.timezone == before.timezone && after.createdBy == before.createdBy
        && after.rrule == before.rrule
  {
  }

  /** Opening the edit dialog on an event and saving without touching the form
      keeps the event's title, texts and all-day flag (a stored empty text
      becomes null), and re-creates its attendee rows with the same e-mails in
      the same order, provided the stored e-mails are ones the parser could
      have produced. */
  lemma PrefillThenSaveKeepsEvent(
    listed: Listed, reader: StampReader, toIso: string -> Option<string>, db: Db, i: nat)
    requires i < |db.events| && db.events[i] == listed.event
    requires listed.attendees == Some(AttendeesOf(db.attendees, listed.event.id))
    requires forall k :: 0 <= k < |listed.attendees.value| ==> WellFormedEmail(listed.attendees.value[k].email)
    requires var f := Prefill(listed, reader);
      toIso(StartStamp(f)).Some? && toIso(EndStamp(f)).Some?
    ensures var f := Prefill(listed, reader);
      var r := SubmitEdit(Some(listed), f, toIso, db, EditFaults(false, false, false));
      && r.Success?
      && r.value.events[i].title == listed.event.title
      && r.value.events[i].allDay == listed.event.allDay
      && (listed.event.description != Some("") ==> r.value.events[i].description == listed.event.description)
      && (listed.event.location != Some("") ==> r.value.events[i].location == listed.event.location)
      && Emails(AttendeesOf(r.value.attendees, listed.event.id)) == Emails(listed.attendees.value)
  {
    var f := Prefill(listed, reader);
    NullableRoundTrip(f.description, listed.event.description);
    NullableRoundTrip(f.location, listed.event.location);
    SerializeParseRoundTrip(listed.attendees);
    EditReconcilesAttendees(listed, f, toIso, db);
  }

  /** An event created through the dialog, opened in the edit dialog, shows the
      title, description, location, all-day flag and attendee e-mails that were
      typed (e-mails as parsed), when its id was not in use and its attendees
      were written. */
  lemma CreateThenPrefill(
    form: CreateForm, calendarId: string, userId: Option<string>, eventId: string,
    toIso: string -> Option<string>, db: Db, faults: CreateFaults,
    resolvedZone: Option<string>, store: ColorStore, reader: StampReader)
    requires !faults.attendeeInsertFails
    requires AttendeesOf(db.attendees, eventId) == []
    ensures var r := SubmitCreate(form, calendarId, userId, eventId, toIso, db, faults, resolvedZone, store);
      r.Success? ==>
        var row := r.value.db.events[|db.events|];
        var f := Prefill(Listed(row, Some(AttendeesOf(r.value.db.attendees, eventId))), reader);
        && f.title == form.fields.title && f.allDay == form.fields.allDay
        && f.description == form.fields.description && f.location == form.fields.location
        && ParseAttendees(f.attendees) == ParseAttendees(form.fields.attendees)
  {
    var r := SubmitCreate(form, calendarId, userId, eventId, toIso, db, faults, resolvedZone, store);
    if r.Success? {
      var mine := AttendeesOf(r.value.db.attendees, eventId);
      NewEventAttendees(db.attendees, eventId, form.fields.attendees);
      SerializeParseRoundTrip(Some(mine));
      NullableRoundTrip(form.fields.description, None);
      NullableRoundTrip(form.fields.location, None);
    }
  }

  /** The attendee rows of an event whose id was unused, right after its rows
      were inserted, carry the parsed e-mails. */
  lemma NewEventAttendees(rows: seq<Attendee>, eventId: string, text: string)
    requires AttendeesOf(rows, eventId) == []
    ensures var mine := AttendeesOf(rows + InsertedAttendees(eventId, text, false), eventId);
      && Emails(mine) == ParseAttendees(text)
      && forall k :: 0 <= k < |mine| ==> WellFormedEmail(mine[k].email)
  {
    var emails := ParseAttendees(text);
    var added := InsertedAttendees(eventId, text, false);
    AttendeesOfAppend(rows, added, eventId);
    AttendeeRowsFaithful(eventId, emails);
    var mine := AttendeesOf(rows + added, eventId);
    if |emails| == 0 {
      assert added == [] && mine == [];
    } else {
      assert AttendeesOf(added, eventId) == added;
      EmptyConcat(added);
      assert mine == added;
    }
  }
}
