/** The rows of the backend tables the application reads and writes, and the
    four database enums (src/integrations/supabase/types.ts). Server-assigned
    columns the application never reads back (`created_at`, `updated_at`, row
    ids of attendees, `public_id`) are not represented. */
module Schema {
  import opened Wrappers
  import opened Seqs

  // ---------------------------------------------------------------------------
  // enums
  // ---------------------------------------------------------------------------

  datatype AttendeeResponse = Pending | Accepted | Declined | Tentative

  datatype CalendarVisibility = Private | Team | Public

  datatype InviteStatus = InvitePending | InviteAccepted | InviteDeclined | InviteExpired

  datatype OrganisationRole = Owner | Admin | Member | Viewer

  /** The wire spelling of a response, as compared against in the event card. */
  function ResponseText(r: AttendeeResponse): string {
    match r
    case Pending => "pending"
    case Accepted => "accepted"
    case Declined => "declined"
    case Tentative => "tentative"
  }

  /** Reads a wire spelling back; anything outside the enum is rejected. */
  function ParseResponse(s: string): (r: Option<AttendeeResponse>)
    ensures r.Some? <==> s in {"pending", "accepted", "declined", "tentative"}
    ensures r.Some? ==> ResponseText(r.value) == s
  {
    if s == "pending" then Some(Pending)
    else if s == "accepted" then Some(Accepted)
    else if s == "declined" then Some(Declined)
    else if s == "tentative" then Some(Tentative)
    else None
  }

  function VisibilityText(v: CalendarVisibility): string {
    match v
    case Private => "private"
    case Team => "team"
    case Public => "public"
  }

  function ParseVisibility(s: string): (r: Option<CalendarVisibility>)
    ensures r.Some? <==> s in {"private", "team", "public"}
    ensures r.Some? ==> VisibilityText(r.value) == s
  {
    if s == "private" then Some(Private)
    else if s == "team" then Some(Team)
    else if s == "public" then Some(Public)
    else None
  }

  /** Every enum value survives a trip through its wire spelling, so the
      spellings are pairwise distinct. */
  lemma EnumTextRoundTrip(r: AttendeeResponse, v: CalendarVisibility)
    ensures ParseResponse(ResponseText(r)) == Some(r)
    ensures ParseVisibility(VisibilityText(v)) == Some(v)
  {
  }

  // ---------------------------------------------------------------------------
  // rows
  // ---------------------------------------------------------------------------

  /** A row of `attendees`. */
  datatype Attendee = Attendee(
    eventId: string,
    email: string,
    name: Option<string>,
    response: AttendeeResponse)

  /** A row of `events`. `category` is written by the create dialog although the
      generated row type does not list it. */
  datatype Event = Event(
    id: string,
    orgId: string,
    calendarId: string,
    title: string,
    description: Option<string>,
    location: Option<string>,
    startAt: string,
    endAt: string,
    allDay: bool,
    category: Option<string>,
    timezone: string,
    createdBy: string,
    rrule: Option<string>)

  /** A row of `calendars`. */
  datatype Calendar = Calendar(
    id: string,
    orgId: string,
    name: string,
    description: Option<string>,
    color: string,
    visibility: CalendarVisibility,
    createdBy: string)

  /** An event as the pages fetch it: the row with its attendees joined in
      (`attendees` may be missing from the payload altogether). */
  datatype Listed = Listed(event: Event, attendees: Option<seq<Attendee>>)

  /** The slice of the backend the dialogs read and write. */
  datatype Db = Db(calendars: seq<Calendar>, events: seq<Event>, attendees: seq<Attendee>)

  /** The calendar rows with a given id, in table order. */
  function CalendarsWithId(rows: seq<Calendar>, id: string): (r: seq<Calendar>)
    ensures |r| <= |rows|
    ensures forall i :: 0 <= i < |r| ==> r[i].id == id && r[i] in rows
    ensures forall c :: c in rows && c.id == id ==> c in r
  {
    if |rows| == 0 then []
    else (if rows[0].id == id then [rows[0]] else []) + CalendarsWithId(rows[1..], id)
  }

  /** The attendee rows of one event, in table order. */
  function AttendeesOf(rows: seq<Attendee>, eventId: string): (r: seq<Attendee>)
    ensures |r| <= |rows|
    ensures forall i :: 0 <= i < |r| ==> r[i].eventId == eventId && r[i] in rows
    ensures forall a :: a in rows && a.eventId == eventId ==> a in r
  {
    if |rows| == 0 then []
    else
      (if rows[0].eventId == eventId then [rows[0]] else [])
      + AttendeesOf(rows[1..], eventId)
  }

  /** The rows left after `delete().eq("event_id", eventId)`. */
  function DeleteAttendeesOf(rows: seq<Attendee>, eventId: string): (r: seq<Attendee>)
    ensures |r| <= |rows|
    ensures forall i :: 0 <= i < |r| ==> r[i].eventId != eventId && r[i] in rows
    ensures forall a :: a in rows && a.eventId != eventId ==> a in r
  {
    if |rows| == 0 then []
    else
      (if rows[0].eventId != eventId then [rows[0]] else [])
      + DeleteAttendeesOf(rows[1..], eventId)
  }

  /** Deleting an event's attendees leaves none of its rows. */
  lemma {:induction false} DeleteAttendeesOfClears(rows: seq<Attendee>, eventId: string)
    ensures AttendeesOf(DeleteAttendeesOf(rows, eventId), eventId) == []
  {
    if |rows| > 0 {
      var head := if rows[0].eventId != eventId then [rows[0]] else [];
      DeleteAttendeesOfClears(rows[1..], eventId);
      AttendeesOfAppend(head, DeleteAttendeesOf(rows[1..], eventId), eventId);
    }
  }

  /** Deleting an event's attendees leaves every other event's rows exactly as
      they were, in the same order. */
  lemma {:induction false} DeleteAttendeesOfKeepsOthers(rows: seq<Attendee>, eventId: string, other: string)
    requires other != eventId
    ensures AttendeesOf(DeleteAttendeesOf(rows, eventId), other) == AttendeesOf(rows, other)
  {
    if |rows| > 0 {
      var head := if rows[0].eventId != eventId then [rows[0]] else [];
      DeleteAttendeesOfKeepsOthers(rows[1..], eventId, other);
      AttendeesOfAppend(head, DeleteAttendeesOf(rows[1..], eventId), other);
    }
  }

  /** Selecting one event's rows distributes over appending rows. */
  lemma {:induction false} AttendeesOfAppend(a: seq<Attendee>, b: seq<Attendee>, eventId: string)
    ensures AttendeesOf(a + b, eventId) == AttendeesOf(a, eventId) + AttendeesOf(b, eventId)
  {
    if |a| > 0 {
      AttendeesOfAppend(a[1..], b, eventId);
      ConcatCons(a, b);
      var head := if a[0].eventId == eventId then [a[0]] else [];
      ConcatAssoc(head, AttendeesOf(a[1..], eventId), AttendeesOf(b, eventId));
    } else {
      assert a + b == b;
    }
  }
}
