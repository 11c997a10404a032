/** The attendee field of the event dialogs: the comma-separated e-mail list the
    user types, the rows built from it, and the text the edit dialog pre-fills
    from the stored rows (src/components/events/CreateEventDialog.tsx and
    src/components/events/EditEventDialog.tsx). */
module Attendees {
  import opened Wrappers
  import opened Text
  import opened Schema
  import opened Seqs

  /** A well-formed stored e-mail: what the parser can produce. */
  predicate WellFormedEmail(e: string) {
    e != "" && IsTrimmed(e) && ',' !in e
  }

  /** One piece of the split: its trim, or nothing when that is empty. */
  function Piece(p: string): (r: seq<string>)
    ensures |r| <= 1
    ensures forall j :: 0 <= j < |r| ==> r[j] != "" && IsTrimmed(r[j])
    ensures ',' !in p ==> forall j :: 0 <= j < |r| ==> ',' !in r[j]
  {
    var t := Trim(p);
    TrimKeepsAbsent(p, ',');
    if t != "" then [t] else []
  }

  /** Each piece trimmed, the empty ones dropped, order and duplicates kept. */
  function CleanPieces(pieces: seq<string>): (r: seq<string>)
    ensures |r| <= |pieces|
    ensures forall j :: 0 <= j < |r| ==> r[j] != "" && IsTrimmed(r[j])
    ensures (forall i :: 0 <= i < |pieces| ==> ',' !in pieces[i])
            ==> forall j :: 0 <= j < |r| ==> ',' !in r[j]
  {
    if |pieces| == 0 then [] else Piece(pieces[0]) + CleanPieces(pieces[1..])
  }

  /** `attendees.split(',').map(e => e.trim()).filter(e => e.length > 0)`:
      the e-mails of the field, each non-empty, trimmed and comma-free. */
  function ParseAttendees(s: string): (r: seq<string>)
    ensures forall j :: 0 <= j < |r| ==> WellFormedEmail(r[j])
  {
    CleanPieces(Split(s, ','))
  }

  lemma CleanPiecesCons(x: string, rest: seq<string>)
    ensures CleanPieces([x] + rest) == Piece(x) + CleanPieces(rest)
  {
    assert ([x] + rest)[1..] == rest;
  }

  lemma {:induction false} CleanPiecesAppend(a: seq<string>, b: seq<string>)
    ensures CleanPieces(a + b) == CleanPieces(a) + CleanPieces(b)
  {
    if |a| == 0 {
      assert a + b == b;
    } else {
      HeadTail(a);
      CleanPiecesCons(a[0], a[1..]);
      CleanPiecesAppend(a[1..], b);
      ConcatCons(a, b);
      CleanPiecesCons(a[0], a[1..] + b);
      ConcatAssoc(Piece(a[0]), CleanPieces(a[1..]), CleanPieces(b));
    }
  }

  /** Parsing `a + "," + b` parses the two halves independently and keeps them
      in order: nothing is reordered, merged or de-duplicated. */
  lemma ParseConcat(a: string, b: string)
    ensures ParseAttendees(a + "," + b) == ParseAttendees(a) + ParseAttendees(b)
  {
    assert a + "," + b == a + [','] + b;
    SplitConcat(a, b, ',');
    CleanPiecesAppend(Split(a, ','), Split(b, ','));
  }

  /** A comma-free text is one e-mail (its trim) or, if blank, none. */
  lemma ParseSingle(s: string)
    requires ',' !in s
    ensures Trim(s) != "" ==> ParseAttendees(s) == [Trim(s)]
    ensures Trim(s) == "" ==> ParseAttendees(s) == []
  {
    CleanPiecesCons(s, []);
  }

  /** A space after a comma is never part of an e-mail. */
  lemma ParseSkipsLeadingSpace(s: string)
    ensures ParseAttendees(" " + s) == ParseAttendees(s)
  {
    var parts := Split(s, ',');
    SplitPrepend(' ', s, ',');
    assert " " + s == [' '] + s;
    CleanPiecesCons(" " + parts[0], parts[1..]);
    CleanPiecesCons(parts[0], parts[1..]);
    TrimSkipsLeadingSpace(parts[0]);
    HeadTail(parts);
  }

  // ---------------------------------------------------------------------------
  // names
  // ---------------------------------------------------------------------------

  /** `email.split('@')[0]`: the text before the first '@', or the whole e-mail
      when it has none. */
  function NameFromEmail(e: string): (r: string)
    ensures |r| <= |e| && r == e[..|r|] && '@' !in r
    ensures |r| < |e| ==> e[|r|] == '@'
    ensures r == e <==> '@' !in e
  {
    SplitHead(e, '@');
    Split(e, '@')[0]
  }

  // ---------------------------------------------------------------------------
  // rows
  // ---------------------------------------------------------------------------

  /** The row inserted for one e-mail. The insert leaves `response` to the
      column default, which is "pending". */
  function NewRow(eventId: string, email: string): Attendee {
    Attendee(eventId, email, Some(NameFromEmail(email)), Pending)
  }

  /** `attendeeEmails.map(email => ({ event_id, email, name }))`. */
  function AttendeeRows(eventId: string, emails: seq<string>): (r: seq<Attendee>)
    ensures |r| == |emails|
    ensures forall i :: 0 <= i < |r| ==>
              && r[i].eventId == eventId && r[i].email == emails[i]
              && r[i].name == Some(NameFromEmail(emails[i])) && r[i].response == Pending
  {
    if |emails| == 0 then [] else [NewRow(eventId, emails[0])] + AttendeeRows(eventId, emails[1..])
  }

  /** The e-mails of a list of rows, in order. */
  function Emails(rows: seq<Attendee>): (r: seq<string>)
    ensures |r| == |rows|
    ensures forall i :: 0 <= i < |rows| ==> r[i] == rows[i].email
  {
    if |rows| == 0 then [] else [rows[0].email] + Emails(rows[1..])
  }

  /** The e-mails of the rows built are the e-mails given, and every row built
      belongs to the event: selecting the event's rows finds them all. */
  lemma {:induction false} AttendeeRowsFaithful(eventId: string, emails: seq<string>)
    ensures Emails(AttendeeRows(eventId, emails)) == emails
    ensures AttendeesOf(AttendeeRows(eventId, emails), eventId) == AttendeeRows(eventId, emails)
  {
    if |emails| > 0 {
      AttendeeRowsFaithful(eventId, emails[1..]);
      var rows := AttendeeRows(eventId, emails);
      assert rows[1..] == AttendeeRows(eventId, emails[1..]);
    }
  }

  // ---------------------------------------------------------------------------
  // pre-filling the edit dialog
  // ---------------------------------------------------------------------------

  /** `event.attendees?.map(a => a.email).join(', ') || ""`: the stored e-mails
      joined by a comma and a space; no attendees list, or an empty one, gives
      the empty text. */
  function SerializeAttendees(attendees: Option<seq<Attendee>>): (s: string)
    ensures attendees.None? || attendees.value == [] ==> s == ""
    ensures attendees.Some? ==> s == Join(Emails(attendees.value), ", ")
  {
    match attendees
    case None => ""
    case Some(rows) => Join(Emails(rows), ", ")
  }

  /** Parsing what the edit dialog pre-fills gives back the stored e-mails,
      provided each of them is one the parser could have produced. */
  lemma {:induction false} ParseJoinRoundTrip(emails: seq<string>)
    requires forall i :: 0 <= i < |emails| ==> WellFormedEmail(emails[i])
    ensures ParseAttendees(Join(emails, ", ")) == emails
  {
    if |emails| == 1 {
      TrimOfTrimmed(emails[0]);
      ParseSingle(emails[0]);
    } else if |emails| > 1 {
      var rest := Join(emails[1..], ", ");
      assert Join(emails, ", ") == emails[0] + "," + (" " + rest);
      ParseConcat(emails[0], " " + rest);
      TrimOfTrimmed(emails[0]);
      ParseSingle(emails[0]);
      ParseSkipsLeadingSpace(rest);
      ParseJoinRoundTrip(emails[1..]);
      HeadTail(emails);
    }
  }

  /** Pre-filling and parsing again recovers the e-mails of the stored rows, in
      order (none when there is no attendees list). */
  lemma SerializeParseRoundTrip(attendees: Option<seq<Attendee>>)
    requires attendees.Some? ==>
               forall i :: 0 <= i < |attendees.value| ==> WellFormedEmail(attendees.value[i].email)
    ensures attendees.None? ==> ParseAttendees(SerializeAttendees(attendees)) == []
    ensures attendees.Some? ==>
              ParseAttendees(SerializeAttendees(attendees)) == Emails(attendees.value)
  {
    if attendees.Some? {
      ParseJoinRoundTrip(Emails(attendees.value));
    } else {
      assert Split("", ',') == [""];
    }
  }
}
