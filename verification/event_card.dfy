/** What an event card shows (src/components/events/EventCard.tsx): the day
    words "Today", "Tomorrow" and "Yesterday", the shape of the date-and-time
    line, the accepted-attendees badge, the attendee count, the category badge
    and the zone line. Dates and times are kept as structured labels; how
    date-fns spells a date ("MMM d, yyyy") or a time ("h:mm a") is not part of
    this model. */
module EventCard {
  import opened Wrappers
  import opened Text
  import opened Schema
  import opened CivilDate
  import opened Categories
  import opened Timezones

  // ---------------------------------------------------------------------------
  // formatDate
  // ---------------------------------------------------------------------------

  /** What `formatDate` shows for a day. */
  datatype DayLabel = Today | Tomorrow | Yesterday | OnDate(day: Day)

  /** `formatDate(date)` seen from the viewer's `today`: "Today" for today,
      otherwise "Tomorrow" for the next day, otherwise "Yesterday" for the
      previous day, otherwise the date itself. The three words name three
      different days, so the order of the tests never matters. */
  function FormatDate(today: Day, d: Day): (r: DayLabel)
    requires ValidDay(today)
    ensures r == Today <==> d == today
    ensures r == Tomorrow <==> d == NextDay(today)
    ensures r == Yesterday <==> d == PrevDay(today)
    ensures r.OnDate? <==> d != today && d != NextDay(today) && d != PrevDay(today)
  {
    NeighbouringDaysDistinct(today);
    if d == today then Today
    else if d == NextDay(today) then Tomorrow
    else if d == PrevDay(today) then Yesterday
    else OnDate(d)
  }

  /** The day a label stands for, read by a viewer whose today is `today`. */
  function LabelDay(today: Day, l: DayLabel): Day
    requires ValidDay(today)
  {
    match l
    case Today => today
    case Tomorrow => NextDay(today)
    case Yesterday => PrevDay(today)
    case OnDate(d) => d
  }

  /** A day label never loses the day: reading it back gives the day shown, so
      different days always get different labels. */
  lemma FormatDateReadsBack(today: Day, d: Day, e: Day)
    requires ValidDay(today)
    ensures LabelDay(today, FormatDate(today, d)) == d
    ensures FormatDate(today, d) == FormatDate(today, e) ==> d == e
  {
  }

  // ---------------------------------------------------------------------------
  // formatDateTime
  // ---------------------------------------------------------------------------

  /** The four shapes of the date-and-time line. */
  datatype WhenLabel =
    | AllDayOn(day: DayLabel)
    | AllDaySpan(first: DayLabel, last: DayLabel)
    | TimedOn(day: DayLabel, from: TimeOfDay, to: TimeOfDay)
    | TimedSpan(fromDay: DayLabel, from: TimeOfDay, toDay: DayLabel, to: TimeOfDay)

  /** `formatDateTime()`: an all-day event on one local day shows that day
      only; an all-day event over several days shows both days; a timed event
      within one day shows the day and both times; otherwise both days with
      their times. */
  function FormatDateTime(e: Event, reading: LocalReading, today: Day): (r: WhenLabel)
    requires ValidDay(today)
    ensures var sameDay := reading.dayOf(e.startAt) == reading.dayOf(e.endAt);
      && (r.AllDayOn? <==> e.allDay && sameDay)
      && (r.AllDaySpan? <==> e.allDay && !sameDay)
      && (r.TimedOn? <==> !e.allDay && sameDay)
      && (r.TimedSpan? <==> !e.allDay && !sameDay)
  {
    var start, end := reading.dayOf(e.startAt), reading.dayOf(e.endAt);
    if e.allDay then
      if start == end then AllDayOn(FormatDate(today, start))
      else AllDaySpan(FormatDate(today, start), FormatDate(today, end))
    else if start == end then
      TimedOn(FormatDate(today, start), reading.timeOf(e.startAt), reading.timeOf(e.endAt))
    else
      TimedSpan(FormatDate(today, start), reading.timeOf(e.startAt),
                FormatDate(today, end), reading.timeOf(e.endAt))
  }

  /** The first and last day a line shows, and the times it shows. */
  function ShownStart(today: Day, l: WhenLabel): Day
    requires ValidDay(today)
  {
    match l
    case AllDayOn(d) => LabelDay(today, d)
    case AllDaySpan(d, _) => LabelDay(today, d)
    case TimedOn(d, _, _) => LabelDay(today, d)
    case TimedSpan(d, _, _, _) => LabelDay(today, d)
  }

  function ShownEnd(today: Day, l: WhenLabel): Day
    requires ValidDay(today)
  {
    match l
    case AllDayOn(d) => LabelDay(today, d)
    case AllDaySpan(_, d) => LabelDay(today, d)
    case TimedOn(d, _, _) => LabelDay(today, d)
    case TimedSpan(_, _, d, _) => LabelDay(today, d)
  }

  /** The line is faithful: the days it shows are the event's local start and
      end days, and a timed line shows the event's local start and end times. */
  lemma FormatDateTimeReadsBack(e: Event, reading: LocalReading, today: Day)
    requires ValidDay(today)
    ensures var l := FormatDateTime(e, reading, today);
      && ShownStart(today, l) == reading.dayOf(e.startAt)
      && ShownEnd(today, l) == reading.dayOf(e.endAt)
      && (l.TimedOn? ==> l.from == reading.timeOf(e.startAt) && l.to == reading.timeOf(e.endAt))
      && (l.TimedSpan? ==> l.from == reading.timeOf(e.startAt) && l.to == reading.timeOf(e.endAt))
  {
    FormatDateReadsBack(today, reading.dayOf(e.startAt), reading.dayOf(e.endAt));
    FormatDateReadsBack(today, reading.dayOf(e.endAt), reading.dayOf(e.startAt));
  }

  // ---------------------------------------------------------------------------
  // attendees
  // ---------------------------------------------------------------------------

  /** `attendees.filter(a => a.response === 'accepted').length`. */
  function AcceptedCount(rows: seq<Attendee>): (n: nat)
    ensures n <= |rows|
    ensures n == |rows| <==> forall i :: 0 <= i < |rows| ==> ResponseText(rows[i].response) == "accepted"
    ensures n == 0 <==> forall i :: 0 <= i < |rows| ==> ResponseText(rows[i].response) != "accepted"
  {
    if |rows| == 0 then 0
    else
      var rest := AcceptedCount(rows[1..]);
      assert forall i :: 1 <= i < |rows| ==> rows[i] == rows[1..][i - 1];
      (if ResponseText(rows[0].response) == "accepted" then 1 else 0) + rest
  }

  /** One row counts 1 exactly when its response is `accepted`. */
  lemma AcceptedCountOfOne(a: Attendee)
    ensures AcceptedCount([a]) == 1 <==> a.response == Accepted
    ensures AcceptedCount([a]) == 0 <==> a.response != Accepted
  {
    assert [a][0] == a;
  }

  /** The count is additive: the accepted rows of `a + b` are those of `a` and
      those of `b`. With `AcceptedCountOfOne`, this fixes the count of any list
      as the number of its rows that are `accepted`. */
  lemma {:induction false} AcceptedCountAppend(a: seq<Attendee>, b: seq<Attendee>)
    ensures AcceptedCount(a + b) == AcceptedCount(a) + AcceptedCount(b)
  {
    if |a| == 0 {
      assert a + b == b;
    } else {
      assert (a + b)[0] == a[0] && (a + b)[1..] == a[1..] + b;
      AcceptedCountAppend(a[1..], b);
    }
  }

  /** `getAttendeeStatus()`: nothing when the event has no attendees list or an
      empty one; otherwise "A/T accepted" with A the accepted count and T the
      number of attendees. */
  function AttendeeStatus(attendees: Option<seq<Attendee>>): (r: Option<string>)
    ensures r.None? <==> attendees.None? || |attendees.value| == 0
    ensures r.Some? ==> Split(r.value, '/') == [NatToString(AcceptedCount(attendees.value)),
                                                NatToString(|attendees.value|) + " accepted"]
  {
    match attendees
    case None => None
    case Some(rows) =>
      if |rows| == 0 then None
      else
        var a, t := NatToString(AcceptedCount(rows)), NatToString(|rows|) + " accepted";
        DigitsHaveNoSlash(NatToString(AcceptedCount(rows)));
        DigitsHaveNoSlash(NatToString(|rows|));
        assert '/' !in t;
        assert a + "/" + t == a + ['/'] + t;
        SplitAppend(a, t, '/');
        Some(a + "/" + t)
  }

  lemma DigitsHaveNoSlash(s: string)
    requires forall i :: 0 <= i < |s| ==> IsDigit(s[i])
    ensures '/' !in s
  {
  }

  /** The badge loses nothing: two attendee lists with the same badge have the
      same number of attendees and the same number of acceptances. */
  lemma AttendeeStatusReadsBack(a: seq<Attendee>, b: seq<Attendee>)
    requires |a| > 0 && |b| > 0
    requires AttendeeStatus(Some(a)) == AttendeeStatus(Some(b))
    ensures AcceptedCount(a) == AcceptedCount(b) && |a| == |b|
  {
    var sa, sb := Split(AttendeeStatus(Some(a)).value, '/'), Split(AttendeeStatus(Some(b)).value, '/');
    assert sa == sb;
    NatToStringInjective(AcceptedCount(a), AcceptedCount(b));
    var ta, tb := NatToString(|a|), NatToString(|b|);
    assert ta + " accepted" == tb + " accepted";
    assert ta == (ta + " accepted")[..|ta|];
    assert tb == (tb + " accepted")[..|tb|];
    NatToStringInjective(|a|, |b|);
  }

  /** The attendee line: "N attendee", with an "s" unless N is 1, shown only
      when the list is present and non-empty. */
  function AttendeeCountLine(attendees: Option<seq<Attendee>>): (r: Option<string>)
    ensures r.None? <==> attendees.None? || |attendees.value| == 0
    ensures r.Some? ==> r.value == Counted(|attendees.value|, "attendee")
  {
    match attendees
    case None => None
    case Some(rows) => if |rows| == 0 then None else Some(Counted(|rows|, "attendee"))
  }

  /** The attendee line reads "1 attendee" for one attendee and ends in "s"
      otherwise, and it names the number of attendees. */
  lemma AttendeeCountLineWording(a: seq<Attendee>, b: seq<Attendee>)
    requires |a| > 0 && |b| > 0
    ensures AttendeeCountLine(Some(a)).value[|AttendeeCountLine(Some(a)).value| - 1] == 's' <==> |a| != 1
    ensures |a| == 1 ==> AttendeeCountLine(Some(a)) == Some("1 attendee")
    ensures AttendeeCountLine(Some(a)) == AttendeeCountLine(Some(b)) ==> |a| == |b|
  {
    if AttendeeCountLine(Some(a)) == AttendeeCountLine(Some(b)) {
      CountedReadsBack(|a|, |b|, "attendee");
    }
    if |a| == 1 {
      CountedOne("attendee");
      OneAttendeeText();
    }
  }

  lemma OneAttendeeText()
    ensures ['1', ' '] + "attendee" == "1 attendee"
  {
    var w := ['1', ' '] + "attendee";
    assert |w| == 10;
    assert forall k :: 0 <= k < 10 ==> w[k] == "1 attendee"[k];
  }

  /** The badge and the attendee line are shown together or not at all. */
  lemma StatusAndCountShownTogether(attendees: Option<seq<Attendee>>)
    ensures AttendeeStatus(attendees).Some? <==> AttendeeCountLine(attendees).Some?
  {
  }

  // ---------------------------------------------------------------------------
  // category badge and zone line
  // ---------------------------------------------------------------------------

  /** The category badge: shown when the event has a non-empty category, with
      the table entry for it, or an empty badge (`None` inside) when the table
      does not know it. */
  function CategoryBadge(e: Event): (r: Option<Option<Category>>)
    ensures r.Some? <==> e.category.Some? && e.category.value != ""
    ensures r.Some? && r.value.Some? ==> r.value.value.value == e.category.value
    ensures r.Some? ==> (r.value.Some? <==> IsKnownCategory(e.category.value))
  {
    if e.category.Some? && e.category.value != "" then Some(CategoryByValue(e.category.value))
    else None
  }

  /** An event whose category was picked from the table shows that entry. */
  lemma PickedCategoryShown(e: Event, i: nat)
    requires i < |EventCategories| && e.category == Some(EventCategories[i].value)
    ensures CategoryBadge(e) == Some(Some(EventCategories[i]))
  {
    CategoryValuesNonEmpty(i);
    CategoryByValueExact(i);
  }

  /** The zone line: shown when the event's zone is non-empty, with the label of
      the table entry, or an empty line (`None` inside) for a zone the table
      does not list. */
  function ZoneLine(e: Event): (r: Option<Option<string>>)
    ensures r.Some? <==> e.timezone != ""
    ensures r.Some? ==> (r.value.None? <==> TimezoneByValue(e.timezone).None?)
    ensures r.Some? && r.value.Some? ==>
              exists tz :: tz in AllTimezones() && tz.value == e.timezone && tz.labelText == r.value.value
  {
    if e.timezone == "" then None
    else
      var tz := TimezoneByValue(e.timezone);
      if tz.None? then Some(None) else Some(Some(tz.value.labelText))
  }

  /** A zone picked from the table shows its label. */
  lemma PickedZoneShown(e: Event, i: nat)
    requires i < |AllTimezones()| && e.timezone == AllTimezones()[i].value
    ensures ZoneLine(e) == Some(Some(AllTimezones()[i].labelText))
  {
    TimezoneByValueExact(i);
    ZoneValuesNonEmpty();
  }

  /** The fallback zone, used when the browser reports none, shows
      "UTC (Coordinated Universal Time)". */
  lemma FallbackZoneShown(e: Event)
    requires e.timezone == UserTimezone(None)
    ensures ZoneLine(e) == Some(Some("UTC (Coordinated Universal Time)"))
  {
    assert TimezoneAt(0).labelText == "UTC (Coordinated Universal Time)";
  }

  /** The browser's own zone may be one the table lacks; the zone line is then
      shown with no label. */
  lemma UnlistedZoneShownEmpty(e: Event)
    requires e.timezone == UserTimezone(Some("America/Argentina/Cordoba"))
    ensures ZoneLine(e) == Some(None)
  {
    ReportedZoneMayBeUnlisted();
  }
}
