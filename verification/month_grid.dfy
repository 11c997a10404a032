/** The month view both calendar pages draw (src/pages/Calendar.tsx and its
    copy src/pages/CalendarDetail.tsx): which events a day cell holds, what a
    cell shows, which days the grid covers, the counts in the page header and
    the month arrows. */
module MonthGrid {
  import opened Wrappers
  import opened Seqs
  import opened Text
  import opened Schema
  import opened CivilDate

  /** A reading of stored timestamps that only ever yields real days. */
  ghost predicate ReadsValidDays(reading: LocalReading) {
    forall s :: ValidDay(reading.dayOf(s))
  }

  // ---------------------------------------------------------------------------
  // getEventsForDate
  // ---------------------------------------------------------------------------

  /** The local day an event starts on. */
  function StartDay(reading: LocalReading, e: Listed): Day {
    reading.dayOf(e.event.startAt)
  }

  /** `getEventsForDate(day)`: the events that start on `day`, in fetch order. */
  function EventsForDate(events: seq<Listed>, reading: LocalReading, day: Day): (r: seq<Listed>)
    ensures |r| <= |events|
    ensures forall i :: 0 <= i < |r| ==> StartDay(reading, r[i]) == day && r[i] in events
    ensures forall e :: e in events && StartDay(reading, e) == day ==> e in r
    ensures Subsequence(r, events)
  {
    if |events| == 0 then []
    else
      var rest := EventsForDate(events[1..], reading, day);
      if StartDay(reading, events[0]) == day then
        assert ([events[0]] + rest)[1..] == rest;
        [events[0]] + rest
      else
        SubsequenceOfTail(rest, events);
        rest
  }

  /** An event is in the cell of its own start day and in no other. */
  lemma EventInItsOwnCellOnly(events: seq<Listed>, reading: LocalReading, e: Listed, day: Day)
    requires e in events
    ensures e in EventsForDate(events, reading, day) <==> StartDay(reading, e) == day
  {
    if e in EventsForDate(events, reading, day) {
      var r := EventsForDate(events, reading, day);
      var i :| 0 <= i < |r| && r[i] == e;
    }
  }

  // ---------------------------------------------------------------------------
  // the days of the grid, as written
  // ---------------------------------------------------------------------------

  /** The first and the last day of a month. */
  function FirstDay(mk: MonthKey): (d: Day)
    requires ValidMonth(mk)
    ensures ValidDay(d) && MonthOf(d) == mk && d.day == 1
  {
    Day(mk.year, mk.month, 1)
  }

  function LastDay(mk: MonthKey): (d: Day)
    requires ValidMonth(mk)
    ensures ValidDay(d) && MonthOf(d) == mk && d.day == DaysInMonth(mk.year, mk.month)
  {
    Day(mk.year, mk.month, DaysInMonth(mk.year, mk.month))
  }

  /** `eachDayOfInterval({ start: startOfMonth(monthStart), end:
      endOfMonth(monthEnd) })`: the days of the displayed month, first to last,
      and no others. */
  function MonthDays(mk: MonthKey): (days: seq<Day>)
    requires ValidMonth(mk)
    ensures |days| == DaysInMonth(mk.year, mk.month)
    ensures forall i :: 0 <= i < |days| ==> ValidDay(days[i]) && MonthOf(days[i]) == mk && days[i].day == i + 1
    ensures forall i :: 0 <= i < |days| ==> days[i] == Forward(FirstDay(mk), i)
  {
    var n := DaysInMonth(mk.year, mk.month);
    var days := seq(n, i requires 0 <= i < n => Day(mk.year, mk.month, i + 1));
    forall i | 0 <= i < n ensures days[i] == Forward(FirstDay(mk), i) {
      ForwardInMonth(mk, 1, i);
    }
    days
  }

  /** Within a month, stepping `k` days forward from day `a` reaches day
      `a + k`. */
  lemma {:induction false} ForwardInMonth(mk: MonthKey, a: int, k: nat)
    requires ValidMonth(mk) && 1 <= a && a + k <= DaysInMonth(mk.year, mk.month)
    ensures Forward(Day(mk.year, mk.month, a), k) == Day(mk.year, mk.month, a + k)
    decreases k
  {
    if k > 0 {
      ForwardInMonth(mk, a + 1, k - 1);
    }
  }

  /** The grid holds exactly the days of the displayed month, each once and in
      order: a day is in the grid exactly when it lies in that month, and the
      day after each cell is the next cell. So `isCurrentMonth` holds for every
      cell. */
  lemma MonthDaysExactly(mk: MonthKey, d: Day)
    requires ValidMonth(mk)
    ensures d in MonthDays(mk) <==> ValidDay(d) && MonthOf(d) == mk
    ensures forall i :: 0 <= i < |MonthDays(mk)| - 1 ==> MonthDays(mk)[i + 1] == NextDay(MonthDays(mk)[i])
    ensures forall i, j :: 0 <= i < j < |MonthDays(mk)| ==> Before(MonthDays(mk)[i], MonthDays(mk)[j])
  {
    var days := MonthDays(mk);
    if ValidDay(d) && MonthOf(d) == mk {
      assert days[d.day - 1] == d;
    }
  }

  // ---------------------------------------------------------------------------
  // one cell
  // ---------------------------------------------------------------------------

  /** How many titles a cell lists before it summarises the rest. */
  const ShownPerCell: nat := 3

  /** What a day cell shows: the titles it lists and, when some are left out,
      how many ("+N more"). */
  datatype CellView = CellView(titles: seq<string>, more: Option<nat>)

  /** `dayEvents.slice(0, 3)` and the "+N more" line shown when
      `dayEvents.length > 3`. */
  function Cell(dayEvents: seq<Listed>): (c: CellView)
    ensures |c.titles| == if |dayEvents| < ShownPerCell then |dayEvents| else ShownPerCell
    ensures forall i :: 0 <= i < |c.titles| ==> c.titles[i] == dayEvents[i].event.title
    ensures c.more.Some? <==> |dayEvents| > ShownPerCell
    ensures c.more.Some? ==> c.more.value > 0
  {
    var shown := if |dayEvents| < ShownPerCell then dayEvents else dayEvents[..ShownPerCell];
    var titles := seq(|shown|, i requires 0 <= i < |shown| => shown[i].event.title);
    CellView(titles, if |dayEvents| > ShownPerCell then Some(|dayEvents| - ShownPerCell) else None)
  }

  /** Nothing in a cell goes missing: the titles listed and the number left
      out add up to the events of the day. */
  lemma CellAccountsForEveryEvent(dayEvents: seq<Listed>)
    ensures var c := Cell(dayEvents);
            |c.titles| + (if c.more.Some? then c.more.value else 0) == |dayEvents|
  {
  }

  /** The "+N more" text. */
  function MoreText(n: nat): (s: string)
    ensures |s| > 6 && s[0] == '+' && s[|s| - 5..] == " more"
    ensures s[1..|s| - 5] == NatToString(n)
  {
    var d := NatToString(n);
    var s := "+" + d + " more";
    assert s[1..|s| - 5] == d;
    s
  }

  /** A cell of the grid: its day, whether that day is in the displayed month
      and is today, and what it shows. */
  datatype GridCell = GridCell(day: Day, inMonth: bool, isToday: bool, view: CellView)

  /** The cells for a list of days. */
  function Cells(days: seq<Day>, mk: MonthKey, events: seq<Listed>, reading: LocalReading, today: Day)
    : (r: seq<GridCell>)
    ensures |r| == |days|
    ensures forall i :: 0 <= i < |r| ==>
              && r[i].day == days[i]
              && (r[i].inMonth <==> MonthOf(days[i]) == mk)
              && (r[i].isToday <==> days[i] == today)
              && r[i].view == Cell(EventsForDate(events, reading, days[i]))
  {
    seq(|days|, i requires 0 <= i < |days| =>
      GridCell(days[i], MonthOf(days[i]) == mk, days[i] == today, Cell(EventsForDate(events, reading, days[i]))))
  }

  /** `renderCalendarGrid()` as written. */
  function Grid(mk: MonthKey, events: seq<Listed>, reading: LocalReading, today: Day): (r: seq<GridCell>)
    requires ValidMonth(mk)
    ensures |r| == DaysInMonth(mk.year, mk.month)
    ensures forall i :: 0 <= i < |r| ==> r[i].inMonth
    ensures forall i :: 0 <= i < |r| ==>
              && r[i].day == Day(mk.year, mk.month, i + 1)
              && (r[i].isToday <==> r[i].day == today)
              && r[i].view == Cell(EventsForDate(events, reading, r[i].day))
  {
    Cells(MonthDays(mk), mk, events, reading, today)
  }

  /** Every event that starts in the displayed month is counted in exactly one
      cell of the grid, the cell of its start day; an event starting in another
      month is in none. */
  lemma EachEventInExactlyOneCell(mk: MonthKey, events: seq<Listed>, reading: LocalReading, today: Day,
                                  e: Listed)
    requires ValidMonth(mk) && ReadsValidDays(reading) && e in events
    ensures var g := Grid(mk, events, reading, today);
            && (MonthOf(StartDay(reading, e)) == mk ==>
                  exists i :: 0 <= i < |g| && e in EventsForDate(events, reading, g[i].day))
            && (forall i, j ::
                  (0 <= i < |g| && 0 <= j < |g| && e in EventsForDate(events, reading, g[i].day)
                   && e in EventsForDate(events, reading, g[j].day)) ==> i == j)
            && (MonthOf(StartDay(reading, e)) != mk ==>
                  forall i :: 0 <= i < |g| ==> e !in EventsForDate(events, reading, g[i].day))
  {
    var g := Grid(mk, events, reading, today);
    var days := MonthDays(mk);
    var d := StartDay(reading, e);
    MonthDaysExactly(mk, d);
    forall i | 0 <= i < |g| ensures e in EventsForDate(events, reading, g[i].day) <==> days[i] == d {
      EventInItsOwnCellOnly(events, reading, e, days[i]);
    }
    if MonthOf(d) == mk {
      var i :| 0 <= i < |days| && days[i] == d;
      assert e in EventsForDate(events, reading, g[i].day);
    }
  }

  // ---------------------------------------------------------------------------
  // the page header
  // ---------------------------------------------------------------------------

  /** `events.filter(e => new Date(e.start_at) >= new Date()).length`, with
      `now` the instant the page renders. */
  function UpcomingCount(events: seq<Listed>, reading: LocalReading, now: int): (n: nat)
    ensures n <= |events|
  {
    if |events| == 0 then 0
    else (if reading.instantOf(events[0].event.startAt) >= now then 1 else 0)
         + UpcomingCount(events[1..], reading, now)
  }

  /** One event counts as upcoming exactly when it starts at `now` or later. */
  lemma UpcomingCountOfOne(e: Listed, reading: LocalReading, now: int)
    ensures UpcomingCount([e], reading, now) == 1 <==> reading.instantOf(e.event.startAt) >= now
    ensures UpcomingCount([e], reading, now) == 0 <==> reading.instantOf(e.event.startAt) < now
  {
    assert [e][0] == e && [e][1..] == [];
  }

  /** The upcoming count is additive over the event list. With
      `UpcomingCountOfOne`, this fixes the count of any list as the number of
      its events that start at `now` or later. */
  lemma {:induction false} UpcomingCountAppend(a: seq<Listed>, b: seq<Listed>, reading: LocalReading, now: int)
    ensures UpcomingCount(a + b, reading, now) == UpcomingCount(a, reading, now) + UpcomingCount(b, reading, now)
  {
    if |a| == 0 {
      assert a + b == b;
    } else {
      assert (a + b)[0] == a[0] && (a + b)[1..] == a[1..] + b;
      UpcomingCountAppend(a[1..], b, reading, now);
    }
  }

  /** The events that started before `now`. */
  function PastCount(events: seq<Listed>, reading: LocalReading, now: int): (n: nat)
    ensures n <= |events|
  {
    if |events| == 0 then 0
    else (if reading.instantOf(events[0].event.startAt) < now then 1 else 0)
         + PastCount(events[1..], reading, now)
  }

  /** Every event is either upcoming or past, never both. */
  lemma {:induction false} UpcomingAndPastPartition(events: seq<Listed>, reading: LocalReading, now: int)
    ensures UpcomingCount(events, reading, now) + PastCount(events, reading, now) == |events|
  {
    if |events| > 0 {
      UpcomingAndPastPartition(events[1..], reading, now);
    }
  }

  /** Later, fewer events are upcoming. */
  lemma {:induction false} UpcomingShrinksOverTime(events: seq<Listed>, reading: LocalReading, now: int, later: int)
    requires now <= later
    ensures UpcomingCount(events, reading, later) <= UpcomingCount(events, reading, now)
  {
    if |events| > 0 {
      UpcomingShrinksOverTime(events[1..], reading, now, later);
    }
  }

  /** The header: "N event(s)", and "M upcoming" only when there are events. */
  datatype Header = Header(count: string, upcoming: Option<nat>)

  function PageHeader(events: seq<Listed>, reading: LocalReading, now: int): (h: Header)
    ensures h.count == Counted(|events|, "event")
    ensures h.upcoming.Some? <==> |events| > 0
    ensures h.upcoming.Some? ==> h.upcoming.value == UpcomingCount(events, reading, now)
    ensures h.upcoming.Some? ==> h.upcoming.value <= |events|
  {
    Header(Counted(|events|, "event"),
           if |events| > 0 then Some(UpcomingCount(events, reading, now)) else None)
  }

  /** "1 event" for one event; every other count ends in "s"; the count text
      names the number of events. */
  lemma HeaderWording(events: seq<Listed>, other: seq<Listed>, reading: LocalReading, now: int)
    ensures var c := PageHeader(events, reading, now).count;
            c[|c| - 1] == 's' <==> |events| != 1
    ensures |events| == 1 ==> PageHeader(events, reading, now).count == "1 event"
    ensures PageHeader(events, reading, now).count == PageHeader(other, reading, now).count
            ==> |events| == |other|
  {
    if PageHeader(events, reading, now).count == PageHeader(other, reading, now).count {
      CountedReadsBack(|events|, |other|, "event");
    }
    if |events| == 1 {
      CountedOne("event");
      OneEventText();
    }
  }

  lemma OneEventText()
    ensures ['1', ' '] + "event" == "1 event"
  {
    var w := ['1', ' '] + "event";
    assert |w| == 7;
    assert forall k :: 0 <= k < 7 ==> w[k] == "1 event"[k];
  }

  // ---------------------------------------------------------------------------
  // month navigation
  // ---------------------------------------------------------------------------

  /** The month shown and the day last selected. */
  datatype View = View(month: MonthKey, selected: Option<Day>)

  /** The page opens on the current month with nothing selected. */
  function Opened(today: Day): (v: View)
    requires ValidDay(today)
    ensures ValidMonth(v.month) && today in MonthDays(v.month) && v.selected.None?
  {
    MonthDaysExactly(MonthOf(today), today);
    View(MonthOf(today), None)
  }

  /** The "←" and "→" buttons. */
  function PressPrev(v: View): (r: View)
    requires ValidMonth(v.month)
    ensures ValidMonth(r.month) && r.selected == v.selected
    ensures r.month.year * 12 + r.month.month == v.month.year * 12 + v.month.month - 1
  {
    v.(month := PrevMonth(v.month))
  }

  function PressNext(v: View): (r: View)
    requires ValidMonth(v.month)
    ensures ValidMonth(r.month) && r.selected == v.selected
    ensures r.month.year * 12 + r.month.month == v.month.year * 12 + v.month.month + 1
  {
    v.(month := NextMonth(v.month))
  }

  /** The "Today" button: back to the current month, with today selected. */
  function PressToday(v: View, today: Day): (r: View)
    requires ValidDay(today)
    ensures ValidMonth(r.month) && today in MonthDays(r.month) && r.selected == Some(today)
  {
    MonthDaysExactly(MonthOf(today), today);
    View(MonthOf(today), Some(today))
  }

  /** The arrows undo each other. */
  lemma ArrowsUndoEachOther(v: View)
    requires ValidMonth(v.month)
    ensures PressNext(PressPrev(v)) == v
    ensures PressPrev(PressNext(v)) == v
  {
    MonthNavigationInverse(v.month);
  }

  // ---------------------------------------------------------------------------
  // weekday columns
  // ---------------------------------------------------------------------------

  /** The column headers, Sunday first: cell `i` of the seven-column grid sits
      under header `i % 7`. */
  const WeekdayHeaders: seq<string> := ["Sun", "Mon", "Tue", "Wed", "Thu", "Fri", "Sat"]

  /** Every cell of the grid as written sits under its own weekday exactly
      when the month starts on a Sunday. */
  lemma UnpaddedColumnsMatchOnlyFromSunday(mk: MonthKey)
    requires ValidMonth(mk)
    ensures (forall i :: 0 <= i < |MonthDays(mk)| ==> Weekday(MonthDays(mk)[i]) == i % 7)
            <==> Weekday(FirstDay(mk)) == 0
  {
    var days := MonthDays(mk);
    assert days[0] == FirstDay(mk);
    if Weekday(FirstDay(mk)) == 0 {
      forall i | 0 <= i < |days| ensures Weekday(days[i]) == i % 7 {
        WeekdayForward(FirstDay(mk), i);
      }
    }
  }

  /** October 2026 starts on a Thursday, yet the grid as written puts
      1 October in the first column, under "Sun". */
  lemma UnpaddedGridMisplacesOctober2026()
    ensures var days := MonthDays(MonthKey(2026, 10));
            && days[0] == Day(2026, 10, 1)
            && WeekdayHeaders[0 % 7] == "Sun"
            && Weekday(days[0]) == 4
  {
    OctoberFirst2026IsThursday();
  }

  lemma OctoberFirst2026IsThursday()
    ensures Weekday(Day(2026, 10, 1)) == 4
  {
    var y := 2026;
    assert DaysBeforeYear(y) == 739616;
    assert DaysBeforeMonth(y, 2) == 31;
    assert DaysBeforeMonth(y, 3) == DaysBeforeMonth(y, 2) + 28;
    assert DaysBeforeMonth(y, 4) == DaysBeforeMonth(y, 3) + 31;
    assert DaysBeforeMonth(y, 5) == DaysBeforeMonth(y, 4) + 30;
    assert DaysBeforeMonth(y, 6) == DaysBeforeMonth(y, 5) + 31;
    assert DaysBeforeMonth(y, 7) == DaysBeforeMonth(y, 6) + 30;
    assert DaysBeforeMonth(y, 8) == DaysBeforeMonth(y, 7) + 31;
    assert DaysBeforeMonth(y, 9) == DaysBeforeMonth(y, 8) + 31;
    assert DaysBeforeMonth(y, 10) == DaysBeforeMonth(y, 9) + 30;
    assert DayNumber(Day(2026, 10, 1)) == 739889;
  }

  /** The grid the weekday headers call for: from the Sunday on or before the
      first of the month to the Saturday on or after its last day. */
  function PaddedMonthDays(mk: MonthKey): (days: seq<Day>)
    requires ValidMonth(mk)
    ensures |days| % 7 == 0
    ensures forall i :: 0 <= i < |days| ==> ValidDay(days[i]) && Weekday(days[i]) == i % 7
    ensures var lead, n := Weekday(FirstDay(mk)), DaysInMonth(mk.year, mk.month);
            && lead + n <= |days| < lead + n + 7
            && (forall i :: lead <= i < lead + n ==> days[i] == Day(mk.year, mk.month, i - lead + 1))
            && forall i :: 0 <= i < |days| ==> DayNumber(days[i]) == DayNumber(FirstDay(mk)) - lead + i
  {
    var first, last := FirstDay(mk), LastDay(mk);
    var n := DaysInMonth(mk.year, mk.month);
    var lead, trail := Weekday(first), 6 - Weekday(last);
    var start := Backward(first, lead);
    var days := DaysFrom(start, lead + n + trail);
    PaddedLength(mk);
    PaddedColumns(first, lead, days);
    PaddedMonthPart(mk, lead, days);
    PaddedDayNumbers(first, lead, days);
    days
  }

  /** The padded cells are consecutive days, the first of the month in cell
      `lead`. */
  lemma PaddedDayNumbers(first: Day, lead: nat, days: seq<Day>)
    requires ValidDay(first)
    requires days == DaysFrom(Backward(first, lead), |days|)
    ensures forall i :: 0 <= i < |days| ==> DayNumber(days[i]) == DayNumber(first) - lead + i
  {
    var start := Backward(first, lead);
    DayNumberBackward(first, lead);
    forall i | 0 <= i < |days| ensures DayNumber(days[i]) == DayNumber(first) - lead + i {
      DayNumberForward(start, i);
    }
  }

  /** A cell of the padded grid lies in the displayed month exactly when it is
      one of the `n` cells after the `lead` days of the previous month. */
  lemma PaddedCellInMonth(mk: MonthKey, i: nat)
    requires ValidMonth(mk) && i < |PaddedMonthDays(mk)|
    ensures var lead, n := Weekday(FirstDay(mk)), DaysInMonth(mk.year, mk.month);
            MonthOf(PaddedMonthDays(mk)[i]) == mk <==> lead <= i < lead + n
  {
    var days := PaddedMonthDays(mk);
    var d, first := days[i], FirstDay(mk);
    if MonthOf(d) == mk {
      assert DayNumber(d) == DayNumber(first) + d.day - 1;
    }
  }

  /** `renderCalendarGrid()` as the weekday headers call for it: whole weeks,
      every cell under the header of its own weekday, the days of the month in
      order after the lead days, and only those marked as in the month. */
  function PaddedGrid(mk: MonthKey, events: seq<Listed>, reading: LocalReading, today: Day): (r: seq<GridCell>)
    requires ValidMonth(mk)
    ensures |r| % 7 == 0
    ensures forall i :: 0 <= i < |r| ==> ValidDay(r[i].day) && Weekday(r[i].day) == i % 7
    ensures var lead, n := Weekday(FirstDay(mk)), DaysInMonth(mk.year, mk.month);
            && lead + n <= |r| < lead + n + 7
            && (forall i :: 0 <= i < |r| ==> (r[i].inMonth <==> lead <= i < lead + n))
            && forall i :: lead <= i < lead + n ==> r[i].day == Day(mk.year, mk.month, i - lead + 1)
    ensures forall i :: 0 <= i < |r| ==>
              && (r[i].isToday <==> r[i].day == today)
              && r[i].view == Cell(EventsForDate(events, reading, r[i].day))
  {
    var r := Cells(PaddedMonthDays(mk), mk, events, reading, today);
    forall i | 0 <= i < |r|
      ensures r[i].inMonth <==> Weekday(FirstDay(mk)) <= i < Weekday(FirstDay(mk)) + DaysInMonth(mk.year, mk.month)
    {
      PaddedCellInMonth(mk, i);
    }
    r
  }

  /** Whole weeks: the lead days, the month and the trailing days add up to a
      multiple of seven. */
  lemma PaddedLength(mk: MonthKey)
    requires ValidMonth(mk)
    ensures (Weekday(FirstDay(mk)) + DaysInMonth(mk.year, mk.month) + (6 - Weekday(LastDay(mk)))) % 7 == 0
  {
    var n := DaysInMonth(mk.year, mk.month);
    ForwardInMonth(mk, 1, n - 1);
    WeekdayForward(FirstDay(mk), n - 1);
    ModSevenFill(Weekday(FirstDay(mk)) + n - 1);
  }

  /** Counting from the Sunday before `first`, cell `i` falls on weekday
      `i % 7`. */
  lemma PaddedColumns(first: Day, lead: nat, days: seq<Day>)
    requires ValidDay(first) && lead == Weekday(first)
    requires |days| >= lead && days == DaysFrom(Backward(first, lead), |days|)
    ensures forall i :: 0 <= i < |days| ==> ValidDay(days[i]) && Weekday(days[i]) == i % 7
  {
    forall i | 0 <= i < |days| ensures Weekday(days[i]) == i % 7 {
      PaddedColumnCell(first, lead, i);
    }
  }

  lemma PaddedColumnCell(first: Day, lead: nat, i: nat)
    requires ValidDay(first) && lead == Weekday(first)
    ensures Weekday(Forward(Backward(first, lead), i)) == i % 7
  {
    var start := Backward(first, lead);
    WeekdayBackward(first, lead);
    WeekdayForward(start, i);
    assert Weekday(start) + i == i;
  }

  /** After `lead` days come the days of the month, in order. */
  lemma PaddedMonthPart(mk: MonthKey, lead: nat, days: seq<Day>)
    requires ValidMonth(mk)
    requires |days| >= lead + DaysInMonth(mk.year, mk.month)
    requires days == DaysFrom(Backward(FirstDay(mk), lead), |days|)
    ensures forall i :: lead <= i < lead + DaysInMonth(mk.year, mk.month) ==>
              days[i] == Day(mk.year, mk.month, i - lead + 1)
  {
    forall i | lead <= i < lead + DaysInMonth(mk.year, mk.month)
      ensures days[i] == Day(mk.year, mk.month, i - lead + 1)
    {
      PaddedMonthCell(mk, lead, i - lead);
    }
  }

  lemma PaddedMonthCell(mk: MonthKey, lead: nat, j: nat)
    requires ValidMonth(mk) && j < DaysInMonth(mk.year, mk.month)
    ensures Forward(Backward(FirstDay(mk), lead), lead + j) == Day(mk.year, mk.month, j + 1)
  {
    var first := FirstDay(mk);
    var start := Backward(first, lead);
    ForwardBackward(first, lead);
    ForwardAdd(start, lead, j);
    assert Forward(start, lead + j) == Forward(first, j);
    ForwardInMonth(mk, 1, j);
  }

  /** Topping a number up to the end of its week of seven gives a multiple of
      seven. */
  lemma ModSevenFill(x: nat)
    ensures (x + 1 + (6 - x % 7)) % 7 == 0
  {
  }

  // ---------------------------------------------------------------------------
  // stepping through days
  // ---------------------------------------------------------------------------

  /** The day `k` days after `d`. */
  function Forward(d: Day, k: nat): (r: Day)
    requires ValidDay(d)
    ensures ValidDay(r)
    decreases k
  {
    if k == 0 then d else Forward(NextDay(d), k - 1)
  }

  /** The day `k` days before `d`. */
  function Backward(d: Day, k: nat): (r: Day)
    requires ValidDay(d)
    ensures ValidDay(r)
    decreases k
  {
    if k == 0 then d else PrevDay(Backward(d, k - 1))
  }

  /** `k` consecutive days starting at `d`. */
  function DaysFrom(d: Day, k: nat): (r: seq<Day>)
    requires ValidDay(d)
    ensures |r| == k
    ensures forall i :: 0 <= i < k ==> r[i] == Forward(d, i)
    decreases k
  {
    if k == 0 then [] else [d] + DaysFrom(NextDay(d), k - 1)
  }

  lemma {:induction false} ForwardAdd(d: Day, a: nat, b: nat)
    requires ValidDay(d)
    ensures Forward(d, a + b) == Forward(Forward(d, a), b)
    decreases a
  {
    if a > 0 {
      ForwardAdd(NextDay(d), a - 1, b);
    }
  }

  lemma {:induction false} ForwardBackward(d: Day, k: nat)
    requires ValidDay(d)
    ensures Forward(Backward(d, k), k) == d
    decreases k
  {
    if k > 0 {
      NextPrevInverse(Backward(d, k - 1));
      ForwardBackward(d, k - 1);
    }
  }

  lemma {:induction false} DayNumberForward(d: Day, k: nat)
    requires ValidDay(d)
    ensures DayNumber(Forward(d, k)) == DayNumber(d) + k
    decreases k
  {
    if k > 0 {
      DayNumberOfNextDay(d);
      DayNumberForward(NextDay(d), k - 1);
    }
  }

  lemma {:induction false} DayNumberBackward(d: Day, k: nat)
    requires ValidDay(d)
    ensures DayNumber(Backward(d, k)) == DayNumber(d) - k
    decreases k
  {
    if k > 0 {
      DayNumberBackward(d, k - 1);
      DayNumberOfPrevDay(Backward(d, k - 1));
    }
  }

  /** `k` days later the weekday has moved on by `k`, wrapping at Saturday. */
  lemma WeekdayForward(d: Day, k: nat)
    requires ValidDay(d)
    ensures Weekday(Forward(d, k)) == (Weekday(d) + k) % 7
  {
    DayNumberForward(d, k);
    ModSevenAdd(DayNumber(d) + 1, k, DayNumber(Forward(d, k)) + 1);
  }

  /** Going back no further than the Sunday of the week moves the weekday back
      by the same count. */
  lemma WeekdayBackward(d: Day, k: nat)
    requires ValidDay(d) && k <= Weekday(d)
    ensures Weekday(Backward(d, k)) == Weekday(d) - k
  {
    DayNumberBackward(d, k);
    ModSevenSub(DayNumber(d) + 1, k, DayNumber(Backward(d, k)) + 1);
  }

  lemma ModSevenAdd(a: int, k: int, b: int)
    requires b == a + k
    ensures b % 7 == (a % 7 + k) % 7
  {
    var q := a / 7;
    assert b == 7 * q + (a % 7 + k);
    ModSevenShiftBy(q, a % 7 + k);
  }

  lemma ModSevenShiftBy(q: int, x: int)
    ensures (7 * q + x) % 7 == x % 7
  {
    var t := x / 7;
    assert 7 * q + x == 7 * (q + t) + x % 7;
  }

  lemma ModSevenSub(a: int, k: int, b: int)
    requires 0 <= k <= a % 7 && b == a - k
    ensures b % 7 == a % 7 - k
  {
    var q := a / 7;
    assert b == 7 * q + (a % 7 - k);
  }
}
