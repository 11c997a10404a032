/** Calendar days and months as the pages use them through date-fns: the
    displayed month, the day after and before "now", and the month arrows.
    Days follow the proleptic Gregorian calendar. How a stored timestamp
    string becomes a local day and time in the viewer's browser (the
    JavaScript `Date` and the host's time-zone rules) is not computed here: it
    is the `LocalReading` parameter. */
module CivilDate {

  /** A calendar day: `month` runs from 1 to 12, `day` from 1. */
  datatype Day = Day(year: int, month: int, day: int)

  /** A displayed month, the part of `currentMonth` the grid depends on. */
  datatype MonthKey = MonthKey(year: int, month: int)

  /** A local time of day, hours 0-23. */
  datatype TimeOfDay = TimeOfDay(hour: int, minute: int)

  /** How the viewer's browser reads a stored timestamp string `s` through
      `new Date(s)`: its local calendar day (what `isSameDay` and
      `toDateString` compare), its local time of day (what `format(d, "h:mm a")`
      shows), and its position on the time line (what `>=` between dates
      compares). */
  datatype LocalReading = LocalReading(
    dayOf: string -> Day,
    timeOf: string -> TimeOfDay,
    instantOf: string -> int)

  predicate IsLeapYear(y: int) {
    (y % 4 == 0 && y % 100 != 0) || y % 400 == 0
  }

  function DaysInMonth(year: int, month: int): (n: int)
    requires 1 <= month <= 12
    ensures 28 <= n <= 31
  {
    if month == 2 then (if IsLeapYear(year) then 29 else 28)
    else if month in {4, 6, 9, 11} then 30
    else 31
  }

  predicate ValidMonth(m: MonthKey) {
    1 <= m.month <= 12
  }

  predicate ValidDay(d: Day) {
    1 <= d.month <= 12 && 1 <= d.day <= DaysInMonth(d.year, d.month)
  }

  /** Strictly earlier, in calendar order. */
  predicate Before(a: Day, b: Day) {
    || a.year < b.year
    || (a.year == b.year && a.month < b.month)
    || (a.year == b.year && a.month == b.month && a.day < b.day)
  }

  function MonthOf(d: Day): (m: MonthKey)
    ensures m.year == d.year && m.month == d.month
  {
    MonthKey(d.year, d.month)
  }

  // ---------------------------------------------------------------------------
  // tomorrow and yesterday (date-fns isTomorrow / isYesterday)
  // ---------------------------------------------------------------------------

  /** The day after `d`. */
  function NextDay(d: Day): (r: Day)
    requires ValidDay(d)
    ensures ValidDay(r) && Before(d, r)
  {
    if d.day < DaysInMonth(d.year, d.month) then Day(d.year, d.month, d.day + 1)
    else if d.month < 12 then Day(d.year, d.month + 1, 1)
    else Day(d.year + 1, 1, 1)
  }

  /** The day before `d`. */
  function PrevDay(d: Day): (r: Day)
    requires ValidDay(d)
    ensures ValidDay(r) && Before(r, d)
  {
    if d.day > 1 then Day(d.year, d.month, d.day - 1)
    else if d.month > 1 then Day(d.year, d.month - 1, DaysInMonth(d.year, d.month - 1))
    else Day(d.year - 1, 12, 31)
  }

  /** Going a day forward and a day back, or back and forward, returns to the
      same day. */
  lemma NextPrevInverse(d: Day)
    requires ValidDay(d)
    ensures PrevDay(NextDay(d)) == d
    ensures NextDay(PrevDay(d)) == d
  {
  }

  /** `NextDay` is the immediate successor: no valid day lies strictly between
      a day and the next one. */
  lemma NextDayIsSuccessor(d: Day, e: Day)
    requires ValidDay(d) && ValidDay(e)
    requires Before(d, e)
    ensures e == NextDay(d) || Before(NextDay(d), e)
  {
  }

  /** `PrevDay` is the immediate predecessor. */
  lemma PrevDayIsPredecessor(d: Day, e: Day)
    requires ValidDay(d) && ValidDay(e)
    requires Before(e, d)
    ensures e == PrevDay(d) || Before(e, PrevDay(d))
  {
  }

  /** A day, its successor and its predecessor are three different days. */
  lemma NeighbouringDaysDistinct(d: Day)
    requires ValidDay(d)
    ensures NextDay(d) != d && PrevDay(d) != d && NextDay(d) != PrevDay(d)
  {
    BeforeIsStrict(d, NextDay(d));
    BeforeIsStrict(PrevDay(d), d);
    BeforeIsStrict(PrevDay(d), NextDay(d));
  }

  lemma BeforeIsStrict(a: Day, b: Day)
    requires Before(a, b)
    ensures a != b && !Before(b, a)
  {
  }

  // ---------------------------------------------------------------------------
  // month navigation (date-fns addMonths / subMonths by one)
  // ---------------------------------------------------------------------------

  /** The month after `m`: what the "→" button shows. */
  function NextMonth(m: MonthKey): (r: MonthKey)
    requires ValidMonth(m)
    ensures ValidMonth(r)
    ensures r.year * 12 + r.month == m.year * 12 + m.month + 1
  {
    if m.month < 12 then MonthKey(m.year, m.month + 1) else MonthKey(m.year + 1, 1)
  }

  /** The month before `m`: what the "←" button shows. */
  function PrevMonth(m: MonthKey): (r: MonthKey)
    requires ValidMonth(m)
    ensures ValidMonth(r)
    ensures r.year * 12 + r.month == m.year * 12 + m.month - 1
  {
    if m.month > 1 then MonthKey(m.year, m.month - 1) else MonthKey(m.year - 1, 12)
  }

  /** Pressing "←" then "→", or "→" then "←", shows the same month again. */
  lemma MonthNavigationInverse(m: MonthKey)
    requires ValidMonth(m)
    ensures NextMonth(PrevMonth(m)) == m
    ensures PrevMonth(NextMonth(m)) == m
  {
  }

  // ---------------------------------------------------------------------------
  // day numbers and weekdays (what date-fns getDay reports)
  // ---------------------------------------------------------------------------

  /** The days in the years before `y`, counted from 1 January of year 1. */
  function DaysBeforeYear(y: int): int {
    var p := y - 1;
    365 * p + p / 4 - p / 100 + p / 400
  }

  /** The days in the months of year `y` before month `m`. */
  function DaysBeforeMonth(y: int, m: int): int
    requires 1 <= m <= 12
  {
    if m == 1 then 0 else DaysBeforeMonth(y, m - 1) + DaysInMonth(y, m - 1)
  }

  /** The position of a day on the calendar: 1 January of year 1 is day 0. */
  function DayNumber(d: Day): int
    requires ValidDay(d)
  {
    DaysBeforeYear(d.year) + DaysBeforeMonth(d.year, d.month) + d.day - 1
  }

  /** The weekday, 0 for Sunday up to 6 for Saturday; 1 January of year 1 was a
      Monday. */
  function Weekday(d: Day): (w: int)
    requires ValidDay(d)
    ensures 0 <= w < 7
  {
    (DayNumber(d) + 1) % 7
  }

  lemma DivStep(y: int, k: int)
    requires k == 4 || k == 100 || k == 400
    ensures y / k - (y - 1) / k == if y % k == 0 then 1 else 0
  {
  }

  /** A year has 366 days exactly when it is a leap year. */
  lemma YearLength(y: int)
    ensures DaysBeforeYear(y + 1) - DaysBeforeYear(y) == if IsLeapYear(y) then 366 else 365
  {
    var p := y - 1;
    DivStep(y, 4);
    DivStep(y, 100);
    DivStep(y, 400);
    DivisibilityChain(y);
    assert DaysBeforeYear(y + 1) - DaysBeforeYear(y)
        == 365 + (y / 4 - p / 4) - (y / 100 - p / 100) + (y / 400 - p / 400);
  }

  lemma DivisibilityChain(y: int)
    ensures y % 400 == 0 ==> y % 100 == 0
    ensures y % 100 == 0 ==> y % 4 == 0
  {
    if y % 400 == 0 {
      MultipleMod(y, 100, 4 * (y / 400));
    }
    if y % 100 == 0 {
      MultipleMod(y, 4, 25 * (y / 100));
    }
  }

  lemma MultipleMod(y: int, m: int, t: int)
    requires m == 4 || m == 100
    requires y == m * t
    ensures y % m == 0
  {
  }
  /** The months before December hold 334 days, one more in a leap year. */
  lemma DaysBeforeDecember(y: int)
    ensures DaysBeforeMonth(y, 12) == if IsLeapYear(y) then 335 else 334
  {
    assert DaysBeforeMonth(y, 2) == 31;
    assert DaysBeforeMonth(y, 3) == DaysBeforeMonth(y, 2) + DaysInMonth(y, 2);
    assert DaysBeforeMonth(y, 4) == DaysBeforeMonth(y, 3) + DaysInMonth(y, 3);
    assert DaysBeforeMonth(y, 5) == DaysBeforeMonth(y, 4) + DaysInMonth(y, 4);
    assert DaysBeforeMonth(y, 6) == DaysBeforeMonth(y, 5) + DaysInMonth(y, 5);
    assert DaysBeforeMonth(y, 7) == DaysBeforeMonth(y, 6) + DaysInMonth(y, 6);
    assert DaysBeforeMonth(y, 8) == DaysBeforeMonth(y, 7) + DaysInMonth(y, 7);
    assert DaysBeforeMonth(y, 9) == DaysBeforeMonth(y, 8) + DaysInMonth(y, 8);
    assert DaysBeforeMonth(y, 10) == DaysBeforeMonth(y, 9) + DaysInMonth(y, 9);
    assert DaysBeforeMonth(y, 11) == DaysBeforeMonth(y, 10) + DaysInMonth(y, 10);
    assert DaysBeforeMonth(y, 12) == DaysBeforeMonth(y, 11) + DaysInMonth(y, 11);
  }

  /** The day after a day has the next number. */
  lemma DayNumberOfNextDay(d: Day)
    requires ValidDay(d)
    ensures DayNumber(NextDay(d)) == DayNumber(d) + 1
  {
    if d.day == DaysInMonth(d.year, d.month) && d.month == 12 {
      YearLength(d.year);
      DaysBeforeDecember(d.year);
    }
  }

  /** Weekdays follow each other: the day after a Saturday is a Sunday. */
  lemma WeekdayOfNextDay(d: Day)
    requires ValidDay(d)
    ensures Weekday(NextDay(d)) == (Weekday(d) + 1) % 7
  {
    DayNumberOfNextDay(d);
    ModSevenStep(DayNumber(d) + 1);
  }

  lemma ModSevenStep(x: int)
    ensures (x + 1) % 7 == (x % 7 + 1) % 7
  {
    var q, r := x / 7, x % 7;
    assert x == 7 * q + r;
    if r < 6 {
      assert x + 1 == 7 * q + (r + 1);
    } else {
      assert x + 1 == 7 * (q + 1);
    }
  }

  /** The day before a day has the previous number. */
  lemma DayNumberOfPrevDay(d: Day)
    requires ValidDay(d)
    ensures DayNumber(PrevDay(d)) == DayNumber(d) - 1
  {
    NextPrevInverse(d);
    DayNumberOfNextDay(PrevDay(d));
  }

  lemma WeekdayOfPrevDay(d: Day)
    requires ValidDay(d)
    ensures Weekday(PrevDay(d)) == (Weekday(d) + 6) % 7
  {
    NextPrevInverse(d);
    WeekdayOfNextDay(PrevDay(d));
  }
}
