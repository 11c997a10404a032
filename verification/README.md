# Schedura calendar logic in Dafny

This project models the deterministic logic inside the Schedura calendar web
application and proves properties about it. The application is a React and
TypeScript front end over a hosted Postgres backend. The model covers:

- the category and timezone lookup tables, and the custom category colours
  kept in browser storage;
- the attendee text field of the create and edit dialogs: parsing, the names
  derived from e-mails, the pre-fill serialisation, and the delete-then-reinsert
  save;
- the start and end timestamp strings, the all-day toggle, the category
  controls, what clicking a day does to the create dialog, and both dialogs'
  submit paths;
- the event card: the Today/Tomorrow/Yesterday label, the four-way date-time
  line, the "A/T accepted" badge, the attendee count line, and the category and
  zone lines;
- `getUserCalendars`: the two calendar sources and the first-occurrence
  de-duplication by id;
- the month page (`Calendar.tsx`, duplicated in `CalendarDetail.tsx`): events
  per day, the grid's days, the three-title cells with "+N more", the header
  counts, and month navigation.

Modules follow the program's files:

- `Wrappers`: `Option` and `Result`.
- `Seqs`: generic sequence facts.
- `Text`: JavaScript `split`, `join`, `trim` and decimal rendering.
- `Schema`: enums and table rows.
- `CivilDate`: Gregorian days, weekdays and month steps.
- `Lookup`: first-match lookup in a table.
- `Categories`, `Timezones`: the two configuration tables.
- `Attendees`: the attendee text field.
- `EventForm`: the create and edit dialogs.
- `EventCard`: the card summaries.
- `CalendarUtils`: `getUserCalendars`.
- `MonthGrid`: the month page.

The backend is a value `Db` holding sequences of rows. Each remote call that
can fail is a boolean fault parameter. The browser's reading of a stored
timestamp is the `LocalReading` parameter: its local day, its local time, and
its position on the time line. `new Date(s).toISOString()` is a parameter
`toIso` that yields nothing for an invalid date. "Now" and "today" are
parameters too.

## Model

| member | source | states |
|---|---|---|
| Schema.ParseResponse | src/integrations/supabase/types.ts:322 | Exactly the four `attendee_response` texts parse, each back to the response it names |
| Schema.ParseVisibility | src/integrations/supabase/types.ts:323 | Exactly the three `calendar_visibility` texts parse, each back to the visibility it names |
| Schema.EnumTextRoundTrip | src/integrations/supabase/types.ts:322-323 | Writing a response or visibility as text and parsing it gives the same value back |
| Schema.DeleteAttendeesOfClears | src/components/events/EditEventDialog.tsx:113-116 | After deleting by `event_id`, no row of that event is left |
| Schema.DeleteAttendeesOfKeepsOthers | src/components/events/EditEventDialog.tsx:113-116 | Deleting one event's attendees leaves every other event's rows, in order |
| Categories.CategoryValuesDistinct | src/config/categories.ts:9-70 | No two entries of `EVENT_CATEGORIES` share a `value` |
| Categories.CategoryByValue | src/config/categories.ts:72-74 | A found category has the queried value and is a table entry; it is found exactly when the value is in the table |
| Categories.CategoryByValueExact | src/config/categories.ts:72-74 | Looking up the value of entry i finds entry i, so the lookup has at most one answer |
| Categories.CategoryColor | src/config/categories.ts:76-79 | The table colour for a known value, `#6B7280` otherwise |
| Categories.CategoryIcon | src/config/categories.ts:81-84 | The table icon for a known value, `📝` otherwise |
| Categories.UnknownCategoryLooksLikeOther | src/config/categories.ts:64-69 | An unknown value gets the same colour and icon as `other` |
| Categories.CustomColors | src/config/categories.ts:89-97 | The stored overrides; no window, nothing stored, or an unreadable value all give the empty map |
| Categories.SetCustomColor | src/config/categories.ts:99-108 | On a successful write, key c maps to the new colour, the key set gains only c, and every other key keeps its colour; with no window or a failed write, nothing changes |
| Categories.ColorWithCustom | src/config/categories.ts:110-113 | A present, non-empty override wins; a missing or empty override falls back to the table colour |
| Categories.SetThenReadColor | src/config/categories.ts:99-113 | After setting a non-empty colour for c, reading c gives that colour and reading any other key is unchanged |
| Categories.EmptyOverrideFallsBack | src/config/categories.ts:110-113 | Storing `""` for c makes c read as its table colour |
| Timezones.TimezoneValuesDistinct | src/config/timezones.ts:7-61 | No two of the 53 entries of `TIMEZONES` share a `value` |
| Timezones.TimezoneLabelsRepeat | src/config/timezones.ts:7-61 | Two entries with different values share a label, so labels cannot be keys |
| Timezones.TimezoneByValue | src/config/timezones.ts:71-73 | A found zone has the queried value and is a table entry; nothing is found exactly when no entry has that value |
| Timezones.TimezoneByValueExact | src/config/timezones.ts:71-73 | Looking up the value of entry i finds entry i |
| Timezones.UserTimezone | src/config/timezones.ts:63-69 | The browser's zone when it reports one; otherwise `UTC`, which the lookup resolves to the table's first entry |
| Timezones.ReportedZoneMayBeUnlisted | src/config/timezones.ts:63-73 | A zone the browser can report, such as `America/Argentina/Cordoba`, is not in the table |
| Timezones.ZoneValuesNonEmpty | src/config/timezones.ts:8-60 | No entry has the empty string as its value |
| Text.Trim | src/components/events/CreateEventDialog.tsx:68 | The result neither starts nor ends with ECMAScript whitespace and is no longer than the input |
| Text.TrimIsInfix | src/components/events/CreateEventDialog.tsx:68 | The trim is an infix of the input, with only whitespace removed around it |
| Text.Split | src/components/events/CreateEventDialog.tsx:67 | At least one piece, and no piece holds the separator |
| Text.JoinSplit | src/components/events/CreateEventDialog.tsx:67 | Joining the pieces with the separator gives back the string |
| Text.SplitJoin | src/components/events/EditEventDialog.tsx:70 | Splitting a join of separator-free pieces gives back the pieces |
| Text.SplitConcat | src/components/events/CreateEventDialog.tsx:67 | Splitting `a + sep + b` is the pieces of a followed by the pieces of b |
| Text.NatToStringRoundTrip | src/components/events/EventCard.tsx:109 | The decimal text of a count is all digits and reads back as that count |
| Text.NatToStringInjective | src/components/events/EventCard.tsx:109 | Different counts have different decimal texts |
| Text.Counted | src/components/events/EventCard.tsx:177 | The count's digits, a space, the noun, and an `s` exactly when the count is not 1 |
| Text.CountedReadsBack | src/components/events/EventCard.tsx:177 | Two count texts for the same noun are equal only for equal counts |
| Attendees.ParseAttendees | src/components/events/CreateEventDialog.tsx:66-69 | Every parsed e-mail is non-empty, has no whitespace at either end, and has no comma |
| Attendees.ParseConcat | src/components/events/CreateEventDialog.tsx:66-69 | Parsing `a,b` is the parse of a followed by the parse of b, so order and duplicates are kept |
| Attendees.ParseSingle | src/components/events/CreateEventDialog.tsx:66-69 | A comma-free text parses to its trim, or to nothing when the trim is empty |
| Attendees.ParseSkipsLeadingSpace | src/components/events/EditEventDialog.tsx:107-110 | A leading space does not change the parse |
| Attendees.NameFromEmail | src/components/events/CreateEventDialog.tsx:106 | The name is the longest `@`-free prefix of the e-mail: the whole e-mail exactly when it holds no `@` |
| Attendees.AttendeeRows | src/components/events/CreateEventDialog.tsx:103-107 | One row per e-mail, in order, each with the event's id, that e-mail, and the name derived from it |
| Attendees.AttendeeRowsFaithful | src/components/events/CreateEventDialog.tsx:103-107 | The rows built carry exactly the given e-mails, and all of them belong to the event |
| Attendees.SerializeAttendees | src/components/events/EditEventDialog.tsx:70 | Absent or empty attendees give `""`; otherwise the e-mails joined by `", "` |
| Attendees.ParseJoinRoundTrip | src/components/events/EditEventDialog.tsx:107-110 | Parsing e-mails joined by `", "` gives them back, when each is non-empty, trimmed and comma-free |
| Attendees.SerializeParseRoundTrip | src/components/events/EditEventDialog.tsx:70 | Parsing the pre-filled attendee text gives back the stored e-mails, in order |
| EventForm.StartStamp | src/components/events/CreateEventDialog.tsx:72-74 | Split at `T`, the start stamp is the date then `00:00:00Z` for all-day events, or the date then time plus `:00Z` otherwise |
| EventForm.EndStamp | src/components/events/CreateEventDialog.tsx:76-78 | Split at `T`, the end stamp is the date then `23:59:59Z` for all-day events, or the date then time plus `:00Z` otherwise |
| EventForm.NullIfEmpty | src/components/events/CreateEventDialog.tsx:87-88 | Null exactly for the empty text, otherwise the text itself |
| EventForm.NullableRoundTrip | src/components/events/EditEventDialog.tsx:63-64 | Pre-filling then saving keeps a description or location, except that a stored `""` comes back null |
| EventForm.AllDayChange | src/components/events/CreateEventDialog.tsx:152-158 | Sets all-day; switching it on copies the start date into the end date; switching it off changes nothing else |
| EventForm.AllDayChangeIdempotent | src/components/events/EditEventDialog.tsx:153-158 | Applying the toggle twice with the same value is the same as applying it once |
| EventForm.AllDayCoversOneDate | src/components/events/CreateEventDialog.tsx:72-78 | After switching all-day on, start and end stamps both fall on the start date, from 00:00:00 to 23:59:59 |
| EventForm.CategoryChange | src/components/events/CreateEventDialog.tsx:160-163 | Sets the category and the colour the overrides give for it; leaves the other fields alone |
| EventForm.CategoryColorChange | src/components/events/CreateEventDialog.tsx:165-168 | Sets the shown colour and stores it as the override for the current category; nothing else changes |
| EventForm.PickedColorComesBack | src/components/events/CreateEventDialog.tsx:160-168 | A non-empty colour picked for a category shows again after switching away and back |
| EventForm.InitialCreateForm | src/components/events/CreateEventDialog.tsx:33-46 | The form at mount: both dates are the date part of the day selected at that moment, or empty; title, description, location and attendees empty; not all-day; times 09:00 and 10:00; category `personal` with its current colour; the browser's zone |
| EventForm.SelectedDateIsDatePart | src/components/events/CreateEventDialog.tsx:37-39 | A day selected at mount fills the start date with the text before `T` in its ISO string |
| EventForm.ClickDay | src/pages/Calendar.tsx:173-176 | As written, clicking a day selects it on the page and leaves the mounted dialog's form unchanged |
| EventForm.ClickedDayNeverReachesForm | src/components/events/CreateEventDialog.tsx:33-40 | On a freshly loaded page, after a click the page's selected day has date part d, yet both date fields are still empty |
| EventForm.ClickDayFixed | src/pages/Calendar.tsx:173-176 | Corrected click: both date fields take the clicked day's date part; every other field is kept |
| EventForm.FixedClickShowsDay | src/components/events/CreateEventDialog.tsx:37-39 | After the corrected click both date fields show the clicked date; on a freshly loaded page the form equals the initializer's form for that day |
| EventForm.CalendarOrg | src/components/events/CreateEventDialog.tsx:57-63 | The organisation is found exactly when the query succeeds and one calendar has the id, and it is that calendar's organisation |
| EventForm.InsertedAttendees | src/components/events/CreateEventDialog.tsx:101-116 | No rows when the parse is empty or the insert fails; otherwise one row per parsed e-mail |
| EventForm.SubmitCreate | src/components/events/CreateEventDialog.tsx:48-150 | Fails with no user, with no calendar, or on an invalid date. On success it appends one event with the form's values, appends its attendee rows, and resets the form |
| EventForm.ZoneNeverApplied | src/components/events/CreateEventDialog.tsx:72-93 | Changing the chosen zone changes only the stored `timezone` column, never the timestamps |
| EventForm.NewEventAttendees | src/components/events/CreateEventDialog.tsx:101-116 | The new event's rows carry exactly the parsed e-mails, all well formed |
| EventForm.FirstFive | src/components/events/EditEventDialog.tsx:66-68 | The first five characters, or the whole text when shorter |
| EventForm.Prefill | src/components/events/EditEventDialog.tsx:56-73 | Copies title and all-day; null description and location become `""`; the dates are the UTC date parts; the times are the first five characters of the local times, or 09:00 and 10:00 for all-day events; the attendee text is the stored e-mails joined by `", "`, or `""` when there are none |
| EventForm.ApplyPatch | src/components/events/EditEventDialog.tsx:94-101 | Writes title, description, location, start, end and all-day; every other column is kept |
| EventForm.UpdateEvents | src/components/events/EditEventDialog.tsx:92-102 | Only the row with the edited id is patched; all others are unchanged |
| EventForm.SubmitEdit | src/components/events/EditEventDialog.tsx:75-151 | Nothing happens with no selected event. An invalid date or a failed update fails. Otherwise the row is patched, the event's attendees are deleted unless that fails, and the parsed rows are appended unless that fails |
| EventForm.EditReconcilesAttendees | src/components/events/EditEventDialog.tsx:107-128 | After a fault-free save, the event's rows are exactly one pending row per parsed e-mail; earlier responses are gone |
| EventForm.EditKeepsOtherAttendees | src/components/events/EditEventDialog.tsx:112-128 | Saving one event never changes another event's attendee rows |
| EventForm.EditWithFailedDeleteKeepsOldRows | src/components/events/EditEventDialog.tsx:113-128 | When the unchecked delete fails, the old rows stay and the new ones are added after them |
| EventForm.EditWritesOnlyPatchedColumns | src/components/events/EditEventDialog.tsx:94-102 | The id, organisation, calendar, category, zone, creator and recurrence of every row are unchanged |
| EventForm.PrefillThenSaveKeepsEvent | src/components/events/EditEventDialog.tsx:56-128 | Saving the pre-filled form unchanged keeps the title, all-day flag, non-empty description and location, and attendee e-mails |
| EventForm.CreateThenPrefill | src/components/events/CreateEventDialog.tsx:81-116 | Editing a just-created event pre-fills its title, texts, flag and attendees as they were entered |
| EventCard.FormatDate | src/components/events/EventCard.tsx:53-58 | "Today" exactly for today, "Tomorrow" exactly for the next day, "Yesterday" exactly for the previous day, a date otherwise |
| EventCard.FormatDateReadsBack | src/components/events/EventCard.tsx:53-58 | The label names its day: reading it back against today gives the day, so different days get different labels |
| EventCard.FormatDateTime | src/components/events/EventCard.tsx:64-77 | Exactly one of four shapes, chosen by all-day and by whether start and end fall on the same local day |
| EventCard.FormatDateTimeReadsBack | src/components/events/EventCard.tsx:64-77 | Every shape shows the start and end days, and the timed shapes show the start and end times |
| EventCard.AcceptedCount | src/components/events/EventCard.tsx:106 | At most the total; equal to it exactly when all responses are `accepted`; zero exactly when none is |
| EventCard.AcceptedCountOfOne | src/components/events/EventCard.tsx:106 | A single row counts 1 exactly when its response is `accepted`, and 0 otherwise |
| EventCard.AcceptedCountAppend | src/components/events/EventCard.tsx:106 | The count of a concatenation is the sum of the counts, so any list counts exactly its `accepted` rows |
| EventCard.AttendeeStatus | src/components/events/EventCard.tsx:103-110 | Null exactly when attendees are absent or empty; otherwise it splits at `/` into the accepted count and the total plus " accepted" |
| EventCard.AttendeeStatusReadsBack | src/components/events/EventCard.tsx:103-110 | Equal badges mean equal accepted counts and equal totals |
| EventCard.AttendeeCountLine | src/components/events/EventCard.tsx:174-178 | Shown exactly when there are attendees, as the counted text for "attendee" |
| EventCard.AttendeeCountLineWording | src/components/events/EventCard.tsx:177 | Ends in `s` exactly when the count is not 1; one attendee reads "1 attendee"; equal lines mean equal counts |
| EventCard.StatusAndCountShownTogether | src/components/events/EventCard.tsx:103-110 | The badge and the count line appear together or not at all |
| EventCard.CategoryBadge | src/components/events/EventCard.tsx:131-143 | Shown exactly for a non-empty category; it holds that category's table entry, or is empty for an unknown value |
| EventCard.PickedCategoryShown | src/components/events/EventCard.tsx:131-143 | An event with a table category shows that entry |
| EventCard.ZoneLine | src/components/events/EventCard.tsx:167-172 | Shown exactly for a non-empty zone; its text is the label of the table entry with that value, and it is empty for an unlisted zone |
| EventCard.PickedZoneShown | src/components/events/EventCard.tsx:167-172 | A zone picked from the table shows its label |
| EventCard.FallbackZoneShown | src/components/events/EventCard.tsx:167-172 | The fallback `UTC` shows "UTC (Coordinated Universal Time)" |
| EventCard.UnlistedZoneShownEmpty | src/components/events/EventCard.tsx:167-172 | An unlisted zone the browser reported shows an empty line |
| CalendarUtils.CreatedBy | src/utils/calendarUtils.ts:36-40 | Exactly the calendars created by the user, in table order |
| CalendarUtils.MembershipCalendars | src/utils/calendarUtils.ts:54-69 | Calendars of the member organisations, and every calendar of those organisations |
| CalendarUtils.CreatedPart | src/utils/calendarUtils.ts:36-44 | None when the query fails; otherwise the first min(5, n) of the user's n own calendars, in order |
| CalendarUtils.MemberPart | src/utils/calendarUtils.ts:47-70 | None without a profile or memberships; otherwise exactly the calendars of the member organisations: each one is of a member organisation, and every calendar of a member organisation is included |
| CalendarUtils.Combined | src/utils/calendarUtils.ts:33-70 | The created calendars come first, then the membership calendars |
| CalendarUtils.DedupById | src/utils/calendarUtils.ts:73-75 | Ids are pairwise distinct; the first occurrence of every id is kept; every kept calendar is a first occurrence; kept calendars appear in increasing order of their first positions |
| CalendarUtils.KeepFirstFromIsDedupSeen | src/utils/calendarUtils.ts:73-75 | The `findIndex` filter equals a left-to-right walk that drops ids already seen |
| CalendarUtils.DedupIdempotent | src/utils/calendarUtils.ts:73-75 | De-duplicating twice is the same as once |
| CalendarUtils.UserCalendars | src/utils/calendarUtils.ts:30-82 | An exception gives `[]`. Otherwise the result has distinct ids, keeps the combined list's order, and holds every id in it |
| CalendarUtils.CreatedCalendarsFirst | src/utils/calendarUtils.ts:36-75 | The result is the de-duplicated created calendars, then membership calendars with ids not among them |
| CivilDate.NextPrevInverse | src/components/events/EventCard.tsx:55-56 | The day after the day before, and the day before the day after, are the day itself |
| CivilDate.NextDayIsSuccessor | src/components/events/EventCard.tsx:55 | No valid day lies strictly between a day and its next day |
| CivilDate.NextMonth | src/pages/Calendar.tsx:425 | The month after, one step later in month count |
| CivilDate.PrevMonth | src/pages/Calendar.tsx:408 | The month before, one step earlier in month count |
| CivilDate.WeekdayOfNextDay | src/pages/Calendar.tsx:188 | The day after a day falls on the next weekday, Saturday wrapping to Sunday |
| MonthGrid.EventsForDate | src/pages/Calendar.tsx:166-171 | Exactly the events whose start is on the day, as a subsequence of the fetched events |
| MonthGrid.EventInItsOwnCellOnly | src/pages/CalendarDetail.tsx:147-152 | An event is listed for a day exactly when it starts on that day |
| MonthGrid.MonthDays | src/pages/Calendar.tsx:178-183 | One day per day of the month, first to last, each in the displayed month |
| MonthGrid.MonthDaysExactly | src/pages/CalendarDetail.tsx:159-164 | A day is in the grid exactly when it is in the month; cells run in order, day after day |
| MonthGrid.Cell | src/pages/Calendar.tsx:214-229 | At most 3 titles, the first ones in order; "+N more" exactly when there are more than 3 events |
| MonthGrid.CellAccountsForEveryEvent | src/pages/CalendarDetail.tsx:195-206 | Titles listed plus the "more" count equal the day's events |
| MonthGrid.MoreText | src/pages/Calendar.tsx:227-229 | `+`, the decimal count, then " more" |
| MonthGrid.Cells | src/pages/Calendar.tsx:194-199 | One cell per day; in-month exactly for days of the displayed month; today exactly for today; each showing its day's events |
| MonthGrid.Grid | src/pages/Calendar.tsx:178-199 | As written, cell i holds day i+1 of the month, every cell is marked as in the month, exactly today's cell is marked today, and each cell lists its day's events |
| MonthGrid.EachEventInExactlyOneCell | src/pages/CalendarDetail.tsx:147-179 | An event starting in the displayed month is in exactly one cell; an event starting elsewhere is in none |
| MonthGrid.UpcomingCount | src/pages/Calendar.tsx:360 | At most the number of events |
| MonthGrid.UpcomingCountOfOne | src/pages/Calendar.tsx:360 | One event is upcoming exactly when its start is at `now` or later |
| MonthGrid.UpcomingCountAppend | src/pages/CalendarDetail.tsx:352 | The count of a concatenation is the sum of the counts, so any list counts exactly its events starting at `now` or later |
| MonthGrid.UpcomingAndPastPartition | src/pages/Calendar.tsx:360 | Upcoming and past events add up to all events |
| MonthGrid.UpcomingShrinksOverTime | src/pages/CalendarDetail.tsx:352 | Later, no more events are upcoming |
| MonthGrid.PageHeader | src/pages/Calendar.tsx:353-361 | The counted "event" text; the upcoming number is shown exactly when there are events, and it is the count of events starting at `now` or later |
| MonthGrid.HeaderWording | src/pages/CalendarDetail.tsx:346 | Ends in `s` exactly when the count is not 1; one event reads "1 event"; equal headers mean equal counts |
| MonthGrid.Opened | src/pages/Calendar.tsx:52-53 | The page opens on the month holding today, with nothing selected |
| MonthGrid.PressPrev | src/pages/Calendar.tsx:408 | Moves one month back and keeps the selection |
| MonthGrid.PressNext | src/pages/CalendarDetail.tsx:417 | Moves one month on and keeps the selection |
| MonthGrid.PressToday | src/pages/Calendar.tsx:415-418 | Shows the month holding today and selects today |
| MonthGrid.ArrowsUndoEachOther | src/pages/CalendarDetail.tsx:400-417 | "←" then "→", or "→" then "←", shows the same month |
| MonthGrid.UnpaddedColumnsMatchOnlyFromSunday | src/pages/Calendar.tsx:181-188 | Every cell of the grid as written sits under its own weekday exactly when the month starts on a Sunday |
| MonthGrid.UnpaddedGridMisplacesOctober2026 | src/pages/CalendarDetail.tsx:162-169 | 1 October 2026 is a Thursday, yet it sits in the first column, under "Sun" |
| MonthGrid.PaddedMonthDays | src/pages/Calendar.tsx:181-188 | Whole weeks of consecutive days, with every cell on its column's weekday, the month's days in order after the lead days, and less than a week of padding |
| MonthGrid.PaddedCellInMonth | src/pages/Calendar.tsx:196-202 | In the padded grid, a cell is in the displayed month exactly when it is one of the month's cells |
| MonthGrid.PaddedGrid | src/pages/CalendarDetail.tsx:159-179 | Whole weeks, each cell under its own weekday, the month's days after the lead days, only those marked as in the month, exactly today's cell marked today, and each cell listing its day's events |

## Left out

- The network: every backend call (authentication, select, insert, update, delete) is a row sequence plus a fault flag. Toasts, logging, loading flags and dialog opening are not modelled.
- React rendering, effects and routing, apart from the values the components compute.
- JavaScript `Date`, date-fns and `Intl`. A stored timestamp's local day, local time and instant come from the `LocalReading` parameter. `toISOString` is the `toIso` parameter. The edit dialog's `toISOString` and `toTimeString` texts come from the `StampReader` parameter.
- Rendered date and time text (`"MMM d, yyyy"`, `"h:mm a"`, the month title `"MMMM yyyy"`) is given as structured labels, not characters. The `•` separator of the card's date-time line is not modelled.
- EventForm.Prefill: does not claim that saving a pre-filled timed event keeps its times. The date comes from the UTC text and the time from the local text, so that holds only when the browser's zone is UTC.
- MonthGrid.EachEventInExactlyOneCell: assumes the browser reads every stored start as a valid day (`ReadsValidDays`).
- `subMonths` and `addMonths` also clamp the day of the month. Only the displayed (year, month) is modelled, because the grid and the arrows depend on nothing else.
- CalendarUtils.CreatedPart: the backend returns rows in table order. `.limit(5)` without an ordering leaves the order to the database.
- CalendarUtils.MemberPart: the `memberships` join is given as the list of member organisation ids. Each organisation contributes its calendars in table order.
- New attendee rows get the response `pending`. That is the database default, not something the dialogs set.
- Categories.SetCustomColor: a stored value that parses to something other than an object is treated as unreadable, so a write stores a fresh map. In the program, the write to a non-object such as `null` throws and is swallowed, so nothing is stored.
- Categories.ColorWithCustom: the same non-object case reads as no overrides. In the program, a stored `null` makes `customColors[value]` throw an uncaught TypeError.
- `handleDelete` on the card (src/components/events/EventCard.tsx:79-101) is a single delete call with toasts and has no logic to model.
- `createSimpleCalendar` (src/utils/calendarUtils.ts:3-28) is a single insert and is not modelled.
- The card's "All Day" badge, description and location lines, and the `color + '40'` style string are plain conditionals on one field and are not modelled.
- The timezone `offset` column and the category `label` are carried as data; nothing in the core computes with them.
- `Calendar.tsx` and `CalendarDetail.tsx` hold the same grid, cell, header and navigation code. It is modelled once, and the table cites both files.

## Findings

| source | as written | input that shows it | evidently intended | confidence | as-written member | corrected member |
|---|---|---|---|---|---|---|
| src/components/events/CreateEventDialog.tsx:33-40 | The form is `useState` state seeded from the `selectedDate` prop only at mount. Both pages mount the dialog once, with the grid and before any day is selected (src/pages/Calendar.tsx:448-453), and `handleDateClick` (src/pages/Calendar.tsx:173-176) only changes the prop | Load the page, then click 9 October 2026: the dialog opens with empty date fields | The clicked day fills both date fields, for example through an effect on `selectedDate` | not executed | EventForm.ClickedDayNeverReachesForm | EventForm.FixedClickShowsDay |
| src/pages/Calendar.tsx:181-188 (same in src/pages/CalendarDetail.tsx:162-169) | The grid starts at `startOfMonth(monthStart)` and ends at `endOfMonth(monthEnd)`, so day 1 always fills the first of seven columns headed Sun..Sat | October 2026: 1 October is a Thursday but is drawn under "Sun" | Start at the Sunday on or before the first of the month and end at the Saturday on or after its last day, as the `isCurrentMonth` styling for outside days suggests | not executed | MonthGrid.UnpaddedGridMisplacesOctober2026 | MonthGrid.PaddedGrid |
