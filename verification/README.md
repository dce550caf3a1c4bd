# Balon feeder: day boundaries, feeding summaries and the calendar grid

This project models, in Dafny, the part of the balon feeder system that maps clock
times onto a feeding "day" that does not start at midnight:

- the backend `FeedingController` (`store` and `today`): the feeding day starts at
  02:00; `today` counts every feeding since that instant and reports the latest one;
  `store` appends one feeding at the current instant and returns the same summary plus
  an informational limit of 6;
- the calendar page's slot mapping (`getFeedingSlot`, `getDisplayHour`): a day that
  starts at 04:00, whose hours 00..03 are shown as slots 24..27;
- the pure parts of the calendar page: the slot rows 4..27 and their labels, the
  records shown in each cell (filtered by slot, sorted by "HH:mm"), the Sunday that
  starts the current week, previous/next week navigation, and the request an edit sends.

The backend's day boundary (02:00) and the calendar's (04:00) are two distinct
constants, `FeedingController.BackendDayStartHour` and
`CalendarUtils.FrontendDayStartHour`: the controller's comments and code fix its day
start at 02:00 (backend/app/Http/Controllers/FeedingController.php:25 and :51), while the
calendar page's slots and heading start at 04:00 (frontend/app/calendar/page.tsx:145 and
:166). Nothing ties the two together, and the model keeps them apart.

Instants are whole seconds on a local timeline without daylight saving, so the hour of
an instant is `(t mod 86400) / 3600` and a calendar date is an 86400-second stretch
starting at a multiple of 86400 (`Timeline`). Calendar dates on the page are abstract
day numbers with day 0 = 1970-01-01 (a Thursday). The `feedings` table is a sequence
of rows in insertion order plus the auto-increment counter.

Files:

- `wrappers.dfy`: `Option`, for the source's `null`.
- `timeline.dfy`: instants, hour of day, start of the calendar date, day boundaries.
- `feeding_controller.dfy`: the backend controller.
- `time_text.dfy`: digits, `Number`/`toString`/`padStart`/`split`, code-point string
  order, the "HH:mm" format.
- `calendar_utils.dfy`: `getFeedingSlot` and `getDisplayHour`.
- `calendar_page.dfy`: the calendar page.

## Model

| member | source | states |
|---|---|---|
| Timeline.StartOfDay | backend/app/Http/Controllers/FeedingController.php:52 | `today()` is a midnight, at or before the instant and less than a day before it |
| Timeline.HourOf | backend/app/Http/Controllers/FeedingController.php:55 | the hour lies in 0..23 and the instant falls inside that hour of its calendar date |
| Timeline.BoundaryUnique | backend/app/Http/Controllers/FeedingController.php:52-57 | at most one instant at a given hour of day begins a 24-hour stretch containing a given instant |
| Timeline.BoundaryHour | backend/app/Http/Controllers/FeedingController.php:52-57 | a day boundary sits exactly at its hour of its own calendar date |
| FeedingController.WindowStart | backend/app/Http/Controllers/FeedingController.php:51-57 | the day start has hour 2, satisfies start <= now < start + 24h, lies on today's date when the hour is at least 2 and on yesterday's date otherwise |
| FeedingController.WindowStartIsLastBoundary | backend/app/Http/Controllers/FeedingController.php:52-57 | any 02:00 instant whose next 24 hours contain now is the computed day start, so the start is uniquely determined |
| FeedingController.WindowStartBeforeAndAfterTwo | backend/app/Http/Controllers/FeedingController.php:52-57 | on any date, 01:00 belongs to the day that began at 02:00 the date before, and 05:00 to the day that began at 02:00 that date |
| FeedingController.CountSince | backend/app/Http/Controllers/FeedingController.php:60-66 | the count never exceeds the number of rows |
| FeedingController.CountSinceIsSelectionSize | backend/app/Http/Controllers/FeedingController.php:60-66 | the count is exactly the number of rows with feeding time at or after the start, with no upper bound |
| FeedingController.LatestSince | backend/app/Http/Controllers/FeedingController.php:60-67 | latest is null exactly when nothing is counted; otherwise it is some counted row's time, at or after the start, and no counted row is later |
| FeedingController.Summarize | backend/app/Http/Controllers/FeedingController.php:31-40 | the count is the size of the selected rows; latest is null exactly when the count is 0, is never before the start, is the time of some row, and no row at or after the start is later |
| FeedingController.Today | backend/app/Http/Controllers/FeedingController.php:49-69 | the summary counts exactly the rows since the 02:00 day start, latest is the maximum counted time and null exactly when the count is 0 |
| FeedingController.Store | backend/app/Http/Controllers/FeedingController.php:15-43 | exactly one row with the next id, time now and amount 10 is appended and nothing else changes; ids stay unique; the count is the day's count before the insert plus one and equals what `today` reports afterwards; latest is the later of now and the previous latest; the limit is 6 and nothing is ever rejected |
| FeedingController.SplitClockMissesNewRow | backend/app/Http/Controllers/FeedingController.php:19-28 | a row written at 01:59:59 is inside the day that its own instant starts, but before the day start computed one second later at 02:00 |
| FeedingController.FutureRowsCountAsToday | backend/app/Http/Controllers/FeedingController.php:60-63 | a row dated a day or more after the day start is still counted as today's and can become the latest |
| TimeText.DecimalValue | frontend/app/calendar/utils.ts:11 | `Number` of a digit string is below 10 to the string's length and its last digit is the units digit; ToDecimal and TwoDigitValue carry the round trip and the two-digit value |
| TimeText.ToDecimal | frontend/app/calendar/page.tsx:230 | `toString()` gives a non-empty digit string that reads back as the number; one digit exactly below 10, two digits below 100, and never a leading zero |
| TimeText.PadStart | frontend/app/calendar/page.tsx:230 | `padStart` keeps the string as a suffix, fills the rest with the fill character and reaches the requested width |
| TimeText.BeforeFirst | frontend/app/calendar/utils.ts:11 | `split(sep)[0]` is a prefix free of the separator that ends at the first separator or at the end |
| TimeText.PrefixBeforeSeparator | frontend/app/calendar/utils.ts:11 | the text before the first separator is unique |
| TimeText.TwoDigitValue | frontend/app/calendar/utils.ts:11 | `Number` of a two-digit string, leading zero included, is ten times the first digit plus the second |
| TimeText.HourField | frontend/app/calendar/utils.ts:11 | `Number(time.split(":")[0])` of a well-formed time is its two-digit hour, at most 23 |
| TimeText.MinuteField | frontend/app/calendar/page.tsx:237 | the minutes of a well-formed time are at most 59 |
| TimeText.MinuteOfDay | frontend/app/calendar/page.tsx:237 | a well-formed time names a minute of the day below 1440 |
| TimeText.LexLe | frontend/app/calendar/page.tsx:237 | `localeCompare(...) <= 0` as code-point order: a prefix sorts first, and a string that sorts at or before one of its own prefixes is that prefix; LexLeAntisymmetric, LexLeFirstDifference, LexLeTimes and LexLeIsChronological carry the rest of the order |
| TimeText.LexLeAntisymmetric | frontend/app/calendar/page.tsx:237 | two strings each sorting at or before the other are equal, so the comparator is antisymmetric |
| TimeText.LexLeFirstDifference | frontend/app/calendar/page.tsx:237 | one string sorts at or before another exactly when it is a prefix of it or the first position where they differ holds a smaller character |
| TimeText.LexLeTimes | frontend/app/calendar/page.tsx:237 | string order of two well-formed times is decided by the four digit positions in turn |
| TimeText.LexLeIsChronological | frontend/app/calendar/page.tsx:237 | for zero-padded "HH:mm", string order coincides with chronological order |
| CalendarUtils.GetFeedingSlot | frontend/app/calendar/utils.ts:10-19 | the slot lies in 4..27, its offset from 4 is the hours elapsed since 04:00, and `getDisplayHour` recovers the hour |
| CalendarUtils.GetDisplayHour | frontend/app/calendar/utils.ts:28-30 | a slot in 4..27 maps to the hour slot mod 24, whose distance from 04:00 is the slot's offset from 4 |
| CalendarUtils.SlotOfDisplayHour | frontend/app/calendar/utils.ts:10-30 | every slot 4..27 is the slot of the times at its display hour |
| CalendarUtils.SlotIgnoresMinutes | frontend/app/calendar/utils.ts:11 | two times with the same hour field land in the same slot whatever their minutes |
| CalendarUtils.SlotOrderFollowsDay | frontend/app/calendar/utils.ts:13-18 | slot order is the order of hours counted from 04:00 |
| CalendarUtils.SlotCountsHoursSinceDayStart | frontend/app/calendar/utils.ts:13-18 | for an instant at the time's hour, the slot is 4 plus the whole hours since the 04:00 that began its day |
| CalendarUtils.DocumentedExamples | frontend/app/calendar/utils.ts:5-26 | the documented examples hold: 02:21 to 26, 04:00 to 4, 23:10 to 23, and 26 back to 2 |
| CalendarPage.Slots | frontend/app/calendar/page.tsx:144-147 | the rows are 24 strictly ascending slots, each in 4..27, covering every slot 4..27 |
| CalendarPage.PadHour | frontend/app/calendar/page.tsx:230 | the padded hour is two digits whose value is the hour |
| CalendarPage.RowLabel | frontend/app/calendar/page.tsx:224-231 | a row label is a well-formed "HH:00" time whose hour is the row's display hour |
| CalendarPage.RowLabelRoundTrip | frontend/app/calendar/page.tsx:223-231 | a row's label names the row's hour modulo 24 and maps back to the same row |
| CalendarPage.RowLabelsFollowDay | frontend/app/calendar/page.tsx:223-231 | the i-th label shows hour (i + 4) mod 24, so labels read 04..23 then 00..03 |
| CalendarPage.InSlot | frontend/app/calendar/page.tsx:235-236 | the filter keeps exactly the records whose slot is the cell's, each with its full multiplicity, and nothing else |
| CalendarPage.SortedSnoc | frontend/app/calendar/page.tsx:237 | appending a record no earlier than all others keeps a sequence sorted |
| CalendarPage.LexLeTransitive | frontend/app/calendar/page.tsx:237 | string order of well-formed times is transitive |
| CalendarPage.AllBefore | frontend/app/calendar/page.tsx:237 | every record of a sorted sequence precedes what its last record precedes |
| CalendarPage.InsertedBefore | frontend/app/calendar/page.tsx:237 | inserting a record earlier than a bound keeps every record below that bound |
| CalendarPage.InsertByTime | frontend/app/calendar/page.tsx:237 | inserting into a sorted sequence keeps it sorted and adds exactly the record |
| CalendarPage.SortByTime | frontend/app/calendar/page.tsx:237 | the sort yields a sorted permutation of its input |
| CalendarPage.Hits | frontend/app/calendar/page.tsx:234-237 | a cell shows exactly the day's records of its slot, each as often as it occurs, in ascending time-string order, which is chronological order |
| CalendarPage.ShownUnlisted | frontend/app/calendar/page.tsx:223-237 | a record whose slot is not among the rows is never shown |
| CalendarPage.ShownListed | frontend/app/calendar/page.tsx:223-237 | over distinct rows, a record whose slot is among them is shown exactly as often as it occurs in the day |
| CalendarPage.ShownOnlyRecords | frontend/app/calendar/page.tsx:223-237 | a cell never shows anything that is not a record of its day |
| CalendarPage.CellsPartition | frontend/app/calendar/page.tsx:223-237 | any rows listing each slot 4..27 once show every record of the day exactly as often as it occurs, and nothing else |
| CalendarPage.CellsPartitionDay | frontend/app/calendar/page.tsx:223-237 | the cells of a day's column, taken over all rows, show its records exactly as often as each occurs: they partition the day |
| CalendarPage.Weekday | frontend/app/calendar/page.tsx:49 | `getDay()` lies in 0..6 |
| CalendarPage.WeekdayAdvances | frontend/app/calendar/page.tsx:49 | `getDay()` of the next day is one more modulo 7, and 1970-01-01 is a Thursday (4), so the weekday is the real one |
| CalendarPage.ThisWeekStart | frontend/app/calendar/page.tsx:47-54 | the week start is a Sunday at most six days before today |
| CalendarPage.ThisWeekStartUnique | frontend/app/calendar/page.tsx:47-54 | no other Sunday lies within the six days up to today |
| CalendarPage.PrevWeek | frontend/app/calendar/page.tsx:59-65 | going back moves the start exactly 7 days earlier, on the same weekday |
| CalendarPage.NextWeek | frontend/app/calendar/page.tsx:70-76 | going forward moves the start exactly 7 days later, on the same weekday |
| CalendarPage.PrevNextRoundTrip | frontend/app/calendar/page.tsx:59-76 | previous then next, or next then previous, returns to the original week start |
| CalendarPage.NextWeekOfThisWeek | frontend/app/calendar/page.tsx:47-76 | the next (previous) week of this week is the week containing the day a week later (earlier) |
| CalendarPage.EditRequestFor | frontend/app/calendar/page.tsx:90-106 | no request exactly when the prompt is cancelled or empty; otherwise the request carries the record's id and the time string is exactly the column's date, a space, the entered text and ":00" |
| CalendarPage.EditRequestRoundTrip | frontend/app/calendar/page.tsx:96-99 | a well-formed time entered on a well-formed date produces a well-formed "YYYY-MM-DD HH:mm:ss" that reads back as that date, that time and zero seconds |

## Left out

- HTTP handling, the query builder, routing, CORS, React state and effects, fetches, alerts and the layout, header and home pages are plumbing and are not modelled; the feeding and weekly pages only render what the endpoints return.
- FeedingController.Store: the model handles one request at a time; the source's insert (backend/app/Http/Controllers/FeedingController.php:18-23) and its count query (:32-35) run without a transaction, so a concurrent store landing between them would also be counted and the count could exceed the previous count plus one.
- FeedingController.Store: the source reads the clock five times (backend/app/Http/Controllers/FeedingController.php:19, :21, :22, :26 and :27) and a sixth at :28 when the hour is below 2; the model reads it once, so every instant is the same `now`. This hides a race at the boundary: a feeding written just before 02:00 whose day start is computed at 02:00 or later falls before that start, so it is not counted, the count does not rise by one and `latest` leaves it out (SplitClockMissesNewRow).
- FeedingController.Today: the ordering `orderBy('feeding_time', 'desc')->first()` is modelled as the maximum counted feeding time; which of several rows with equal times comes first is not modelled, since only the time is returned.
- The table's ids come from an auto-increment counter; the database's own id allocation, `created_at`/`updated_at` bookkeeping and the `DATETIME` column's storage format are not modelled.
- Time zones, daylight saving and JavaScript `Date` effects (the UTC shift of `toISOString`, parsing of date strings into day numbers) are left out: dates are day numbers and instants are seconds on one local timeline.
- CalendarPage.Hits: requires every record of the day to carry a well-formed zero-padded "HH:mm" time, as the record type promises; a malformed time (where `Number` gives `NaN` or a one-digit hour) is not modelled.
- CalendarUtils.GetFeedingSlot: defined only on well-formed "HH:mm" strings, for the same reason.
- CalendarPage.SortByTime: `localeCompare` is modelled as code-point order, which agrees with it on well-formed "HH:mm" strings; the stability of the browser's sort among records with equal times is not stated.
- CalendarPage.EditRequestFor: the browser prompt, the PUT request and the refetch are left out; like the source, the model does not validate the entered text.
- The weekly report, reset-today, edit and delete endpoints the page calls have no server side in the repository: backend/routes/api.php:40-43 routes only `store` and `today`, and no controller implements the others, so the weekly buckets, averages, underfed days and the server side of edit, delete and reset are not part of this model.
- `today` returns no `limit` field, while the feeding page's response type expects one (frontend/app/feeding/page.tsx:7-11); this mismatch is noted and not modelled.
- The weekday header, the "today" highlight and the day-of-month label of the calendar page are display only and are not modelled.
