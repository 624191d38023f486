# Day-planner date, spread and task services

A Dafny model of the three services at the core of a two-page day planner:

- **DateService** (`src/lib/services/dates.ts`) names calendar days by `YYYY-MM-DD` identifiers. It gives today, yesterday and tomorrow, the identifier a number of days after another, the signed number of days between two identifiers, and a description of a day relative to today ("today", "yesterday", "tomorrow", "N days ago", "in N days").
- **SpreadService** (`src/lib/services/spreads.ts`) works with spreads: a left and a right page, each showing one day. It builds today's spread (yesterday on the left, today on the right) and pages forward and back two days at a time. It also sorts a task list onto the two pages, leaving out deleted tasks.
- **TaskService** (`src/lib/services/tasks.ts`) does four things to the task list: lists the tasks of a day, upserts a task by id, moves a task to another day, and creates a task.

The model is split into these modules:

- `Calendar` (calendar.dfy): proleptic Gregorian days. Day numbers count from 1970-01-01, the epoch day of ECMAScript time values. Shifting and differencing are done on day numbers, so no time of day, timezone offset or daylight-saving transition enters them.
- `Decimal` (decimal.dfy): zero-padded fixed-width fields, plain decimal numerals, and a character-by-character string order. On the ASCII identifiers it is applied to, that order agrees with `<`.
- `DayId` (day_id.dfy): formats and parses identifiers. Only years 0000 to 9999 have one.
- `Dates` (dates.dfy): the date service. The clock's reading becomes a `today: Day` parameter. A failure is `None`, whether an identifier does not parse or a result day has no four-digit year.
- `Filters` (filters.dfy) and `Text` (text.dfy): `Array.prototype.filter` and `String.prototype.trim`.
- `Tasks` (tasks.dfy): the task service as pure functions from a list to a new list.
- `Spreads` (spreads.dfy): the spread service, plus navigation through a sequence of next/previous steps.

The model follows the code where the two could be read differently:

- The difference of two identifiers is a whole number of days. The code rounds the millisecond difference, which absorbs 23- and 25-hour days.
- A task's `deleted` flag counts as false when the task never had one. `createTask` builds a task without one, and the page filter reads `!t.deleted`.
- `getDaysDifference` yields NaN for an identifier that does not parse rather than failing. `getRelativeDayDescription` then returns "in NaN days", because NaN matches none of the comparisons at dates.ts:65-68. All three cases are modelled as `None`: that NaN, that description, and the exception thrown when an invalid date is formatted.

## Model

| member | source | states |
|---|---|---|
| Calendar.FromDays | src/lib/services/dates.ts:42 | Every day number, however far outside the current month, normalises to a valid calendar day that has exactly that number. |
| Calendar.Shift | src/lib/services/dates.ts:42 | Moving a day by n days yields a valid day whose day number is n more. |
| Calendar.FromDaysToDays | src/lib/services/dates.ts:42 | Converting a valid day to its number and back gives the same day, so each day has exactly one number. |
| Calendar.OrderAgreesWithDays | src/lib/services/dates.ts:53-58 | Chronological order of (year, month, day) holds exactly when the day numbers are in order, and two days are equal exactly when their numbers are. |
| Calendar.ShiftZero | src/lib/services/dates.ts:42 | A zero shift is the identity. |
| Calendar.ShiftCompose | src/lib/services/dates.ts:42 | A shift by a followed by a shift by b is a shift by a + b. |
| Calendar.DaysBetweenShift | src/lib/services/dates.ts:53-58 | The day difference from d to d shifted by n is n. |
| Calendar.DaysBetween | src/lib/services/dates.ts:58 | The signed day difference from a to b is the shift that carries a to b. |
| Calendar.ShiftKeepsDaysBetween | src/lib/services/dates.ts:53-58 | Shifting two days by the same amount keeps their difference. |
| Calendar.DaysBetweenProperties | src/lib/services/dates.ts:53-58 | A day is 0 days from itself, and the difference is antisymmetric. It is 0 exactly when the days are equal and positive exactly when the first is earlier. |
| Calendar.ShiftOneIsNextDay | src/lib/services/dates.ts:32-36 | A +1 shift is the calendar successor, rolling over month and year ends. |
| Calendar.ShiftMinusOneIsPreviousDay | src/lib/services/dates.ts:25-29 | A -1 shift is the calendar predecessor, rolling back over month and year starts. |
| Calendar.AfterFebruary28 | src/lib/services/dates.ts:42 | The day after February 28th is February 29th in leap years and March 1st otherwise. |
| Calendar.YearWalk | src/lib/services/dates.ts:42 | Any offset from January 1st of a year is re-expressed as a year plus an in-range day of that year, covering the same number of days. |
| Calendar.MonthWalk | src/lib/services/dates.ts:42 | An in-range day of a year is re-expressed as a valid month and day of that year at the same position. |
| Decimal.Pad | src/lib/services/dates.ts:7-9 | A zero-padded field has exactly the width asked for, holds only digits, and denotes the number padded. |
| Decimal.PadDigitsValue | src/lib/services/dates.ts:7-9 | Every digit field is the padding of the number it denotes. |
| Decimal.Natural | src/lib/services/dates.ts:68-69 | A number rendered in decimal is a non-empty digit string that denotes it and has no leading zero. |
| Decimal.NaturalRoundTrip | src/lib/services/dates.ts:68-69 | Reading back a rendered number gives that number. |
| Decimal.PadOrder | src/lib/services/spreads.ts:72 | Equal-width zero-padded fields compare as strings exactly as their numbers compare. |
| DayId.Format | src/lib/services/dates.ts:7-9 | An identifier is ten characters with hyphens at positions 4 and 7. |
| DayId.Parse | src/lib/services/dates.ts:40 | A parsed identifier names a valid day with a four-digit year. |
| DayId.ParseFormat | src/lib/services/dates.ts:39-43 | A string parses to a day exactly when it is that day's formatted identifier. |
| DayId.FormatRoundTrip | src/lib/services/dates.ts:39-43 | Parsing a formatted day gives the day back. |
| DayId.FormatOrder | src/lib/services/spreads.ts:72 | Identifiers are equal exactly when their days are, and string order of identifiers is chronological order. |
| Dates.GetDateString | src/lib/services/dates.ts:5-16 | A day gets an identifier exactly when its year has four digits, and the identifier parses back to that day. |
| Dates.GetToday | src/lib/services/dates.ts:19-22 | Today has an identifier exactly when its year has four digits, and that identifier names the clock's local day. |
| Dates.GetYesterday | src/lib/services/dates.ts:25-29 | Yesterday has an identifier exactly when the calendar predecessor of today has a four-digit year, and that identifier names the predecessor. |
| Dates.GetTomorrow | src/lib/services/dates.ts:32-36 | Tomorrow has an identifier exactly when the calendar successor of today has a four-digit year, and that identifier names the successor. |
| Dates.GetRelativeDate | src/lib/services/dates.ts:39-50 | A result exists exactly when the reference parses and the shifted day has a four-digit year. It names the reference day shifted by the offset and lies exactly offset days from it. |
| Dates.GetDaysDifference | src/lib/services/dates.ts:53-59 | A difference exists exactly when both identifiers parse. |
| Dates.RelativeDateZero | src/lib/services/dates.ts:39-50 | Offset 0 returns the reference identifier unchanged. |
| Dates.RelativeDateCompose | src/lib/services/dates.ts:39-50 | Applying offset a and then b is applying a + b. |
| Dates.RelativeDateInverse | src/lib/services/dates.ts:39-50 | Offset -n undoes offset n. |
| Dates.ShiftKeepsDifference | src/lib/services/dates.ts:53-59 | Shifting two identifiers by the same offset keeps their difference. |
| Dates.DifferenceInvertsRelativeDate | src/lib/services/dates.ts:53-59 | The difference from a reference to its n-day shift is n. |
| Dates.RelativeDateByDifference | src/lib/services/dates.ts:39-50 | Shifting by the difference from first to second reaches second. |
| Dates.DifferenceProperties | src/lib/services/dates.ts:53-59 | An identifier is 0 days from itself, and the difference is antisymmetric. It is 0 exactly for equal identifiers and positive exactly when the first sorts before the second as a string. |
| Dates.YesterdayAndTomorrow | src/lib/services/dates.ts:24-36 | Yesterday and tomorrow are the -1 and +1 relative dates of today's identifier. |
| Dates.TomorrowPageOffsets | src/lib/services/__tests__/dates.test.ts:26-50 | From tomorrow's identifier, offset -1 is today and offset 0 is tomorrow. |
| Dates.ShiftedIsNotReference | src/lib/services/__tests__/dates.test.ts:11-23 | A non-zero offset never returns the reference identifier, so yesterday is never today. |
| Dates.FebruaryRollover | src/lib/services/dates.ts:39-43 | One day after February 28th is February 29th in a leap year and March 1st otherwise. |
| Dates.YearEndRollover | src/lib/services/dates.ts:39-43 | One day after December 31st is January 1st of the next year. |
| Dates.YearStartRollback | src/lib/services/dates.ts:39-43 | One day before January 1st is December 31st of the previous year. |
| Dates.RelativeDateOfFormat | src/lib/services/dates.ts:39-43 | Shifting a formatted identifier gives the identifier of the shifted day. |
| Dates.DescribeCases | src/lib/services/dates.ts:65-69 | The five phrasings are chosen by 0, -1, 1, at most -2, and at least 2, each in both directions. |
| Dates.Describe | src/lib/services/dates.ts:65-69 | The description of a difference is read back as that difference. |
| Dates.ReadDescriptionSound | src/lib/services/dates.ts:65-69 | Whatever difference a text is read as, describing that difference gives the text back, so the reader accepts only descriptions. |
| Dates.DescribeInjective | src/lib/services/dates.ts:65-69 | Different differences get different descriptions. |
| Dates.GetRelativeDayDescription | src/lib/services/dates.ts:62-70 | A description exists exactly when the date parses and today has an identifier. It encodes the day difference from today to the date. |
| Dates.DescribeToday | src/lib/services/__tests__/dates.test.ts:17-20 | Today's own identifier is described as "today". |
| Dates.DescribeRelativeDate | src/lib/services/dates.ts:62-70 | The identifier k days from today is described by the phrasing for k. |
| Dates.DescribeExamples | src/lib/services/dates.ts:66-69 | -1 reads "yesterday", -7 reads "7 days ago", and 3 reads "in 3 days". |
| Filters.Filter | src/lib/services/tasks.ts:7-9 | Filtering keeps a subsequence that holds each element satisfying the predicate as often as the input does, and nothing else. |
| Filters.FilterCompose | src/lib/services/spreads.ts:54-55 | Filtering by p and then q is filtering once by their conjunction. |
| Text.TrimStart | src/lib/services/tasks.ts:34 | Leading trimming keeps a suffix, removes only white space, and leaves no leading white space. |
| Text.TrimEnd | src/lib/services/tasks.ts:34 | Trailing trimming keeps a prefix, removes only white space, and leaves no trailing white space. |
| Text.Trim | src/lib/services/tasks.ts:34 | A trimmed string neither starts nor ends with white space. |
| Text.TrimIsSlice | src/lib/services/tasks.ts:34 | A trimmed string is a slice of the input with only white space cut off on either side. |
| Text.TrimBounds | src/lib/services/tasks.ts:34 | Gives the start and end of the kept slice, with only white space before the start and after the end. |
| Text.TrimIdempotent | src/lib/services/tasks.ts:34 | Trimming twice is trimming once. |
| Tasks.GetTasksForDate | src/lib/services/tasks.ts:7-9 | The result is the subsequence of tasks dated for the day, with each one kept as often as in the list. |
| Tasks.FindIndex | src/lib/services/tasks.ts:12 | The result is the first position holding the id, and there is none exactly when no task has it. |
| Tasks.Find | src/lib/services/tasks.ts:22 | The task found is the one at the first position holding the id, and none is found exactly when no task has it. |
| Tasks.UpdateTask | src/lib/services/tasks.ts:11-19 | A known id is replaced in place at its first position with everything else unchanged, and an unknown id is appended. |
| Tasks.UpdateThenFind | src/lib/services/tasks.ts:11-19 | After an upsert, looking up the id gives the new task. |
| Tasks.UpdateOtherIds | src/lib/services/tasks.ts:11-19 | An upsert leaves the lookup of every other id unchanged. |
| Tasks.UpdateIdempotent | src/lib/services/tasks.ts:11-19 | Upserting the same task twice is upserting it once. |
| Tasks.FirstIndex | src/lib/services/tasks.ts:12 | The first position holding an id is what the lookup returns. |
| Tasks.MoveTask | src/lib/services/tasks.ts:21-29 | An unknown id leaves the list unchanged. Otherwise only the first task with the id changes, and only in its date. |
| Tasks.MoveTaskResult | src/lib/services/tasks.ts:21-29 | The moved task keeps every field except its date, carries the target date, and is listed for that date. |
| Tasks.MoveTaskIdempotent | src/lib/services/tasks.ts:21-29 | Moving a task to a day twice is moving it once. |
| Tasks.CreateTask | src/lib/services/tasks.ts:31-41 | The new task has the given id, the trimmed text and the given date, and is neither completed nor deleted. It is the one found under its id, and it is appended when the id is new. |
| Spreads.GetTodaySpread | src/lib/services/spreads.ts:8-16 | Today's spread exists exactly when today and yesterday have identifiers. Its right page is today, its left page is the -1 relative date of the right, and the pages are 1 day apart. |
| Spreads.MoveSpread | src/lib/services/spreads.ts:21-48 | A moved spread exists exactly when both pages parse and both moved days have four-digit years, and each page moves by exactly the offset. |
| Spreads.MoveSpreadOfFormat | src/lib/services/spreads.ts:21-48 | Moving a spread of formatted days gives the spread of the moved days whenever those have four-digit years. |
| Spreads.GetNextSpread | src/lib/services/spreads.ts:21-32 | The next spread exists exactly when both pages parse and stay within four-digit years two days later, and both pages move 2 days later. |
| Spreads.GetPreviousSpread | src/lib/services/spreads.ts:37-48 | The previous spread exists exactly when both pages parse and stay within four-digit years two days earlier, and both pages move 2 days earlier. |
| Spreads.MoveSpreadInverse | src/lib/services/spreads.ts:21-48 | Moving back by the same offset restores the spread. |
| Spreads.MoveSpreadKeepsGap | src/lib/services/spreads.ts:21-48 | A move keeps the day distance between the pages. |
| Spreads.PreviousUndoesNext | src/lib/services/spreads.ts:21-48 | Paging back undoes paging forward. |
| Spreads.NextUndoesPrevious | src/lib/services/spreads.ts:21-48 | Paging forward undoes paging back. |
| Spreads.NavigateKeepsGap | src/lib/services/spreads.ts:21-48 | Any sequence of page turns keeps the distance between the pages. |
| Spreads.ReachableSpreadsAreAdjacentDays | src/lib/services/spreads.ts:8-48 | Every spread reached from today's spread shows two consecutive days. |
| Spreads.GetTasksForSpread | src/lib/services/spreads.ts:53-62 | Each page holds, in list order, exactly the live tasks of its day, each as often as in the list. When the days differ, no task is on both pages. |
| Spreads.PagesAreLiveTasksForDate | src/lib/services/spreads.ts:54-55 | Each page is the task service's list for its day with deleted tasks removed. |
| Spreads.TodaysTaskOnRightPage | src/lib/services/__tests__/spreads.test.ts:6-26 | A live task dated today is alone on the right page of today's spread, and the left page is empty. |
| Spreads.FixedSpreadPlacement | src/lib/services/__tests__/spreads.test.ts:28-51 | A task dated 2025-01-23 is on the right page of the 2025-01-22/2025-01-23 spread and not on the left. |
| Spreads.MovedToTodayShowsOnRightPage | src/lib/services/spreads.ts:53-62 | A live task moved to today is on the right page of today's spread and not on the left. |
| Spreads.MovedToTodayIsDescribedToday | src/lib/services/__tests__/tasks.test.ts:7-32 | A task moved to today's identifier carries it and is described as "today". |

## Left out

- The clock (`new Date()`, `Date.now()`) and the host timezone are not modelled. Today is a parameter: the calendar day the clock reads in local time. `createdAt` is a parameter too.
- The timezone-offset arithmetic in `getDateString` (dates.ts:7) and the `setHours` midnight anchoring (dates.ts:41, 56-57) are not modelled. Their purpose is to make a local calendar day print as itself, and the model works on calendar days directly.
- Daylight-saving transitions are not modelled, because shifts and differences are taken on whole days. `Math.round` in `getDaysDifference` exists to absorb them.
- Dates.GetRelativeDate: the `Date` overload of the reference argument is not modelled; only identifier strings are.
- Dates.GetRelativeDate: offsets are integers; a fractional `number` offset is not modelled.
- DayId.Parse: accepts only the exact `YYYY-MM-DD` form naming a real calendar day. The code appends `T00:00:00` and hands the string to `Date`. For the reduced forms `YYYY` and `YYYY-MM`, and for expanded years `+YYYYYY-MM-DD` or `-YYYYYY-MM-DD`, that gives a valid ECMAScript date-time string, read as local midnight. The code accepts these forms, so `getRelativeDate("2025-01", 1)` is "2025-01-02", but the model rejects them. Only out-of-range days such as 2025-02-30 and strings outside the ECMAScript format depend on the engine.
- Dates.GetDateString: years outside 0000-9999 give `None`. The code would emit an expanded six-digit year with a sign.
- The ECMAScript time-value range limit (about 275,000 years) is not modelled; any integer year is a calendar day.
- Console logging in every service method is not modelled.
- `validateSpread` (spreads.ts:67-77) only logs four values: whether the left identifier sorts before the right, the days between the pages, and each page's distance from today. The facts behind them are proved instead. String order of identifiers is chronological order (DayId.FormatOrder), the page distance is kept by paging (Spreads.NavigateKeepsGap), and each distance is a day difference (Dates.GetDaysDifference).
- `crypto.randomUUID()` is not modelled. The id is a parameter of Tasks.CreateTask.
- `saveTasks` persistence and the rest of `storage.ts` are not modelled. The task operations return the new list instead of mutating the service's array and saving it.
- The UI page-offset convention places today on the left page. The tests in dates.test.ts assert it at lines 52-54 and 87-88. That convention belongs to a UI component that is not part of this model. Only the date arithmetic it relies on is modelled (Dates.TomorrowPageOffsets, dates.test.ts:49-50).
- Spreads.GetTodaySpread: the code reads the clock twice, once in `getToday` and once in `getYesterday`. If local midnight passes between the two readings, both pages show the same day. The model reads the clock once, through its `today` parameter. So its gap of 1, and Spreads.ReachableSpreadsAreAdjacentDays, hold only for a single reading.
