# Calendar grid and form schemas of a scheduling front-end

This project models three pieces of a scheduling web application's front-end
and proves properties of them in Dafny.

- **The month calendar** (`Calendar`, on top of `Dates`). The component keeps
  `currentDate`, the first day of the displayed month, and steps it back or
  forward by one month. From it, the grid is built:
  - every day of the month, enabled;
  - in front, `get('day')` days of the previous month, disabled;
  - at the back, `7 - (lastWeekDay + 1)` days of the next month, disabled.

  The component then cuts this flat list into weeks of seven, numbered from 1.
  `Dates` is the proleptic Gregorian arithmetic that dayjs provides here:
  - days per month;
  - the weekday, with 0 for Sunday;
  - stepping by days;
  - stepping by months, where the day is clamped to the target month's length.
- **The availability schema** (`TimeIntervals`). The form sends seven weekday
  rows. The schema requires exactly seven and keeps the enabled ones. It
  rejects the form when none is enabled. It converts the start and end times
  to minutes and requires the end to be at least one hour after the start.
  The form's default value is modelled as well.
- **The username schema** (`ClaimUsername`). A username has at least three
  characters. Each character is a letter of either case, a hyphen or a
  backslash, because the regular expression `^([a-z\\-]+)$` carries the `i`
  flag. An accepted username is lowercased.

The form library reports the first issue of each field. Each schema therefore
returns `Ok(value)` or `Err(first error)`, using the `Result` type of module
`Results`. The messages are the source's own.

Modules and files:
- `results.dfy`: the `Result` type.
- `dates.dfy`: `Dates`.
- `calendar.dfy`: `Calendar`, including the `CalendarView` class for the
  component's state.
- `time_intervals.dfy`: `TimeIntervals`.
- `claim_username.dfy`: `ClaimUsername`.

The `Chunk` method models the `reduce` loop. It pushes a week at every index
that is a multiple of 7, and it is proved equal to the function
`ChunkWeeks`. Every property of the grid is stated about `CalendarDays` and
`CalendarWeeks`. `CalendarView.Weeks` runs the same steps on the component's
state and is proved to return that grid.

The component builds as many weeks as the month needs (4 to 6), disables only
the padding cells, takes no blocked dates and never compares against today.
`currentDate` is always day 1, so navigation always lands on day 1
(`AddMonths` would clamp any other day).

## Model

| member | source | states |
|---|---|---|
| Dates.DaysInMonth | src/components/Calendar/index.tsx:46 | a month has 28 to 31 days, and 29 exactly for February of a leap year |
| Dates.Weekday | src/components/Calendar/index.tsx:51 | the weekday is in 0..6 (0 is Sunday) |
| Dates.NextDay | src/components/Calendar/index.tsx:69 | the next day is a valid date, in the same year or on 1 January of the next |
| Dates.PreviousDay | src/components/Calendar/index.tsx:55 | the previous day is a valid date, in the same year or on 31 December of the year before |
| Dates.AddDays | src/components/Calendar/index.tsx:55 | adding any number of days gives a valid date |
| Dates.AddMonths | src/components/Calendar/index.tsx:31 | adding months gives a valid date whose day is never later than the original's |
| Dates.DayNumberInMonth | src/components/Calendar/index.tsx:48 | day `k` of a month lies `k - 1` days after its first day |
| Dates.NextDayNumber | src/components/Calendar/index.tsx:69 | the next day is exactly one day later on the day count |
| Dates.PreviousDayNumber | src/components/Calendar/index.tsx:55 | the previous day is exactly one day earlier on the day count |
| Dates.NextPreviousDay | src/components/Calendar/index.tsx:55 | the next day and the previous day are inverse to each other |
| Dates.AddDaysNumber | src/components/Calendar/index.tsx:55 | adding `n` days moves the day count by exactly `n`, forward or back |
| Dates.AddDaysForward | src/components/Calendar/index.tsx:69 | adding `n + 1` days is the day after adding `n` |
| Dates.AddDaysBackward | src/components/Calendar/index.tsx:55 | subtracting `n + 1` days is the day before subtracting `n` |
| Dates.NextOfBackward | src/components/Calendar/index.tsx:55 | the day after `current - (n + 1)` is `current - n` |
| Dates.WeekdayStep | src/components/Calendar/index.tsx:51 | the weekday of the next day is one more, modulo 7 |
| Dates.WeekdayAnchors | src/components/Calendar/index.tsx:51 | 2024-01-01 is a Monday, 2024-02-01 a Thursday and 2000-01-01 a Saturday |
| Dates.AddOneMonthFromFirst | src/components/Calendar/index.tsx:35 | from a first of the month, adding one month gives the first of the next month, wrapping December to January of the next year |
| Dates.SubtractOneMonthFromFirst | src/components/Calendar/index.tsx:31 | from a first of the month, subtracting one month gives the first of the previous month, wrapping January to December of the year before |
| Dates.MonthRoundTrip | src/components/Calendar/index.tsx:30-37 | from a first of the month, next then previous, and previous then next, return to the same date |
| Dates.AddMonthClamps | src/components/Calendar/index.tsx:35 | adding a month within the year keeps the year, moves the month by one and clamps the day to the new month's length |
| Calendar.Reverse | src/components/Calendar/index.tsx:57 | reversal keeps the length |
| Calendar.ReverseAt | src/components/Calendar/index.tsx:57 | element `k` of the reversal is element `len - 1 - k` of the input |
| Calendar.LastDayOfMonth | src/components/Calendar/index.tsx:59-62 | the last day is a valid date in the same month and year |
| Calendar.Mark | src/components/Calendar/index.tsx:71-81 | tagging keeps the dates, in order, and sets every flag to the given value |
| Calendar.Chunk | src/components/Calendar/index.tsx:83-92 | the `reduce` loop yields exactly one week per multiple of 7, numbered `i / 7 + 1`, holding the slice `i .. i + 7` |
| Calendar.FlattenSuffix | src/components/Calendar/index.tsx:83-92 | the weeks from week `j` on concatenate to the cells from `7 * j` on |
| Calendar.FlattenChunkWeeks | src/components/Calendar/index.tsx:83-92 | concatenating the weeks gives back the cells: nothing lost, repeated or reordered |
| Calendar.ChunkWeeksShape | src/components/Calendar/index.tsx:85-87 | when the count of cells is a multiple of 7, there are `count / 7` weeks, numbered 1.., each holding its seven cells |
| Calendar.PreviousMonthFillDates | src/components/Calendar/index.tsx:51-57 | the front padding has one day per weekday before day 1 and is empty on a Sunday; its days run up to the day before day 1, in ascending order |
| Calendar.LastWeekday | src/components/Calendar/index.tsx:59-64 | the last day's weekday is the first day's weekday plus the month length minus one, modulo 7 |
| Calendar.NextMonthFillDates | src/components/Calendar/index.tsx:64-70 | the back padding has `6 - lastWeekDay` days and is empty when the month ends on a Saturday; they are the days right after the last day |
| Calendar.CalendarDaysLength | src/components/Calendar/index.tsx:71-81 | the cells are the front padding, the month and the back padding, in that count |
| Calendar.FrontCells | src/components/Calendar/index.tsx:71-74 | the first cells are the front padding, disabled |
| Calendar.MonthCells | src/components/Calendar/index.tsx:75-77 | the middle cells are days 1..n of the month, enabled |
| Calendar.BackCells | src/components/Calendar/index.tsx:78-80 | the last cells are the days after the month's end, disabled |
| Calendar.CalendarDaysLayout | src/components/Calendar/index.tsx:44-81 | the layout of all three runs and their flags |
| Calendar.CellDayNumbers | src/components/Calendar/index.tsx:44-81 | cell `i` lies `i` days after the first cell, which is `get('day')` days before day 1 |
| Calendar.CellsConsecutive | src/components/Calendar/index.tsx:44-81 | each cell's date is the day after the previous cell's date, with no gap at either seam |
| Calendar.CellsDistinct | src/components/Calendar/index.tsx:44-81 | no date occurs twice |
| Calendar.DisabledIffOutsideMonth | src/components/Calendar/index.tsx:71-81 | a cell is disabled if and only if its date lies outside the displayed month |
| Calendar.CellWeekdays | src/components/Calendar/index.tsx:51-70 | cell `i` falls on weekday `i % 7` |
| Calendar.WholeWeeks | src/components/Calendar/index.tsx:53-70 | padding 28..31 days out to whole weeks gives a multiple of 7 between 28 and 42 |
| Calendar.CellCount | src/components/Calendar/index.tsx:44-81 | there are 28 to 42 cells, a multiple of 7, starting on a Sunday and ending on a Saturday |
| Calendar.CalendarWeeksShape | src/components/Calendar/index.tsx:44-94 | the grid has 4 to 6 weeks, numbered 1.., of seven days each, and they concatenate back to the cells |
| Calendar.AlignedColumns | src/components/Calendar/index.tsx:83-92 | cutting weekday-aligned cells into weeks puts weekday `c` in column `c` |
| Calendar.CalendarWeekColumns | src/components/Calendar/index.tsx:44-94 | in every week, column `c` is weekday `c`, matching the Sunday-first header |
| Calendar.February2024 | src/components/Calendar/index.tsx:44-94 | February 2024 has 4 leading days, 2 trailing days and 5 weeks |
| Calendar.CalendarView.constructor | src/components/Calendar/index.tsx:26-28 | the initial state is the first day of today's month |
| Calendar.CalendarView.PreviousMonth | src/components/Calendar/index.tsx:30-33 | the state moves to the first of the previous month, wrapping January to December of the year before |
| Calendar.CalendarView.NextMonth | src/components/Calendar/index.tsx:34-37 | the state moves to the first of the next month, wrapping December to January of the next year |
| Calendar.CalendarView.Weeks | src/components/Calendar/index.tsx:44-94 | the memoised grid for the state: 4 to 6 full weeks, numbered 1.., that concatenate to the cells |
| TimeIntervals.KeepEnabled | src/pages/register/time-intervals/index.page.tsx:39 | the filter keeps at most as many rows as it is given, all of them enabled |
| TimeIntervals.CountEnabled | src/pages/register/time-intervals/index.page.tsx:39 | the number of enabled rows is at most the number of rows |
| TimeIntervals.KeepEnabledAppend | src/pages/register/time-intervals/index.page.tsx:39 | filtering a concatenation is the concatenation of the filtered parts, so order is kept |
| TimeIntervals.KeepEnabledAll | src/pages/register/time-intervals/index.page.tsx:39 | when every row is enabled, all are kept |
| TimeIntervals.KeepEnabledLength | src/pages/register/time-intervals/index.page.tsx:39 | as many rows are kept as are enabled |
| TimeIntervals.KeepEnabledEmpty | src/pages/register/time-intervals/index.page.tsx:39-42 | nothing is kept if and only if no row is enabled |
| TimeIntervals.KeepEnabledAt | src/pages/register/time-intervals/index.page.tsx:39 | an enabled row is kept, at the position counting the enabled rows before it |
| TimeIntervals.KeptComesFromInput | src/pages/register/time-intervals/index.page.tsx:39 | every kept row is an enabled input row |
| TimeIntervals.KeepEnabledIgnoresDisabled | src/pages/register/time-intervals/index.page.tsx:39 | the contents of disabled rows do not affect what is kept |
| TimeIntervals.ValidateIntervalsSpec | src/pages/register/time-intervals/index.page.tsx:28-64 | a wrong length is rejected first, then no enabled row, then an enabled row with under an hour between start and end; the form is accepted if and only if it has seven rows, some enabled, each enabled one with a gap of at least an hour |
| TimeIntervals.ValidateIntervalsOutput | src/pages/register/time-intervals/index.page.tsx:43-58 | an accepted value has one converted interval per enabled row, in row order, each with at least an hour between start and end |
| TimeIntervals.DisabledRowsIgnored | src/pages/register/time-intervals/index.page.tsx:39-64 | the outcome does not depend on the week day or times of disabled rows |
| TimeIntervals.HourGapBoundary | src/pages/register/time-intervals/index.page.tsx:52-58 | an enabled row with a 59-minute gap is rejected with the one-hour error whatever the other rows hold; a gap of exactly 60 minutes is accepted when every other enabled row keeps the gap |
| TimeIntervals.DefaultIntervalsShape | src/pages/register/time-intervals/index.page.tsx:79-87 | the default value has seven rows, row `i` for weekday `i`, enabled exactly Monday to Friday, from 08:00 to 18:00 |
| TimeIntervals.DefaultIntervalsKept | src/pages/register/time-intervals/index.page.tsx:79-87 | the filter keeps the default value's Monday to Friday rows |
| TimeIntervals.AcceptedWhenGapsHold | src/pages/register/time-intervals/index.page.tsx:38-64 | seven rows with some kept, whose converted intervals all keep the gap, are accepted with exactly those intervals |
| TimeIntervals.DefaultKeptConverted | src/pages/register/time-intervals/index.page.tsx:43-51 | the default value's kept rows convert to Monday to Friday, 480 to 1080 minutes |
| TimeIntervals.DefaultIntervalsAccepted | src/pages/register/time-intervals/index.page.tsx:28-87 | the default value is accepted and yields Monday to Friday, 480 to 1080 minutes |
| TimeIntervals.AllDisabledRejected | src/pages/register/time-intervals/index.page.tsx:40-42 | seven disabled rows are rejected with "Você precisa selecionar pelo menos um dia da semana!" |
| ClaimUsername.LowerChar | src/pages/home/components/ClaimUsernameForm/index.tsx:16 | lowercasing a character leaves no upper-case ASCII letter |
| ClaimUsername.UpperChar | src/pages/home/components/ClaimUsernameForm/index.tsx:13 | upper-casing a character leaves no lower-case ASCII letter |
| ClaimUsername.MatchesClassIff | src/pages/home/components/ClaimUsernameForm/index.tsx:13 | with the `i` flag, the class admits exactly ASCII letters of both cases, the backslash and the hyphen |
| ClaimUsername.EmptyDoesNotMatch | src/pages/home/components/ClaimUsernameForm/index.tsx:13 | the empty string does not match, because of `+` |
| ClaimUsername.ValidateUsernameSpec | src/pages/home/components/ClaimUsernameForm/index.tsx:9-17 | under 3 characters is rejected first, then any character that is not a letter, backslash or hyphen; otherwise the input is accepted, lowercased, with the same length and no upper-case letter |
| ClaimUsername.CaseFoldChar | src/pages/home/components/ClaimUsernameForm/index.tsx:13-16 | case mapping does not change whether a character is allowed, and lowercasing after either mapping is the same |
| ClaimUsername.CaseInsensitive | src/pages/home/components/ClaimUsernameForm/index.tsx:13-16 | upper-casing or lowercasing the input first changes neither the verdict nor the result |
| ClaimUsername.NormalisationIdempotent | src/pages/home/components/ClaimUsernameForm/index.tsx:16 | an accepted username, validated again, is accepted unchanged |

## Left out

- The rendering is not modelled: the JSX, styled components, the week-day header from `getWeekDays`, and the month and year titles from `format`.
- Time of day, time zones and daylight saving time are not modelled. Dates are plain year, month and day values, with no instant behind them.
- The locale is not modelled. It does not affect the grid: dayjs `get('day')` numbers weekdays from Sunday whatever the locale, so the grid always starts on Sunday, in the model as in the component.
- Blocked weekdays and dates, and past-day disabling, are not modelled: the component has neither.
- convertTimeStringToMinutes is not part of this model. It is the parameter `toMinutes`.
- TimeIntervals.DefaultIntervalsAccepted: holds only when `toMinutes` maps "08:00" to 480 and "18:00" to 1080. That is its precondition, because the conversion is not modelled.
- JavaScript numbers are modelled as `int`, so a `NaN` from a malformed time is not modelled.
- Only the first issue per field is modelled, since that is the one the form shows. Later issues in zod's list are not.
- The `weekDay` and `enabled` type checks of the zod object are not modelled. The Dafny types already guarantee them.
- The zod default message for a wrong array length is an assumption. The source does not set one.
- Form submission and the network calls are not modelled.
- The update-profile, connect-calendar, booking-page and app shell files are not part of this model.
- ClaimUsername.CaseInsensitive: covers ASCII case changes only, which is the case folding the `i` flag performs on this pattern. Under JavaScript's full `toUpperCase`/`toLowerCase` the property is false: `"\u212Aab".toLowerCase()` is `"kab"`, which is accepted, while `"\u212Aab"` itself is rejected; `"ıab".toUpperCase()` is `"IAB"` and `"aß".toUpperCase()` is `"ASS"`.
- ClaimUsername.ValidateUsernameSpec: lengths are counted in characters, not UTF-16 code units. For the ASCII strings the pattern accepts the two agree, but the first error can differ on input outside the Basic Multilingual Plane: `"😀😀"` has JavaScript length 4, so `.min(3)` passes and the source reports the pattern message, while the model counts 2 characters and reports `TooShort`.
