# MNCalendar date-grid engine in Dafny

MNCalendar is a small Swift library that computes the days a calendar
view shows. An `MNCalendar` object holds a reference date (`currentDate`),
a display mode (a month grid or a single week row), an optional selected
date and a weakly held delegate. Its private `update()` builds the list of
days to display and stores it in `dates` (a lazy property). Then it tells
the delegate. Moving a month forward or back, or changing the mode, calls
`update()` again. `updateSelectedDate` records a selection and tells the
delegate.

This project models that engine and proves what it computes.

- `Gregorian.dfy` (module `Gregorian`) stands in for the Foundation
  `Calendar` the engine is given. A date is a whole day number counted from
  2001-01-01, Foundation's reference date. The module proves that the
  conversion from a day number to (year, month, day) fields inverts the
  conversion back. It also models Foundation's lenient "date from
  components", where day 0 is the last day of the previous month, and month
  addition with the day clamped to the month's length.
- `MNCalendar.dfy` (module `MNCalendar`) holds the date helpers of the
  class (`firstDateOfMonth`, `getNumberOfDaysInMonth`, `daysAcquisition`,
  `getMonth`, `getYear`, `isSameDay`, `getNumberOfDaysInWeek`) as functions
  with contracts. It defines the grid `update()` must produce in each mode
  as a specification function, with lemmas about its shape. It then has
  the `MNCalendar` class with its state and methods. Each method is proved
  against that specification. The delegate's calls are recorded in a log
  of notifications.
- `Examples.dfy` (module `Examples`) works the rules out on February 2024
  with weeks starting on Sunday. Day 1 is a Thursday, and the month has 29
  days.

Notes on behaviour, as the code has it:

- Foundation's ordinality of `.day` in `.weekOfMonth` is the 1-based
  position of the day in its week, counting the first weekday as 1. For
  2024-02-01, a Thursday, with Sunday as the first weekday, that is 5 (a
  count of the days before it in the week would give 4). The month grid
  therefore starts on Sunday 2024-01-28.
- Week mode offsets `currentDate` by day 1's position in its week, not by
  `currentDate`'s own position (`Sources/MNCalendar/MNCalendar.swift` lines
  64 and 81). The row shown is a calendar week only when `currentDate`
  falls on the same weekday as day 1. `WeekGridAlignedIff` proves exactly
  this. The model keeps the behaviour as written.
- `updateSelectedDate` sets the selection and also notifies the delegate,
  when there is one (line 171).
- Assigning `mode` runs `update()` even when the new value equals the old one.

## Model

| member | source | states |
|---|---|---|
| Gregorian.DaysInMonth | Sources/MNCalendar/MNCalendar.swift:115-125 | a month has 28 to 31 days; February has 29 exactly in leap years; April, June, September and November have 30, and the other months have 31 |
| Gregorian.CivilFromDays | Sources/MNCalendar/MNCalendar.swift:95-96 | the year, month and day fields the calendar reads from a date form a valid date, and that date converts back to the same day number |
| Gregorian.CivilRoundTrip | Sources/MNCalendar/MNCalendar.swift:95-98 | reading the fields of a valid date's day number gives the same fields back |
| Gregorian.DaysFromCivilInjective | Sources/MNCalendar/MNCalendar.swift:165-167 | two valid dates with the same day number are the same date |
| Gregorian.YearStartClosedForm | Sources/MNCalendar/MNCalendar.swift:135-137 | January 1 of year y falls 365k + k/4 - k/100 + k/400 days after 2001-01-01, where k = y - 2001 (Gregorian leap rule) |
| Gregorian.DateFromComponents | Sources/MNCalendar/MNCalendar.swift:116-120 | lenient date from year, month and day: for a valid date it is that date; within a month, day d is d - 1 days after day 1; month 13 carries into January of the next year |
| Gregorian.AddMonths | Sources/MNCalendar/MNCalendar.swift:140-142 | adding k months moves the (year, month) pair by exactly k months and keeps the day of month, clamped to the length of the month reached |
| MNCalendar.GetMonth | Sources/MNCalendar/MNCalendar.swift:131-133 | the month component is between 1 and 12 |
| MNCalendar.GetYear | Sources/MNCalendar/MNCalendar.swift:135-137 | the year component is the year whose days include the date: the date lies between that year's January 1 and the next year's |
| MNCalendar.FieldsOfCivil | Sources/MNCalendar/MNCalendar.swift:131-137 | the year, month and day components read from a valid date's day number are that date's own year, month and day |
| MNCalendar.FirstDateOfMonth | Sources/MNCalendar/MNCalendar.swift:94-102 | the result has the date's year and month and day 1, and lies (day - 1) days before the date |
| MNCalendar.FirstDateOfMonthIdempotent | Sources/MNCalendar/MNCalendar.swift:94-102 | the first day of the month of a first day of month is itself |
| MNCalendar.FirstDateOfMonthSameIff | Sources/MNCalendar/MNCalendar.swift:94-102 | two dates have the same first day of month exactly when they share year and month |
| MNCalendar.MonthOfCivil | Sources/MNCalendar/MNCalendar.swift:94-125 | for a valid date, the first day of its month is day 1 of its (year, month), and the month's length is the calendar's length of that month |
| MNCalendar.LastDayOfMonth | Sources/MNCalendar/MNCalendar.swift:116-120 | day 0 of month m + 1 is the last day of month m, across the December to January carry too |
| MNCalendar.GetNumberOfDaysInMonth | Sources/MNCalendar/MNCalendar.swift:115-125 | the day component of "day 0 of next month" equals the length of the date's month: between 28 and 31, and 29 for February exactly in leap years |
| MNCalendar.InSameMonthIff | Sources/MNCalendar/MNCalendar.swift:115-125 | a day lies in the date's month exactly when it is between the month's first day and first day + month length - 1 |
| MNCalendar.GetNumberOfDaysInWeek | Sources/MNCalendar/MNCalendar.swift:127-129 | a week has 7 days whatever the date |
| MNCalendar.IsSameDay | Sources/MNCalendar/MNCalendar.swift:165-167 | two dates are on the same calendar day exactly when they are the same day |
| MNCalendar.Ordinality | Sources/MNCalendar/MNCalendar.swift:64 | the position of a day in its week is between 1 and 7, and counting back position - 1 days lands on the first weekday |
| MNCalendar.WeekStart | Sources/MNCalendar/MNCalendar.swift:106 | the week holding a day starts on the first weekday, at most 6 days before it |
| MNCalendar.DaysAcquisition | Sources/MNCalendar/MNCalendar.swift:105-111 | the result is a whole number of weeks, from 28 to 42 days, at least the month's length; the rows starting at the week of day 1 end in the week of the month's last day |
| MNCalendar.DaysAcquisitionClosedForm | Sources/MNCalendar/MNCalendar.swift:105-111 | the cell count equals 7 × ceil((blank cells before day 1 + days in month) / 7) |
| MNCalendar.MonthGrid | Sources/MNCalendar/MNCalendar.swift:67-76 | the days month mode shows: a whole number of weeks, with at least as many cells as the month has days |
| MNCalendar.WeekGrid | Sources/MNCalendar/MNCalendar.swift:78-86 | the days week mode shows: exactly seven cells |
| MNCalendar.Grid | Sources/MNCalendar/MNCalendar.swift:67-87 | the days `update()` shows in the current mode: a whole number of weeks in either mode |
| MNCalendar.GridAt | Sources/MNCalendar/MNCalendar.swift:67-87 | cell i of the grid is i - (ordinality of day 1 - 1) days after the anchor: the first day of the month in month mode, the current date in week mode |
| MNCalendar.MonthGridShape | Sources/MNCalendar/MNCalendar.swift:67-76 | the month grid is whole weeks of consecutive days, starting on the first weekday of day 1's week, with at least as many cells as the month has days |
| MNCalendar.MonthGridCoversMonth | Sources/MNCalendar/MNCalendar.swift:67-76 | every day of the current month appears in the month grid exactly once |
| MNCalendar.MonthGridPadding | Sources/MNCalendar/MNCalendar.swift:67-76 | cells outside the current month lie only in the first or the last row |
| MNCalendar.WeekGridShape | Sources/MNCalendar/MNCalendar.swift:78-86 | the week grid is 7 consecutive days starting (ordinality of day 1 - 1) days before the current date, and it contains the current date |
| MNCalendar.WeekGridAlignedIff | Sources/MNCalendar/MNCalendar.swift:78-86 | the week grid starts on the first weekday exactly when the current date falls on the same weekday as day 1 of its month |
| MNCalendar.GridWholeWeeks | Sources/MNCalendar/MNCalendar.swift:67-87 | in either mode the grid is a whole number of weeks of consecutive days |
| MNCalendar.AppendDays | Sources/MNCalendar/MNCalendar.swift:69-76 | the loop appends count days, element i being the anchor shifted by i - offset days |
| MNCalendar.NextMonthFields | Sources/MNCalendar/MNCalendar.swift:139-148 | one month forward gives the next month of the same year, or January of the next year from December |
| MNCalendar.PreviousMonthFields | Sources/MNCalendar/MNCalendar.swift:150-159 | one month back gives the previous month of the same year, or December of the previous year from January |
| MNCalendar.NextThenPreviousMonth | Sources/MNCalendar/MNCalendar.swift:139-159 | forward then back returns to the same month, on a day no later, and to the same date exactly when its day exists in the next month |
| MNCalendar.LastDisplayedOfDisplay | Sources/MNCalendar/MNCalendar.swift:88-89 | after a display notification, the last grid told to the delegate is that grid |
| MNCalendar.LastDisplayedSkipsSelection | Sources/MNCalendar/MNCalendar.swift:171 | a selection notification does not change the last grid told to the delegate |
| MNCalendar.MNCalendar.constructor | Sources/MNCalendar/MNCalendar.swift:51-55 | a new calendar is in month mode with no selection, unassigned dates and no notifications |
| MNCalendar.MNCalendar.Update | Sources/MNCalendar/MNCalendar.swift:59-91 | without a delegate it returns an empty list and changes nothing; otherwise it returns the grid for the current date and mode, stores it in dates and notifies the delegate with it once; the object invariant holds |
| MNCalendar.MNCalendar.GetDates | Sources/MNCalendar/MNCalendar.swift:39 | the first read computes dates with update() (the grid and one notification, or an empty list without a delegate); later reads return the stored value and change nothing |
| MNCalendar.MNCalendar.SetMode | Sources/MNCalendar/MNCalendar.swift:43-47 | the mode is set, and dates becomes the grid of the new mode with a notification when a delegate is present |
| MNCalendar.MNCalendar.SetDelegate | Sources/MNCalendar/MNCalendar.swift:48 | setting or clearing the delegate changes nothing else |
| MNCalendar.MNCalendar.MoveToNextMonth | Sources/MNCalendar/MNCalendar.swift:139-148 | the current date moves one calendar month forward (day clamped), then dates is recomputed and announced as in update() |
| MNCalendar.MNCalendar.MoveToPreviousMonth | Sources/MNCalendar/MNCalendar.swift:150-159 | the current date moves one calendar month back (day clamped), then dates is recomputed and announced as in update() |
| MNCalendar.MNCalendar.GetNumberOfItemsForCurrentMode | Sources/MNCalendar/MNCalendar.swift:161-163 | the count is the length of dates and a multiple of 7; on the first read, with a delegate, dates becomes the grid, the count is its length and one display notification is sent, and without a delegate the count is 0 and nothing is sent; later reads change nothing |
| MNCalendar.MNCalendar.UpdateSelectedDate | Sources/MNCalendar/MNCalendar.swift:169-172 | the selection becomes the given date and, with a delegate present, exactly one selection notification is sent; dates is untouched |
| Examples.February2024Days | Sources/MNCalendar/MNCalendar.swift:64 | 2024-02-01 is day 8431 and a Thursday, at position 5 of a Sunday-first week; 2024-01-28 and 2024-03-02 are days 8427 and 8461 |
| Examples.February2024Month | Sources/MNCalendar/MNCalendar.swift:94-125 | from any day of February 2024, the first day of the month is 2024-02-01 and the month has 29 days |
| Examples.February2024IsThursdayLeapFebruary | Sources/MNCalendar/MNCalendar.swift:64 | every day of February 2024 has day 1 at position 5 of a Sunday-first week and a 29-day month |
| Examples.ThursdayLeapFebruaryGrid | Sources/MNCalendar/MNCalendar.swift:67-76 | such a month's grid has 35 cells, from 4 days before day 1 to 30 days after it, with day 1 in the fifth cell |
| Examples.ThursdayLeapFebruaryWeek | Sources/MNCalendar/MNCalendar.swift:78-86 | in such a month the week grid starts 4 days before the current date, on the first weekday only when the current day of month is 1, 8, 15, 22 or 29 |
| Examples.January31PlusOneMonth | Sources/MNCalendar/MNCalendar.swift:139-146 | one month after January 31 is the last day of February of the same year |

## Left out

- Time of day, time zones and daylight saving: a date is a whole day in
  one zone. The calendar's zone and the `timeZone` used at line 116 are
  taken to be the same zone. Adding days with `date(byAdding:)` is plain
  day arithmetic.
- Calendars other than the Gregorian one, and locales. The first weekday
  of the injected `Calendar` is a constructor parameter. Its minimum days
  in the first week does not change the number of week rows a month
  touches, so it does not appear.
- The `fatalError()` and `assert(false)` branches (lines 65, 73, 83, 99,
  107, 121, 143 and 154): Foundation returns a value in all these cases for
  the Gregorian calendar, so the model has no failure path there.
- The weak delegate reference and its release by reference counting: the
  delegate is a flag, set by `SetDelegate`. Its callbacks are recorded as
  notifications. Whatever the delegate does in response is not modelled.
- The protocol declarations `MNCalendarDelegate` and `MNCalendarType`
  (lines 3-21): they only list the members modelled here.
- `MNCalendarError.noDelegate` (lines 23-25): it is declared but never
  thrown.
- Direct assignment of the public `currentDate`, `selectedDate` and `dates`
  properties from outside the class: these are plain field writes with no
  observer, and no method models them.
- Foundation's limits on representable dates (a `Date` is a floating-point
  count of seconds): day numbers are unbounded integers.
- The Julian part of Foundation's Gregorian calendar: that calendar uses
  Julian rules before 1582-10-15, where every fourth year is a leap year
  and the days 1582-10-05 to 1582-10-14 do not exist. The model is the
  proleptic Gregorian calendar for every day. Before 1582-10-15 its leap
  years and month lengths can therefore differ from Foundation's (February
  1500 has 28 days here and 29 in Foundation). So can the first day of the
  month, the number of week rows and the grid of October 1582.
- Eras: `Day` runs over all integers, so a date before year 1 has year 0
  or a negative year here. Foundation would switch to the BC era instead.
