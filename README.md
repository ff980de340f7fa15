# Campus calendar event projections, modelled in Dafny

The campus front-end's calendar widget (`EventsCalendar`) holds a fixed list of
sample events. Each event has an id, a title, a `Date`, one of five types, a
location and a time-of-day label. From that list the widget derives three views:

- **events for the selected date**: the events whose day of month, 0-based
  month and full year equal those of the selected date. The time of day is
  ignored, and there are none when no date is selected;
- **upcoming events**: the events whose timestamp lies in the closed window
  from now to the same time seven calendar days later, sorted by timestamp;
- **dates with events**: the event dates in list order, which the calendar
  marks.

A badge lookup maps each event type to a style class.

The data model follows the component's declarations:

- `EventsCalendar.EventType` is the five-valued `type` union (line 11).
- `EventsCalendar.Event` is the `Event` interface (lines 7-14); its `type` field is called `kind`, because `type` is a Dafny keyword.
- `EventsCalendar.DummyEvents` is `dummyEvents` (lines 17-58).
- `EventsCalendar.EventTypeColors` is the `eventTypeColors` table (lines 60-66).

The project has three modules:

- `Seqs` (`seqs.dfy`) models the three array operations the widget chains:
  `filter`, `map`, and `sort` with the comparator `a - b`. Sort is modelled as
  a stable insertion sort on an integer key, because `Array.prototype.sort`
  has been stable since ECMAScript 2019.
- `Dates` (`dates.dfy`) models a local `Date` through the accessors the widget
  calls. A date is a subset type of the calendar fields: year, month 0-11,
  day of month, and milliseconds into the day.
  - `Time` is `getTime()`: days since 1 January 1970 times 86,400,000, plus
    the milliseconds into the day.
  - `SetDate` is `setDate` with its roll-over into later months and years.
  - `NextWeek` is the copy of `today` moved forward seven days.
- `EventsCalendar` (`events_calendar.dfy`) holds the event record and the
  sample data, the three projections, the badge lookup, boundary lemmas, and
  concrete checks on the sample data.

The widget has two inputs, and both are parameters of the model:

- the clock (`new Date()` on line 82 of the component);
- the selection (React state).

Nothing else in the component is an input. Every projection is a function, so
computing it twice on the same inputs gives the same list.

The two tests compare dates differently. The day-match compares calendar
fields. The window compares full timestamps, and `today` carries the current
time of day. `UpcomingByDay` states the window in calendar days. From it:

- an event at midnight today drops out as soon as the clock is past midnight
  (`MidnightTodayExcluded`);
- an event at midnight seven days ahead is always included
  (`MidnightLastDayIncluded`).

## Model

| member | source | states |
|---|---|---|
| Seqs.Filter | src/components/EventsCalendar.tsx:73-78 | `filter` never lengthens the list, and every element it returns satisfies the predicate |
| Seqs.FilterMembers | src/components/EventsCalendar.tsx:73-78 | an element is in the filtered list iff it is in the source list and satisfies the predicate |
| Seqs.FilterIsSubsequence | src/components/EventsCalendar.tsx:73-78 | the filtered list is an order-preserving subsequence of the source list |
| Seqs.FilterCount | src/components/EventsCalendar.tsx:73-87 | each selected element occurs exactly as often as in the source; an unselected one never occurs |
| Seqs.FilterExtensional | src/components/EventsCalendar.tsx:73-78 | two predicates that agree on every element of the list filter it to the same list |
| Seqs.Map | src/components/EventsCalendar.tsx:91 | `map` gives one entry per element, in order, each the image of that element |
| Seqs.InsertBy | src/components/EventsCalendar.tsx:88 | insertion adds exactly one occurrence of the new element (multiset) |
| Seqs.InsertBySorted | src/components/EventsCalendar.tsx:88 | inserting into a list sorted by key keeps it sorted |
| Seqs.SortBy | src/components/EventsCalendar.tsx:88 | the sorted list is non-decreasing by key and a permutation (same multiset) of its input |
| Seqs.SortByMembers | src/components/EventsCalendar.tsx:88 | sorting keeps exactly the elements it was given |
| Seqs.InsertByStable | src/components/EventsCalendar.tsx:88 | insertion keeps the relative order of the elements that share one key |
| Seqs.SortByStable | src/components/EventsCalendar.tsx:88 | the sort is stable: the elements with one key come out in their input order |
| Dates.DaysInMonth | src/components/EventsCalendar.tsx:84 | months have 28 to 31 days, and only February of a Gregorian leap year has 29 |
| Dates.DaysBeforeMonth | src/components/EventsCalendar.tsx:88 | the days before month m of a year lie between 28·m and 31·m |
| Dates.DaysBeforeMonthYear | src/components/EventsCalendar.tsx:88 | the twelve months add up to 365 or 366 days |
| Dates.DaysBeforeYearMonotone | src/components/EventsCalendar.tsx:88 | a later year starts at least a whole year after an earlier one |
| Dates.DaysBeforeMonthMonotone | src/components/EventsCalendar.tsx:88 | a later month starts at least a whole month after an earlier one |
| Dates.DayOfYearBounds | src/components/EventsCalendar.tsx:88 | the day of the year of a valid date lies within its year |
| Dates.DayNumberOrder | src/components/EventsCalendar.tsx:75-88 | a calendar day earlier in (year, month, day) order has a smaller day number; equal fields give equal day numbers |
| Dates.SameDayIff | src/components/EventsCalendar.tsx:75-77 | equal `getDate`, `getMonth` and `getFullYear` iff the two dates fall on the same absolute day |
| Dates.TimeOrder | src/components/EventsCalendar.tsx:87-88 | `getTime()` order is lexicographic order of (year, month, day, time of day), and `getTime()` is injective |
| Dates.SameDayByTime | src/components/EventsCalendar.tsx:75-77 | a date is on the day of d iff its timestamp lies in [midnight of d, next midnight) |
| Dates.SetDate | src/components/EventsCalendar.tsx:84 | `setDate(v)` gives the day v−1 days after the first of the month, rolling over month and year ends, at the same time of day |
| Dates.NextWeek | src/components/EventsCalendar.tsx:83-84 | `nextWeek` is 7 day numbers later at the same time of day, hence exactly 7 × 86,400,000 ms after `today` |
| Dates.Time | src/components/EventsCalendar.tsx:87-88 | `getTime()` lies within the day the date falls on: from that day's midnight, less than 86,400,000 ms later (its order is stated by `Dates.TimeOrder`) |
| Dates.SameDay | src/components/EventsCalendar.tsx:75-77 | the day-match: equal `getDate()`, `getMonth()` and `getFullYear()` (a definition; `Dates.SameDayIff` states what it means) |
| EventsCalendar.Midnight | src/components/EventsCalendar.tsx:21 | `new Date(y, m, d)` is day d counted from the first of month m of the full year (years 0-99 mean 1900-1999), rolling over past the month's end; when d is within the month it has exactly those fields; its timestamp is a whole number of days after the epoch |
| EventsCalendar.MidnightStartsDay | src/components/EventsCalendar.tsx:21 | `new Date(y, m, d)` is the first instant of its day: a date falls on that day iff its timestamp lies in the half-open interval [midnight, midnight + 86,400,000) |
| EventsCalendar.DummyEventsContents | src/components/EventsCalendar.tsx:17-58 | `dummyEvents` has five events, each at local midnight, listed in strictly increasing time order |
| EventsCalendar.OnDay | src/components/EventsCalendar.tsx:74-78 | the filter callback of `eventsForSelectedDate`: the event's date matches the selected day (a definition; its meaning is stated by `EventsCalendar.EventsForSelectedDate`) |
| EventsCalendar.EventTime | src/components/EventsCalendar.tsx:88 | the sort key `event.date.getTime()` (a definition; `Dates.TimeOrder` gives its order) |
| EventsCalendar.InWindow | src/components/EventsCalendar.tsx:87 | the test `event.date >= today && event.date <= nextWeek` holds iff today ≤ the event's timestamp ≤ today + 7 × 86,400,000 ms |
| EventsCalendar.EventTypeColorsTotal | src/components/EventsCalendar.tsx:60-66 | every one of the five event types (line 11) has an entry in the colour table `EventsCalendar.EventTypeColors` |
| EventsCalendar.BadgeClass | src/components/EventsCalendar.tsx:144-147 | the badge lookup `eventTypeColors[event.type]` is defined for every event and yields one of the table's classes |
| EventsCalendar.EventsForSelectedDate | src/components/EventsCalendar.tsx:72-79 | empty with no selection; otherwise an event is listed iff it is in the list and its day, month and year equal the selection's |
| EventsCalendar.SelectedIsSubsequence | src/components/EventsCalendar.tsx:72-78 | the selected-date list is an order-preserving subsequence of the event list |
| EventsCalendar.SelectedCount | src/components/EventsCalendar.tsx:72-78 | nothing duplicated or dropped: each matching event occurs as often as in the list, others never |
| EventsCalendar.SelectionIgnoresTimeOfDay | src/components/EventsCalendar.tsx:75-77 | two selections on the same calendar day give the same list, whatever their time of day |
| EventsCalendar.SelectedByTime | src/components/EventsCalendar.tsx:72-78 | in timestamps the day-match keeps the events from the selected day's midnight up to, not including, the next midnight |
| EventsCalendar.WindowEvents | src/components/EventsCalendar.tsx:86-87 | an event passes the window filter iff today ≤ its timestamp ≤ today + 7 days, both ends inclusive |
| EventsCalendar.UpcomingEvents | src/components/EventsCalendar.tsx:82-88 | an event is upcoming iff it is in the list and today ≤ its timestamp ≤ today + 7 days; the list is sorted by timestamp and is a permutation of the window-filtered events |
| EventsCalendar.UpcomingCount | src/components/EventsCalendar.tsx:86-88 | sorting neither adds nor drops: each event in the window occurs as often as in the list, others never |
| EventsCalendar.UpcomingStable | src/components/EventsCalendar.tsx:88 | events with equal timestamps keep their list order after sorting |
| EventsCalendar.UpcomingByDay | src/components/EventsCalendar.tsx:82-87 | the window in calendar days: later today, any of the next six days, or the seventh day at or before the current time of day |
| EventsCalendar.UpcomingToday | src/components/EventsCalendar.tsx:82-87 | an event on today's calendar day is upcoming iff its time of day is not before the current one |
| EventsCalendar.MidnightTodayExcluded | src/components/EventsCalendar.tsx:82-87 | an event at midnight today is excluded whenever the current time is past midnight |
| EventsCalendar.UpcomingLastDay | src/components/EventsCalendar.tsx:83-87 | an event on nextWeek's calendar day is upcoming iff its time of day is not after the current one |
| EventsCalendar.MidnightLastDayIncluded | src/components/EventsCalendar.tsx:83-87 | an event at midnight seven calendar days ahead is always upcoming |
| EventsCalendar.DatesWithEvents | src/components/EventsCalendar.tsx:91 | one date per event, in list order, each that event's date |
| EventsCalendar.MarkedDayIff | src/components/EventsCalendar.tsx:91-110 | the calendar marks a day iff selecting that day lists at least one event |
| EventsCalendar.SelectOctober28 | src/components/EventsCalendar.tsx:17-78 | with the sample events, selecting 28 October 2025 (month index 9) at any time of day yields exactly event "1" |
| EventsCalendar.SelectOctober29 | src/components/EventsCalendar.tsx:17-78 | with the sample events, selecting 29 October 2025 yields no events |
| EventsCalendar.NextWeekOctober | src/components/EventsCalendar.tsx:83-84 | a week after 25 to 31 October 2025 is the matching day of November, at the same time of day |
| EventsCalendar.WindowFromOctober25 | src/components/EventsCalendar.tsx:17-87 | from 25 October 2025 the window keeps events "1" and "2" only |
| EventsCalendar.UpcomingFromOctober25 | src/components/EventsCalendar.tsx:17-88 | on 25 October 2025 at any time of day, the upcoming list is events "1" then "2"; the event of 10 November is excluded |
| EventsCalendar.WindowFromOctober28 | src/components/EventsCalendar.tsx:17-87 | from 28 October 2025 after midnight the window keeps events "2" and "3" only |
| EventsCalendar.UpcomingFromOctober28 | src/components/EventsCalendar.tsx:17-88 | on 28 October 2025 after midnight event "1" is no longer upcoming (list is "2" then "3"), yet selecting that day still lists it |

## Left out

- Time zones and daylight saving are not modelled. `Date` is local time, and every day is exactly 86,400,000 ms long. So `Time` counts from local midnight of 1 January 1970, not UTC. Across a daylight-saving change, the real `nextWeek` is seven days ± one hour after `today` in absolute time.
- EventsCalendar.Midnight: handles months 0 to 11 and days of 1 or more, including roll-over past the month's end and the 0-99 year mapping. Out-of-range months and days below 1 are not normalised. The component passes only valid dates of 2025.
- Dates.SetDate: only handles day values of 1 or more. Line 84 always passes `getDate() + 7`, which is at least 8. JavaScript's backward roll-over for 0 and negative values is not modelled.
- `Date`'s range limit (±8.64·10^15 ms) and the invalid date (`NaN`) are not modelled. Every modelled date is a valid calendar date.
- Seqs.SortBy: sorts by the integer key rather than calling the comparator `a.date.getTime() - b.date.getTime()` (line 88). The two agree on the sign of every comparison. Timestamps are integer-valued doubles, and an IEEE-754 subtraction of two finite doubles keeps the sign of the exact difference and gives 0 only when they are equal. The difference itself can exceed 2^53 and need not be exact.
- React state (`useState`, line 69) and rendering (lines 93-212) are not modelled.
- The third-party `Calendar` widget and its `modifiers` styling (lines 103-118) are not modelled. `MarkedDayIff` takes a day as marked when a listed date falls on it.
- `toLocaleDateString` formatting (lines 123 and 178-182) is not modelled.
- The badge CSS strings are kept as data only; nothing is proved about CSS.
- The authentication page, dashboard, landing page and backend type definitions are not part of this model. Their logic is calls to the hosted backend client plus static markup.
