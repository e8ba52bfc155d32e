# Event calendar: recurrence expansion, conflicts and the event table

A model, in Dafny, of the core of a small React event calendar. The calendar
stores *events*: each one an anchor date and time, descriptive fields and a
recurrence rule (`none`, `daily`, `weekly`, `monthly`, or `custom` with a
weekly or monthly frequency, an interval and optional weekdays). Three pieces
of logic sit underneath the views:

- **Recurrence expansion** (`generateRecurringEvents`): a date cursor walks
  forward from the anchor, one switch pass per step, and every date the rule
  produces inside `[startDate, endDate]` becomes an occurrence: a copy of the
  template with the date set, the id `<template id>-<epoch ms>`,
  `isRecurring = true` and `originalEventId` = the template's id. At most 100
  occurrences are emitted.
- **Queries**: `getEventsForMonth` expands every template over the month
  widened by three months on each side and buckets the occurrences by
  calendar day; `checkEventConflicts` expands the new event and the existing
  ones over the year from the new event's date and reports whether the
  one-hour slot of some instance of the new event overlaps the slot of some
  instance of an existing event.
- **The event table** in the `App` component: the list of events keyed by
  id; submit creates (append) or edits (replace by id), delete filters by
  id, and drag-and-drop re-dates an event keeping its time of day (a
  recurring instance gets a detached one-off copy instead). Every mutation is
  vetoed when the conflict check objects.

Files and modules:

- `calendar.dfy` (`Calendar`): instants as valid `(year, month, day,
  minute)` records on the proleptic Gregorian calendar; day numbers from
  1970-01-01, epoch milliseconds, weekday (Sunday = 0), and the date-fns
  operations the code uses (`addDays`, `addWeeks`, `addMonths` with clamping,
  `addYears`, `setDate` overflowing into the next month, `startOfMonth`,
  `endOfMonth`).
- `decimal.dfy` (`Decimal`): decimal rendering of the epoch milliseconds
  inside ids, with a parse-back round trip.
- `events.dfy` (`Events`): the event record and its recurrence fields.
- `recurrence.dfy` (`Recurrence`): the expander. `GenerateRecurringEvents`
  keeps the source's `while` loop, with one method per `case` of the switch
  (and one per branch of the `custom` case),
  and is proved equal to the function `Expand`. `Expand` in turn is proved to
  meet an independent characterization: `IsOccurrenceDate` says which dates a
  rule produces, and `OccurrencesOf` says the result is exactly the ascending
  list of their occurrences in range, cut off after the first 100.
- `queries.dfy` (`EventQueries`): `getEventsForMonth` and
  `checkEventConflicts` as functions, with their characterizations, and a
  month grid over the viewed month alone (see Findings).
- `app.dfy` (`App`): the list operations the handlers use (`filter`, `map`,
  `find`, the re-dating), the tables the submit and drop handlers commit
  (`Submitted`, `Dropped`) with lemmas on each outcome, and the class
  `CalendarApp` whose methods are the handlers and assign its `events`,
  `showEventForm` and `selectedEvent` fields.

Two details of the code shape the model. The `custom` monthly rule does not
clamp the anchor day: `setDate` overflows into the next month, the same-month
test at `src/utils/eventUtils.js:91-92` fails, and the month is skipped. The
three-clause slot test at `src/utils/eventUtils.js:156-160` is exactly
half-open overlap, so back-to-back events never conflict.

## Model

| member | source | states |
|---|---|---|
| Calendar.AddDays | src/utils/eventUtils.js:54 | `addDays(t, n)` lands exactly n days later, at the same time of day |
| Calendar.AddWeeks | src/utils/eventUtils.js:86 | `addWeeks(t, n)` lands exactly 7n days later, at the same time of day |
| Calendar.AddMonths | src/utils/eventUtils.js:73 | `addMonths(t, n)` moves n months on, keeping the day clamped to the new month's length and the time of day |
| Calendar.AddYears | src/utils/eventUtils.js:135 | `addYears(t, 1)` keeps month and time of day, clamping Feb 29 to Feb 28 in a common year |
| Calendar.SetDate | src/utils/eventUtils.js:90-91 | `setDate(t, d)` is day d counted from the first of t's month; it stays in t's month (with day d) exactly when d is at most the month's length, and otherwise overflows into the next month |
| Calendar.StartOfMonth | src/utils/eventUtils.js:114 | the first of the month at midnight |
| Calendar.EndOfMonth | src/utils/eventUtils.js:66-67 | the last day of the month (its length as `getDate()`), at the last minute of the day |
| Calendar.MonthOrder | src/utils/eventUtils.js:50 | a date in an earlier month is on an earlier day, so month steps move the cursor forward |
| Calendar.MillisByDay | src/utils/eventUtils.js:26 | epoch milliseconds order instants by day, then by time of day, and identify equal instants |
| Calendar.Millis | src/utils/eventUtils.js:26-30 | `getTime()` of an instant falls inside the milliseconds of its own day, counted from 1970-01-01 |
| Calendar.Weekday | src/utils/eventUtils.js:42-44 | `getDay()` is the day's position, Sunday = 0 to Saturday = 6, in its Sunday-to-Saturday week |
| Calendar.SameWeekday | src/utils/eventUtils.js:42 | two days have the same `getDay()` exactly when they are a whole number of weeks apart |
| Decimal.IntToStringRoundTrip | src/utils/eventUtils.js:30 | the decimal rendering of `getTime()` in an id can be read back |
| Decimal.IntToStringInjective | src/utils/eventUtils.js:30 | different instants render to different decimal strings |
| Recurrence.GenerateRecurringEvents | src/utils/eventUtils.js:15-111 | the loop returns `Expand`; a non-recurring template yields `[event]`; otherwise the result is exactly the ascending list of occurrences in range, cut off after 100 |
| Recurrence.AddEventIfInRange | src/utils/eventUtils.js:25-36 | pushes the occurrence (date set, id `<id>-<ms>`, `isRecurring`, `originalEventId`) exactly when the date is in range and the cap is not reached, and keeps the counter equal to the list's length |
| Recurrence.CustomFrequency | src/utils/eventUtils.js:78 | the frequency of the custom rule: the stored one, or none when the rule is missing (read from an empty object) |
| Recurrence.Interval | src/utils/eventUtils.js:78 | the interval read with its default: the stored one, or 1 when the rule or its interval is missing |
| Recurrence.ShouldIncludeWeekDay | src/utils/eventUtils.js:39-45 | with no weekdays listed, a day is included exactly when it is a whole number of weeks from the anchor; otherwise exactly when its weekday is listed |
| Recurrence.OccurrenceId | src/utils/eventUtils.js:30 | the id is the template's id, a dash, and a decimal string that reads back as the date's `getTime()` |
| Recurrence.Occurrence | src/utils/eventUtils.js:27-33 | the pushed copy: the date set, the id `<id>-<ms>`, `isRecurring` true, `originalEventId` the template's id, every other field the template's |
| Recurrence.Emit | src/utils/eventUtils.js:25-36 | the list only grows, by at most one entry; it grows exactly when a date is offered, in range, below the cap, and the new entry is that date's occurrence |
| Recurrence.DailyStep | src/utils/eventUtils.js:52-55 | the `daily` pass offers the cursor and moves to the next day at the same time of day |
| Recurrence.WeeklyStep | src/utils/eventUtils.js:57-62 | the `weekly` pass offers the cursor exactly when the weekday filter admits it and moves to the next day at the same time of day |
| Recurrence.MonthlyStepFrom | src/utils/eventUtils.js:64-75 | the `monthly` pass always offers a date in the cursor's month, on `min(anchor day, month length)` at the cursor's time, and moves to the first of the next month |
| Recurrence.CustomWeeklyStepFrom | src/utils/eventUtils.js:80-88 | the custom weekly pass offers the cursor exactly when the filter admits it, and moves one day on, or `7 * (interval - 1) + 1` days on from a Saturday |
| Recurrence.CustomMonthlyStepFrom | src/utils/eventUtils.js:89-95 | the custom monthly pass offers a date exactly when the cursor's month has the anchor's day, then that day at the cursor's time, and moves to the first of the month `interval` months on |
| Recurrence.StepFrom | src/utils/eventUtils.js:51-101 | the switch stops exactly on the `default` branch (no or an unrecognised rule); a custom rule of another frequency offers nothing and leaves the cursor where it is |
| Recurrence.Walk | src/utils/eventUtils.js:50-108 | the loop keeps what was already emitted as a prefix and never holds more than 100 entries |
| Recurrence.Expand | src/utils/eventUtils.js:15-111 | at most 100 entries; a non-recurring template gives `[event]`; a recurring template anchored after the end gives `[]` |
| Recurrence.DailyCase | src/utils/eventUtils.js:52-55 | one `daily` pass: offer the cursor, advance one day |
| Recurrence.WeeklyCase | src/utils/eventUtils.js:57-62 | one `weekly` pass: offer the cursor when the weekday filter admits it, advance one day |
| Recurrence.MonthlyCase | src/utils/eventUtils.js:64-75 | one `monthly` pass: offer the anchor day clamped to the month, move to the first of the next month |
| Recurrence.CustomCase | src/utils/eventUtils.js:77-97 | one `custom` pass: the weekly branch with its Saturday jump of `interval - 1` weeks, or the monthly branch with the unclamped anchor day and `interval` months per step |
| Recurrence.CustomWeeklyBranch | src/utils/eventUtils.js:80-88 | the weekly branch of `case 'custom'` computes the custom weekly pass |
| Recurrence.CustomMonthlyBranch | src/utils/eventUtils.js:89-96 | the monthly branch of `case 'custom'` computes the custom monthly pass |
| Recurrence.StepProgress | src/utils/eventUtils.js:50-97 | under the form's guarantees (interval at least 1, frequency weekly or monthly) every pass moves the cursor strictly forward and keeps its time of day, so the loop ends |
| Recurrence.DayByDayStep | src/utils/eventUtils.js:52-62 | a daily or weekly pass offers exactly the occurrence dates between the cursor and the next day |
| Recurrence.MonthlyStep | src/utils/eventUtils.js:64-75 | a monthly pass offers exactly the one occurrence date of the cursor's month and moves to a first of the month |
| Recurrence.CustomWeeklyStep | src/utils/eventUtils.js:80-88 | a custom weekly pass offers exactly the occurrence dates it passes over, skipped weeks included, and keeps the cursor in a week of the rule's phase |
| Recurrence.CustomMonthlyStep | src/utils/eventUtils.js:89-95 | a custom monthly pass offers exactly the occurrence dates it passes over, skipped months included, and keeps the month phase |
| Recurrence.MonthlyCandidate | src/utils/eventUtils.js:64-72 | a monthly pass always offers the cursor's month on `min(anchor day, month length)`, an occurrence date before the next cursor |
| Recurrence.CustomMonthlyCandidate | src/utils/eventUtils.js:89-93 | a custom monthly pass offers a date exactly when the cursor's month has the anchor's day, and then that day, an occurrence date before the next cursor |
| Recurrence.CustomWeeklyOnlyCandidate | src/utils/eventUtils.js:80-88 | the weeks a custom weekly pass jumps over hold no occurrence date, so the cursor is the only one it passes |
| Recurrence.StepWindow | src/utils/eventUtils.js:50-97 | every pass of the switch offers exactly the occurrence dates between the cursor and its next position |
| Recurrence.EmitKeepsRecord | src/utils/eventUtils.js:25-36 | after a pass, the list holds, in ascending order, the occurrence of every occurrence date in range before the new cursor |
| Recurrence.WalkCharacterization | src/utils/eventUtils.js:50-108 | the rest of the walk completes the ascending list of occurrences in range, stopping at the cap |
| Recurrence.ExpandCharacterization | src/utils/eventUtils.js:20-110 | the expansion of a recurring template has at most 100 entries, each the occurrence of an occurrence date in range, strictly ascending, and missing no occurrence date in range up to the last entry (or at all, below the cap) |
| Recurrence.OccurrenceIdsDistinct | src/utils/eventUtils.js:30 | no two occurrences of one call share an id |
| Recurrence.ExpandIdsDistinct | src/utils/eventUtils.js:30 | no id repeats within the result of one call |
| Recurrence.ExpandMembership | src/utils/eventUtils.js:25-36 | an occurrence is in the expansion only for an occurrence date in range, and is there for every such date up to the cap |
| Recurrence.BelowCapMembership | src/utils/eventUtils.js:103-107 | below the cap, membership is exactly "occurrence date in range" |
| Recurrence.DailyExpansion | src/utils/eventUtils.js:52-55 | `daily` yields the anchor's time on every day from the anchor's day on, within range |
| Recurrence.WeeklyExpansion | src/utils/eventUtils.js:39-62 | `weekly` yields the days from the anchor on whose weekday is listed, or is the anchor's when no weekdays are listed |
| Recurrence.MonthlyExpansion | src/utils/eventUtils.js:64-75 | `monthly` yields one date per month from the anchor's month on, on `min(anchor day, month length)` |
| Recurrence.CustomMonthlyExpansion | src/utils/eventUtils.js:89-95 | custom monthly yields every interval-th month from the anchor's, on the anchor's own day, skipping months too short for it |
| Recurrence.CustomWeeklyExpansion | src/utils/eventUtils.js:80-88 | custom weekly yields the filtered days of every interval-th Sunday-to-Saturday week, counting from the anchor's |
| Recurrence.CustomMonthlyDates | src/utils/eventUtils.js:89-95 | the custom monthly occurrence dates are exactly the anchor's day and time in every interval-th month from the anchor's |
| Recurrence.CustomWeeklyDates | src/utils/eventUtils.js:80-88 | the custom weekly occurrence dates are exactly the filtered days from the anchor on, at its time, in every interval-th week from the anchor's |
| Recurrence.ClampedDayOrder | src/utils/eventUtils.js:67-68 | on the clamped anchor day, being after the anchor is being in the anchor's month or later |
| Recurrence.NoRecurrenceExpansion | src/utils/eventUtils.js:16-18 | a missing or `none` rule returns the template itself, whatever the range |
| Recurrence.EmptyExpansion | src/utils/eventUtils.js:50-100 | an unrecognised rule, or an anchor after the end, yields `[]` |
| Recurrence.MonthlyClampExample | src/utils/eventUtils.js:64-72 | monthly from Jan 31 2024 gives Feb 29 2024 and no earlier February day |
| Recurrence.CustomMonthlySkipExample | src/utils/eventUtils.js:89-93 | custom monthly from Jan 31 2024 gives no February date at all |
| EventQueries.ExpandAll | src/utils/eventUtils.js:122-124 | the `flatMap` holds exactly the expansions' entries |
| EventQueries.ExpandAllAppend | src/utils/eventUtils.js:141-143 | expanding a concatenated list concatenates the expansions, in list order |
| EventQueries.FilterSameDay | src/utils/eventUtils.js:128 | keeps exactly the entries on the given calendar day |
| EventQueries.FilterSameDayAppend | src/utils/eventUtils.js:128 | the filter works part by part, so a day cell keeps the list order, duplicates included |
| EventQueries.DaysFrom | src/utils/eventUtils.js:116 | the days from a date to its month's end, one per day, in order |
| EventQueries.DaysOfMonth | src/utils/eventUtils.js:114-116 | one entry per day of the month, the i-th at day i+1, midnight |
| EventQueries.MonthGrid | src/utils/eventUtils.js:113-130 | one entry per day of the month in day order; each lists exactly the occurrences, expanded over the given window, that fall on that day |
| EventQueries.MonthGridAppend | src/utils/eventUtils.js:122-129 | in every day cell, the occurrences of earlier templates come first: the grid of a concatenated list is, cell by cell, the two grids concatenated |
| EventQueries.GetEventsForMonth | src/utils/eventUtils.js:113-130 | one entry per day of the month in day order; each lists exactly the occurrences of the widened expansion that fall on that day |
| EventQueries.ExtendedStart | src/utils/eventUtils.js:119 | the window starts at midnight on the first of the month three months before |
| EventQueries.ExtendedEnd | src/utils/eventUtils.js:120 | the window ends at the last minute of the month three months after, on the viewed month's length clamped to that month |
| EventQueries.MonthInsideWindow | src/utils/eventUtils.js:119-120 | the widened window contains the whole month |
| EventQueries.MonthShowsOccurrence | src/utils/eventUtils.js:113-129 | every occurrence date of a template in the month appears on its day, unless the template hit the cap |
| EventQueries.MonthShowsSingleEvent | src/utils/eventUtils.js:16-17 | a non-recurring event in the month appears on its own day |
| EventQueries.WidenedWindowLosesDays | src/utils/eventUtils.js:118-124 | as written: a daily event anchored in the widened window is missing from every day of the month 100 or more days after its anchor, although its rule produces that day |
| EventQueries.WidenedWindowExample | src/utils/eventUtils.js:118-124 | as written: a daily event from midnight on March 1st, viewed in June of the same year, is missing on June 30th; the corrected grid shows it |
| EventQueries.GetEventsForMonthCorrected | src/utils/eventUtils.js:113-130 | the grid with every template expanded over the viewed month alone: one entry per day, each with exactly the occurrences over the month on that day |
| EventQueries.MonthExpansionBelowCap | src/utils/eventUtils.js:21-26 | over one month a template yields at most as many occurrences as the month has days, so the cap of 100 is never reached |
| EventQueries.MonthShowsEveryOccurrence | src/utils/eventUtils.js:113-130 | in the corrected grid every date a template's rule produces in the month shows on its day, with no cap exception |
| Recurrence.SpacedByDays | src/utils/eventUtils.js:50-97 | the occurrences of one call fall on distinct days: the i-th is at least i days after the first |
| Recurrence.DailyConsecutive | src/utils/eventUtils.js:52-55 | a daily event anchored in range yields its occurrences on consecutive days from the anchor: the i-th is i days on |
| Recurrence.DailyCapReached | src/utils/eventUtils.js:22-26 | a daily event anchored in range has no occurrence 100 or more days after its anchor, because the cap is reached first |
| EventQueries.SlotsOverlap | src/utils/eventUtils.js:147-160 | the three-clause test on the slots `[start, start + 1 h)` of two instances is their half-open overlap: each starts before the other ends |
| EventQueries.SlotsOverlapSymmetric | src/utils/eventUtils.js:147-160 | two slots overlap exactly when they start less than an hour apart, in either order |
| EventQueries.BackToBack | src/utils/eventUtils.js:156-160 | back-to-back slots, in either order, do not overlap |
| EventQueries.OverlapsAny | src/utils/eventUtils.js:151-161 | the inner `some`: some existing instance overlaps the new one |
| EventQueries.AnyOverlap | src/utils/eventUtils.js:146-162 | the outer `some`: some pair of instances overlaps |
| EventQueries.ConflictWindowEnd | src/utils/eventUtils.js:134-135 | the conflict window ends in the same month a year later, at the same time, the day clamped, strictly after the new event's date |
| EventQueries.CheckEventConflicts | src/utils/eventUtils.js:132-163 | true exactly when the slot of some instance of the new event's expansion overlaps the slot of some instance of the existing events' expansions, all over the year from the new event's date |
| EventQueries.ConflictMeans | src/utils/eventUtils.js:132-163 | a conflict is an instance of the new event's expansion and an instance of an existing event's expansion, both expansions taken over the year from the new event's date, starting less than an hour apart (a one-off existing event is its own instance, whatever its date) |
| EventQueries.NoConflictWithoutEvents | src/utils/eventUtils.js:141-146 | with no existing events the result is false |
| EventQueries.NoConflictWithoutInstances | src/utils/eventUtils.js:138-146 | when the new event expands to nothing the result is false |
| EventQueries.SingleEventConflict | src/utils/eventUtils.js:132-163 | a non-recurring new event conflicts exactly when some instance of an existing event's expansion over the year from the new event's date starts less than an hour from it |
| EventQueries.SameInstantConflicts | src/utils/eventUtils.js:156-160 | two non-recurring events at the same instant conflict |
| App.RemoveId | src/App.jsx:147 | the filter keeps exactly the entries whose id differs |
| App.RemoveIdAppend | src/App.jsx:147 | the filter works part by part, so the kept entries keep their order |
| App.RemoveAbsentId | src/App.jsx:106 | filtering an id that is not present changes nothing |
| App.ReplaceId | src/App.jsx:112-114 | the map has the same length and replaces exactly the entries with the id |
| App.ReplaceKeepsOthers | src/App.jsx:135 | replacing by a record of the same id leaves every other entry, and their order, as it was |
| App.ReplacePresentId | src/App.jsx:135 | when the id is present the replacement is in the table and is its only entry with that id |
| App.ReplaceInPlace | src/App.jsx:112-114 | replacing an id by a record of that id puts it in the place of each entry of the id and keeps every other entry in order; for a present id it is the only entry of the id, for an absent id the table is unchanged |
| App.FindById | src/App.jsx:55 | `find` returns an entry with the id, and nothing exactly when no entry has it |
| App.FindFirst | src/App.jsx:55 | `find` returns the first entry with the id |
| App.MoveToDay | src/App.jsx:69-74 | the destination day at the original time of day |
| App.MoveKeepsTimeOfDay | src/App.jsx:93-98 | a move shifts the instant by whole days, and a move onto the same day changes nothing |
| App.DetachedCopy | src/App.jsx:61-76 | the copy of a dropped recurring instance: fresh id, `recurrence: 'none'`, not recurring, no original id, other fields kept, destination day at the original time |
| App.CalendarApp.constructor | src/App.jsx:18-26 | the table starts with the saved events, the form closed and nothing selected |
| App.CalendarApp.HandleDayClick | src/App.jsx:44-47 | opens the form with nothing selected, table unchanged, class invariant kept |
| App.CalendarApp.HandleEventClick | src/App.jsx:49-52 | opens the form on the event, table unchanged, class invariant kept |
| App.Redated | src/App.jsx:93-103 | the re-dated entry differs from the old one only in its date, which is on the destination day at the old time of day |
| App.SubmittedRecord | src/App.jsx:121-124 | the submitted record is the form data with only its id changed: the edited event's id, or the fresh id on a create |
| App.ExcludedId | src/App.jsx:127 | the id the conflict check leaves out: the edited event's id, or the empty string on a create |
| App.Submitted | src/App.jsx:120-138 | the table a submit commits, or none when the conflict check vetoes it; every table it commits keeps the stored rules terminating |
| App.SubmitVetoed | src/App.jsx:126-130 | a submit is vetoed exactly when the new record, with the edited id or a fresh one, conflicts with the entries whose id differs from the edited one |
| App.SubmitEditReplaces | src/App.jsx:133-135 | an accepted edit keeps the length, puts the new record (with the edited id) in the place of each entry of that id and leaves every other entry, in order, as it was; when the id is present the new record is its only entry, when it is absent the table is unchanged |
| App.SubmitCreateAppends | src/App.jsx:136-138 | an accepted create keeps the old table as prefix and adds the new record, with the fresh id, last |
| App.Dropped | src/App.jsx:54-118 | the table a drop leaves; it keeps the stored rules terminating |
| App.DropUnknownId | src/App.jsx:55-56 | dropping an id no entry has changes nothing |
| App.DropRecurringInstance | src/App.jsx:59-90 | dropping a recurring instance leaves the table as it was on a conflict with the other entries, and otherwise appends the detached copy after the unchanged table |
| App.DropRedatesInPlace | src/App.jsx:92-117 | dropping any other entry leaves the table as it was on a conflict with the other entries, and otherwise keeps the length, puts the re-dated entry in the place of the entry with the id, makes it the only one with the id and leaves every other entry, in order, as it was |
| App.CalendarApp.HandleEventSubmit | src/App.jsx:120-144 | on a veto the table, the form and the selection are unchanged; otherwise the table becomes `Submitted`'s, the form closes and nothing is selected |
| App.CalendarApp.HandleEventDelete | src/App.jsx:146-152 | removes exactly the entries with the id and closes the form |
| App.CalendarApp.HandleEventDrop | src/App.jsx:54-118 | the table becomes `Dropped`'s, and the form and selection are untouched |

## Findings

| source | as written | input that shows it | evidently intended | confidence | as-written member | corrected member |
|---|---|---|---|---|---|---|
| src/utils/eventUtils.js:118-124 | `getEventsForMonth` expands each template over the month widened by three months on each side, and the expansion stops after 100 occurrences counted from the start of that window | a daily event from 2024-03-01 00:00, viewed in June 2024: the 100 occurrences run from March 1st to June 8th, so June 9th to 30th show nothing | every date the rule produces in the viewed month shows on its day (over the month alone a template never reaches the cap, as `MonthExpansionBelowCap` proves) | not executed; the views in this repository filter the stored events themselves and do not call `getEventsForMonth` | EventQueries.WidenedWindowExample | EventQueries.GetEventsForMonthCorrected |

`WidenedWindowLosesDays` states the general form of the row: a daily event is lost from every day of the month that is 100 or more days after its anchor. `MonthShowsEveryOccurrence` proves the intended property of the corrected grid.

## Left out

- Time zones and daylight saving: an instant is a wall-clock date and minute, read as UTC when converted to epoch milliseconds, so `setHours(getHours() + 1)` is exactly one hour later.
- Seconds and milliseconds: instants are whole minutes, so `endOfMonth` is modelled at 23:59 instead of 23:59:59.999; every instant the model compares is a whole minute, so every comparison agrees. The JavaScript date range limit is not modelled.
- Recurrence.GenerateRecurringEvents: requires `Expandable` (a custom rule with a missing `customRecurrence`, a frequency other than weekly or monthly, or an interval below 1, whose anchor is not after the end). A missing or unrecognised custom frequency leaves the cursor in place and the source loops forever; an interval below 1 keeps the cursor inside one week or month (or walks it back), so the source either loops forever or stops at the cap with repeated occurrences. The event form (`src/components/Events/EventForm.jsx:46`, `:287`) rules it out. The class invariant `CalendarApp.Valid` carries the same guarantee for stored events.
- Recurrence.DailyExpansion, Recurrence.WeeklyExpansion, Recurrence.MonthlyExpansion, Recurrence.CustomMonthlyExpansion and Recurrence.CustomWeeklyExpansion are stated below the cap only; at the cap, `ExpandMembership` gives the bounded form.
- EventQueries.MonthShowsOccurrence is stated below the cap only, for the same reason; with the widened window the cap can be reached inside the viewed month (see Findings).
- `console.warn` at the cap and the `alert` on a conflict are side channels and are dropped.
- `Date.now().toString()` ids are a `freshId` parameter; their uniqueness is not modelled.
- `saveEventsToLocalStorage` and `loadEventsFromLocalStorage` (localStorage and JSON) are I/O: the constructor takes the loaded list as a parameter and the handlers do not persist.
- The drop handler's `sourceDate` argument is unused by the source and is omitted; `parseISO(destinationDate)` is given as the destination day (a malformed string, an invalid date, is not modelled).
- The navigation handlers `handlePreviousClick` and `handleNextClick`, the `view` and `currentDate` state, and all rendering are display only.
- The month view's search and priority filter depends on Unicode `toLowerCase`; the day cell's `canDrop` rule is drag-and-drop configuration; the form's validation and weekday toggles are form state (only their guarantee on the custom rule is kept, as the precondition above).
- Recurrence kinds are read once into a datatype: a missing, empty or `'none'` value is `NoRecurrence`, any other unknown string is `Unrecognised`; weekday lists hold integers, as `includes` compares them strictly.
