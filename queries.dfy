/**
 * The two queries built on the expander: `getEventsForMonth`, which buckets
 * the occurrences around a month by calendar day, and `checkEventConflicts`,
 * which compares one-hour slots over a year.
 */
module EventQueries {
  import opened Calendar
  import opened Events
  import opened Recurrence

  // ---------------------------------------------------------------------
  // Expanding a list of templates

  /** `events.flatMap((event) => generateRecurringEvents(event, startDate, endDate))`. */
  function ExpandAll(events: seq<Event>, startDate: DateTime, endDate: DateTime): (r: seq<Event>)
    requires forall e :: e in events ==> Expandable(e, endDate)
    ensures forall x :: x in r ==> exists e :: e in events && x in Expand(e, startDate, endDate)
    ensures forall e, x :: e in events && x in Expand(e, startDate, endDate) ==> x in r
  {
    if |events| == 0 then []
    else
      var rest := ExpandAll(events[1..], startDate, endDate);
      assert forall e :: e in events[1..] ==> e in events;
      assert forall e :: e in events ==> e == events[0] || e in events[1..];
      Expand(events[0], startDate, endDate) + rest
  }

  lemma AppendAssociative(x: seq<Event>, y: seq<Event>, z: seq<Event>)
    ensures x + (y + z) == (x + y) + z
  {
  }

  /** Expanding a concatenation expands each part in turn. */
  lemma {:induction false} ExpandAllAppend(a: seq<Event>, b: seq<Event>, startDate: DateTime, endDate: DateTime)
    requires forall e :: e in a ==> Expandable(e, endDate)
    requires forall e :: e in b ==> Expandable(e, endDate)
    ensures ExpandAll(a + b, startDate, endDate) == ExpandAll(a, startDate, endDate) + ExpandAll(b, startDate, endDate)
    decreases |a|
  {
    if |a| > 0 {
      assert (a + b)[1..] == a[1..] + b;
      assert (a + b)[0] == a[0];
      assert forall e :: e in a[1..] ==> e in a;
      ExpandAllAppend(a[1..], b, startDate, endDate);
      AppendAssociative(Expand(a[0], startDate, endDate), ExpandAll(a[1..], startDate, endDate), ExpandAll(b, startDate, endDate));
    } else {
      assert a + b == b;
    }
  }

  // ---------------------------------------------------------------------
  // getEventsForMonth

  /** `allEvents.filter((event) => isSameDay(new Date(event.date), day))`. */
  function FilterSameDay(xs: seq<Event>, day: DateTime): (r: seq<Event>)
    ensures |r| <= |xs|
    ensures forall x :: x in r <==> x in xs && SameDay(x.date, day)
  {
    if |xs| == 0 then []
    else
      var rest := FilterSameDay(xs[1..], day);
      assert forall x :: x in xs <==> x == xs[0] || x in xs[1..];
      if SameDay(xs[0].date, day) then [xs[0]] + rest else rest
  }

  /** The filter works part by part: the entries a day cell keeps stay in list order, duplicates included. */
  lemma {:induction false} FilterSameDayAppend(a: seq<Event>, b: seq<Event>, day: DateTime)
    ensures FilterSameDay(a + b, day) == FilterSameDay(a, day) + FilterSameDay(b, day)
    decreases |a|
  {
    if |a| > 0 {
      assert (a + b)[1..] == a[1..] + b;
      assert (a + b)[0] == a[0];
      FilterSameDayAppend(a[1..], b, day);
      AppendAssociative([a[0]], FilterSameDay(a[1..], day), FilterSameDay(b, day));
    } else {
      assert a + b == b;
    }
  }

  /** `eachDayOfInterval` from `t` to the end of t's month, each at t's minute. */
  function DaysFrom(t: DateTime): (r: seq<DateTime>)
    ensures |r| == DaysInMonth(t.year, t.month) - t.day + 1
    ensures forall i :: 0 <= i < |r| ==> r[i] == t.(day := t.day + i)
    decreases DaysInMonth(t.year, t.month) - t.day
  {
    if t.day == DaysInMonth(t.year, t.month) then [t]
    else [t] + DaysFrom(t.(day := t.day + 1))
  }

  /** `eachDayOfInterval({ start: startOfMonth(date), end: endOfMonth(date) })`. */
  function DaysOfMonth(date: DateTime): (r: seq<DateTime>)
    ensures |r| == DaysInMonth(date.year, date.month)
    ensures forall i :: 0 <= i < |r| ==> r[i] == Instant(date.year, date.month, i + 1, 0)
  {
    DaysFrom(StartOfMonth(date))
  }

  /** `addMonths(startOfMonth(date), -3)`: midnight on the first of the month three months earlier. */
  function ExtendedStart(date: DateTime): (r: DateTime)
    ensures MonthIndex(r) == MonthIndex(date) - 3 && r.day == 1 && r.minute == 0
  {
    AddMonths(StartOfMonth(date), -3)
  }

  /** `addMonths(endOfMonth(date), 3)`: the day is clamped, so a February end moves to the 28th or 29th of May. */
  function ExtendedEnd(date: DateTime): (r: DateTime)
    ensures MonthIndex(r) == MonthIndex(date) + 3 && r.minute == MinutesPerDay - 1
    ensures r.day == Min(DaysInMonth(date.year, date.month), DaysInMonth(r.year, r.month))
  {
    AddMonths(EndOfMonth(date), 3)
  }

  /** One entry of the month grid. */
  datatype DayEvents = DayEvents(date: DateTime, events: seq<Event>)

  predicate MonthExpandable(events: seq<Event>, date: DateTime) {
    forall e :: e in events ==> Expandable(e, ExtendedEnd(date))
  }

  /** The month's days, each with the expanded occurrences over the window that fall on it. */
  function MonthGrid(events: seq<Event>, date: DateTime, startDate: DateTime, endDate: DateTime): (r: seq<DayEvents>)
    requires forall e :: e in events ==> Expandable(e, endDate)
    ensures |r| == DaysInMonth(date.year, date.month)
    ensures forall i :: 0 <= i < |r| ==> r[i].date == Instant(date.year, date.month, i + 1, 0)
    ensures forall i, x :: 0 <= i < |r| ==>
      (x in r[i].events <==>
         SameDay(x.date, r[i].date)
         && exists e :: e in events && x in Expand(e, startDate, endDate))
  {
    var days := DaysOfMonth(date);
    var allEvents := ExpandAll(events, startDate, endDate);
    seq(|days|, i requires 0 <= i < |days| => DayEvents(days[i], FilterSameDay(allEvents, days[i])))
  }

  /**
   * Each day cell lists the occurrences of the earlier templates first: the
   * grid of a concatenated list is, cell by cell, the two grids concatenated.
   */
  lemma MonthGridAppend(a: seq<Event>, b: seq<Event>, date: DateTime, startDate: DateTime, endDate: DateTime, i: int)
    requires forall e :: e in a + b ==> Expandable(e, endDate)
    requires 0 <= i < DaysInMonth(date.year, date.month)
    ensures forall e :: e in a ==> Expandable(e, endDate)
    ensures forall e :: e in b ==> Expandable(e, endDate)
    ensures MonthGrid(a + b, date, startDate, endDate)[i].events
         == MonthGrid(a, date, startDate, endDate)[i].events + MonthGrid(b, date, startDate, endDate)[i].events
  {
    assert forall e :: e in a ==> e in a + b;
    assert forall e :: e in b ==> e in a + b;
    ExpandAllAppend(a, b, startDate, endDate);
    FilterSameDayAppend(ExpandAll(a, startDate, endDate), ExpandAll(b, startDate, endDate), DaysOfMonth(date)[i]);
  }

  /** `getEventsForMonth(events, date)`, over the month widened by three months on each side. */
  function GetEventsForMonth(events: seq<Event>, date: DateTime): (r: seq<DayEvents>)
    requires MonthExpandable(events, date)
    ensures |r| == DaysInMonth(date.year, date.month)
    ensures forall i :: 0 <= i < |r| ==> r[i].date == Instant(date.year, date.month, i + 1, 0)
    ensures forall i, x :: 0 <= i < |r| ==>
      (x in r[i].events <==>
         SameDay(x.date, r[i].date)
         && exists e :: e in events && x in Expand(e, ExtendedStart(date), ExtendedEnd(date)))
  {
    MonthGrid(events, date, ExtendedStart(date), ExtendedEnd(date))
  }

  /** Every instant of the month lies inside the widened window. */
  lemma MonthInsideWindow(date: DateTime, t: DateTime)
    requires SameMonth(t, date)
    ensures InRange(t, ExtendedStart(date), ExtendedEnd(date))
  {
    MonthOrder(ExtendedStart(date), t);
    MonthOrder(t, ExtendedEnd(date));
    MillisByDay(ExtendedStart(date), t);
    MillisByDay(t, ExtendedEnd(date));
  }

  /**
   * A day of the grid lists the occurrence of every template of the list whose
   * rule produces a date on that day (unless the template hit the cap).
   */
  lemma MonthShowsOccurrence(events: seq<Event>, date: DateTime, e: Event, t: DateTime)
    requires MonthExpandable(events, date) && e in events && e.recurrence != NoRecurrence
    requires SameMonth(t, date) && IsOccurrenceDate(e, t)
    requires |Expand(e, ExtendedStart(date), ExtendedEnd(date))| < MaxRecurrences
    ensures var r := GetEventsForMonth(events, date);
      Occurrence(e, t) in r[t.day - 1].events
  {
    MonthInsideWindow(date, t);
    BelowCapMembership(e, ExtendedStart(date), ExtendedEnd(date), t);
  }

  /** A template that does not recur shows on its own day when that day is in the month. */
  lemma MonthShowsSingleEvent(events: seq<Event>, date: DateTime, e: Event)
    requires MonthExpandable(events, date) && e in events && e.recurrence == NoRecurrence
    requires SameMonth(e.date, date)
    ensures e in GetEventsForMonth(events, date)[e.date.day - 1].events
  {
    assert e in Expand(e, ExtendedStart(date), ExtendedEnd(date));
  }

  // ---------------------------------------------------------------------
  // The month grid over the month itself

  /**
   * The grid with every template expanded over the viewed month alone. No
   * template then reaches the cap, so no day of the month loses an
   * occurrence; with the widened window a template can use up the cap in the
   * months before.
   */
  function GetEventsForMonthCorrected(events: seq<Event>, date: DateTime): (r: seq<DayEvents>)
    requires forall e :: e in events ==> Expandable(e, EndOfMonth(date))
    ensures |r| == DaysInMonth(date.year, date.month)
    ensures forall i :: 0 <= i < |r| ==> r[i].date == Instant(date.year, date.month, i + 1, 0)
    ensures forall i, x :: 0 <= i < |r| ==>
      (x in r[i].events <==>
         SameDay(x.date, r[i].date)
         && exists e :: e in events && x in Expand(e, StartOfMonth(date), EndOfMonth(date)))
  {
    MonthGrid(events, date, StartOfMonth(date), EndOfMonth(date))
  }

  /** Over one month a template yields at most one occurrence per day, so it stays below the cap. */
  lemma MonthExpansionBelowCap(e: Event, date: DateTime)
    requires Expandable(e, EndOfMonth(date))
    ensures |Expand(e, StartOfMonth(date), EndOfMonth(date))| <= DaysInMonth(date.year, date.month)
  {
    var startDate, endDate := StartOfMonth(date), EndOfMonth(date);
    var r := Expand(e, startDate, endDate);
    if e.recurrence != NoRecurrence && |r| > 0 {
      ExpandCharacterization(e, startDate, endDate);
      SpacedByDays(e, startDate, endDate, r, |r| - 1);
      MillisByDay(r[0].date, startDate);
      MillisByDay(endDate, r[|r| - 1].date);
      MonthStartDayNumber(startDate);
      MonthStartDayNumber(endDate);
    }
  }

  /** Every instant of the month lies between its first midnight and its last minute. */
  lemma InsideMonth(date: DateTime, t: DateTime)
    requires SameMonth(t, date)
    ensures InRange(t, StartOfMonth(date), EndOfMonth(date))
  {
    var startDate, endDate := StartOfMonth(date), EndOfMonth(date);
    SameMinuteOrder(startDate, t.(minute := 0));
    MillisByDay(startDate, t);
    MillisByDay(t, endDate);
  }

  /** Every date a template's rule produces in the month shows on its day of the corrected grid. */
  lemma MonthShowsEveryOccurrence(events: seq<Event>, date: DateTime, e: Event, t: DateTime)
    requires forall e' :: e' in events ==> Expandable(e', EndOfMonth(date))
    requires e in events && SameMonth(t, date) && IsOccurrenceDate(e, t)
    ensures Occurrence(e, t) in GetEventsForMonthCorrected(events, date)[t.day - 1].events
  {
    MonthExpansionBelowCap(e, date);
    InsideMonth(date, t);
    BelowCapMembership(e, StartOfMonth(date), EndOfMonth(date), t);
  }

  /**
   * The widened window as written: a daily event anchored inside it reaches
   * the cap on its 100th day, so a date of the viewed month 100 or more days
   * after the anchor is missing from the grid although the rule produces it.
   */
  lemma WidenedWindowLosesDays(e: Event, date: DateTime, t: DateTime)
    requires e.recurrence == Daily && InRange(e.date, ExtendedStart(date), ExtendedEnd(date))
    requires SameMonth(t, date) && DayNumber(e.date) + MaxRecurrences <= DayNumber(t)
    ensures Occurrence(e, t) !in GetEventsForMonth([e], date)[t.day - 1].events
  {
    DailyCapReached(e, ExtendedStart(date), ExtendedEnd(date), t);
    assert forall x :: x in [e] ==> x == e;
  }

  /** Viewed in June, the widened window starts on March 1st of the same year. */
  lemma JuneWindow(date: DateTime)
    requires date.month == 6
    ensures ExtendedStart(date) == Instant(date.year, 3, 1, 0)
  {
    DivModUnique(MonthIndex(date) - 3, 12, date.year, 2);
  }

  /** June 30th is 121 days after March 1st, in a leap year or not. */
  lemma MarchToJune(a: DateTime, t: DateTime)
    requires a.year == t.year && a.month == 3 && a.day == 1 && t.month == 6 && t.day == 30
    ensures DayNumber(t) == DayNumber(a) + 121
  {
    var y := a.year;
    assert DaysBeforeMonth(y, 4) == DaysBeforeMonth(y, 3) + 31;
    assert DaysBeforeMonth(y, 5) == DaysBeforeMonth(y, 3) + 61;
    assert DaysBeforeMonth(y, 6) == DaysBeforeMonth(y, 3) + 92;
  }

  /**
   * A daily event from midnight on March 1st, viewed in June of the same
   * year: June 30th is an occurrence date, the widened grid misses it (the
   * cap is reached on June 8th), and the corrected grid shows it.
   */
  lemma WidenedWindowExample(e: Event, date: DateTime, t: DateTime)
    requires e.recurrence == Daily && date.month == 6
    requires e.date.year == date.year && e.date.month == 3 && e.date.day == 1 && e.date.minute == 0
    requires SameMonth(t, date) && t.day == 30 && t.minute == 0
    ensures IsOccurrenceDate(e, t)
    ensures Occurrence(e, t) !in GetEventsForMonth([e], date)[t.day - 1].events
    ensures Occurrence(e, t) in GetEventsForMonthCorrected([e], date)[t.day - 1].events
  {
    JuneWindow(date);
    MarchToJune(e.date, t);
    MillisByDay(e.date, t);
    MonthInsideWindow(date, t);
    WidenedWindowLosesDays(e, date, t);
    MonthShowsEveryOccurrence([e], date, e, t);
  }

  // ---------------------------------------------------------------------
  // checkEventConflicts

  /**
   * The source's three-clause test of two one-hour slots starting at `a`
   * (the new instance) and `b` (the existing one). The three clauses are the
   * half-open interval overlap test, so slots that only touch do not overlap.
   */
  predicate SlotsOverlap(a: DateTime, b: DateTime)
    ensures SlotsOverlap(a, b) <==>
      Millis(a) < Millis(b) + MillisPerHour && Millis(b) < Millis(a) + MillisPerHour
  {
    var newStart, newEnd := Millis(a), Millis(a) + MillisPerHour;
    var existingStart, existingEnd := Millis(b), Millis(b) + MillisPerHour;
    || (newStart >= existingStart && newStart < existingEnd)
    || (newEnd > existingStart && newEnd <= existingEnd)
    || (newStart <= existingStart && newEnd >= existingEnd)
  }

  /** Two one-hour slots overlap exactly when they start less than an hour apart; the test is symmetric. */
  lemma SlotsOverlapSymmetric(a: DateTime, b: DateTime)
    ensures SlotsOverlap(a, b) <==> SlotsOverlap(b, a)
    ensures SlotsOverlap(a, b) <==> -MillisPerHour < Millis(a) - Millis(b) < MillisPerHour
  {
  }

  /** Back-to-back slots, in either order, do not overlap. */
  lemma BackToBack(a: DateTime, b: DateTime)
    requires Millis(b) == Millis(a) + MillisPerHour
    ensures !SlotsOverlap(a, b) && !SlotsOverlap(b, a)
  {
  }

  /** `existingEventInstances.some(...)` for one new instance. */
  function OverlapsAny(x: Event, ys: seq<Event>): (r: bool)
    ensures r <==> exists y :: y in ys && SlotsOverlap(x.date, y.date)
  {
    if |ys| == 0 then false
    else
      assert forall y :: y in ys <==> y == ys[0] || y in ys[1..];
      SlotsOverlap(x.date, ys[0].date) || OverlapsAny(x, ys[1..])
  }

  /** `newEventInstances.some(...)`. */
  function AnyOverlap(xs: seq<Event>, ys: seq<Event>): (r: bool)
    ensures r <==> exists x, y :: x in xs && y in ys && SlotsOverlap(x.date, y.date)
  {
    if |xs| == 0 then false
    else
      assert forall x :: x in xs <==> x == xs[0] || x in xs[1..];
      OverlapsAny(xs[0], ys) || AnyOverlap(xs[1..], ys)
  }

  /** `addYears(newEvent.date, 1)`. */
  function ConflictWindowEnd(newEvent: Event): (r: DateTime)
    ensures MonthIndex(r) == MonthIndex(newEvent.date) + 12 && r.minute == newEvent.date.minute
    ensures r.day == Min(newEvent.date.day, DaysInMonth(r.year, r.month))
    ensures Millis(newEvent.date) < Millis(r)
  {
    var r := AddYears(newEvent.date, 1);
    MonthOrder(newEvent.date, r);
    MillisByDay(newEvent.date, r);
    r
  }

  /** What checkEventConflicts needs to terminate. */
  predicate ConflictCheckable(newEvent: Event, existingEvents: seq<Event>) {
    && Expandable(newEvent, ConflictWindowEnd(newEvent))
    && forall e :: e in existingEvents ==> Expandable(e, ConflictWindowEnd(newEvent))
  }

  /** `checkEventConflicts(newEvent, existingEvents)`. */
  function CheckEventConflicts(newEvent: Event, existingEvents: seq<Event>): (r: bool)
    requires ConflictCheckable(newEvent, existingEvents)
    ensures r <==> exists x, y ::
      && x in Expand(newEvent, newEvent.date, ConflictWindowEnd(newEvent))
      && y in ExpandAll(existingEvents, newEvent.date, ConflictWindowEnd(newEvent))
      && SlotsOverlap(x.date, y.date)
  {
    var startDate := newEvent.date;
    var endDate := ConflictWindowEnd(newEvent);
    var newEventInstances := Expand(newEvent, startDate, endDate);
    var existingEventInstances := ExpandAll(existingEvents, startDate, endDate);
    AnyOverlap(newEventInstances, existingEventInstances)
  }

  /**
   * A conflict is an instance of the new event and an instance of one existing
   * event, both expanded over the year from the new event's date, whose starts
   * are less than an hour apart.
   */
  lemma ConflictMeans(newEvent: Event, existingEvents: seq<Event>)
    requires ConflictCheckable(newEvent, existingEvents)
    ensures var startDate, endDate := newEvent.date, ConflictWindowEnd(newEvent);
      CheckEventConflicts(newEvent, existingEvents) <==>
        exists x, e, y :: x in Expand(newEvent, startDate, endDate) && e in existingEvents
          && y in Expand(e, startDate, endDate)
          && -MillisPerHour < Millis(x.date) - Millis(y.date) < MillisPerHour
  {
    if CheckEventConflicts(newEvent, existingEvents) {
      ConflictWitness(newEvent, existingEvents);
    }
    var startDate, endDate := newEvent.date, ConflictWindowEnd(newEvent);
    forall x, e, y | x in Expand(newEvent, startDate, endDate) && e in existingEvents
      && y in Expand(e, startDate, endDate)
      && -MillisPerHour < Millis(x.date) - Millis(y.date) < MillisPerHour
      ensures CheckEventConflicts(newEvent, existingEvents)
    {
      ConflictFromWitness(newEvent, existingEvents, x, e, y);
    }
  }

  lemma ConflictWitness(newEvent: Event, existingEvents: seq<Event>)
    requires ConflictCheckable(newEvent, existingEvents) && CheckEventConflicts(newEvent, existingEvents)
    ensures var startDate, endDate := newEvent.date, ConflictWindowEnd(newEvent);
      exists x, e, y :: x in Expand(newEvent, startDate, endDate) && e in existingEvents
        && y in Expand(e, startDate, endDate)
        && -MillisPerHour < Millis(x.date) - Millis(y.date) < MillisPerHour
  {
    var startDate, endDate := newEvent.date, ConflictWindowEnd(newEvent);
    var xs, ys := Expand(newEvent, startDate, endDate), ExpandAll(existingEvents, startDate, endDate);
    var x, y :| x in xs && y in ys && SlotsOverlap(x.date, y.date);
    var e :| e in existingEvents && y in Expand(e, startDate, endDate);
    SlotsOverlapSymmetric(x.date, y.date);
    assert x in xs && e in existingEvents && y in Expand(e, startDate, endDate)
      && -MillisPerHour < Millis(x.date) - Millis(y.date) < MillisPerHour;
  }

  lemma ConflictFromWitness(newEvent: Event, existingEvents: seq<Event>, x: Event, e: Event, y: Event)
    requires ConflictCheckable(newEvent, existingEvents)
    requires x in Expand(newEvent, newEvent.date, ConflictWindowEnd(newEvent)) && e in existingEvents
    requires y in Expand(e, newEvent.date, ConflictWindowEnd(newEvent))
    requires -MillisPerHour < Millis(x.date) - Millis(y.date) < MillisPerHour
    ensures CheckEventConflicts(newEvent, existingEvents)
  {
    SlotsOverlapSymmetric(x.date, y.date);
    assert y in ExpandAll(existingEvents, newEvent.date, ConflictWindowEnd(newEvent));
  }

  /** With no existing events there is nothing to conflict with. */
  lemma NoConflictWithoutEvents(newEvent: Event)
    requires ConflictCheckable(newEvent, [])
    ensures !CheckEventConflicts(newEvent, [])
  {
  }

  /** A new event that expands to nothing conflicts with nothing. */
  lemma NoConflictWithoutInstances(newEvent: Event, existingEvents: seq<Event>)
    requires ConflictCheckable(newEvent, existingEvents)
    requires Expand(newEvent, newEvent.date, ConflictWindowEnd(newEvent)) == []
    ensures !CheckEventConflicts(newEvent, existingEvents)
  {
  }

  /**
   * A new event that does not recur conflicts exactly when the expansion of
   * some existing event over the year from the new event's date has an
   * instance starting less than an hour before or after it.
   */
  lemma SingleEventConflict(newEvent: Event, existingEvents: seq<Event>)
    requires ConflictCheckable(newEvent, existingEvents) && newEvent.recurrence == NoRecurrence
    ensures CheckEventConflicts(newEvent, existingEvents) <==>
      exists e, y :: e in existingEvents && y in Expand(e, newEvent.date, ConflictWindowEnd(newEvent))
        && -MillisPerHour < Millis(newEvent.date) - Millis(y.date) < MillisPerHour
  {
    ConflictMeans(newEvent, existingEvents);
    assert Expand(newEvent, newEvent.date, ConflictWindowEnd(newEvent)) == [newEvent];
  }

  /** Two non-recurring events at one instant conflict. */
  lemma SameInstantConflicts(newEvent: Event, other: Event)
    requires newEvent.recurrence == NoRecurrence && other.recurrence == NoRecurrence
    requires newEvent.date == other.date
    ensures ConflictCheckable(newEvent, [other]) && CheckEventConflicts(newEvent, [other])
  {
    assert Expand(other, newEvent.date, ConflictWindowEnd(newEvent)) == [other];
    SingleEventConflict(newEvent, [other]);
  }
}
