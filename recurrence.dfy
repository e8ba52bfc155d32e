/**
 * Recurrence expansion: `generateRecurringEvents(event, startDate, endDate)`.
 *
 * The source walks a date cursor forward from the event's anchor date with a
 * `while` loop whose body is a `switch` on the rule. `StepFrom` is one pass of
 * that body, `Walk` the whole loop as a function and `Expand` the call; the
 * method `GenerateRecurringEvents` keeps the loop and is proved equal to
 * `Expand`. What the expansion yields is characterized independently by
 * `IsOccurrenceDate` and `OccurrencesOf`, and `ExpandCharacterization` proves
 * that `Expand` meets that characterization.
 */
module Recurrence {
  import opened Calendar
  import opened Decimal
  import opened Events

  /** The hard cap on the occurrences one call emits. */
  const MaxRecurrences := 100

  // ---------------------------------------------------------------------
  // Reading the rule

  /** `event.customRecurrence?.frequency`. */
  function CustomFrequency(e: Event): (r: Frequency)
    ensures e.customRecurrence.None? ==> r == FrequencyOther
    ensures e.customRecurrence.Some? ==> r == e.customRecurrence.value.frequency
  {
    match e.customRecurrence
    case None => FrequencyOther
    case Some(c) => c.frequency
  }

  /** `interval = 1` as a destructuring default. */
  function Interval(e: Event): (r: int)
    ensures e.customRecurrence.None? || e.customRecurrence.value.interval.None? ==> r == 1
    ensures e.customRecurrence.Some? && e.customRecurrence.value.interval.Some? ==>
      r == e.customRecurrence.value.interval.value
  {
    match e.customRecurrence
    case None => 1
    case Some(c) => match c.interval case None => 1 case Some(n) => n
  }

  /** `event.customRecurrence?.weekdays`, a missing list read as empty. */
  function Weekdays(e: Event): seq<int> {
    match e.customRecurrence
    case None => []
    case Some(c) => c.weekdays
  }

  /** `shouldIncludeWeekDay`: the listed weekdays, or the anchor's own weekday when none are listed. */
  predicate ShouldIncludeWeekDay(e: Event, date: DateTime, weekdays: seq<int>)
    ensures |weekdays| == 0 ==>
      (ShouldIncludeWeekDay(e, date, weekdays) <==> (DayNumber(date) - DayNumber(e.date)) % 7 == 0)
    ensures |weekdays| > 0 ==> (ShouldIncludeWeekDay(e, date, weekdays) <==> Weekday(date) in weekdays)
  {
    SameWeekday(date, e.date);
    if |weekdays| == 0 then Weekday(date) == Weekday(e.date) else Weekday(date) in weekdays
  }

  /**
   * The rule the event form guarantees: a custom rule names a weekly or
   * monthly frequency and an interval of at least 1. A missing or
   * unrecognised custom frequency leaves the cursor in place and the source
   * loops forever; an interval below 1 keeps the cursor inside one week or
   * month (or walks it back), so the source either loops forever or stops at
   * the cap with repeated occurrences.
   */
  predicate TerminatingRule(e: Event) {
    e.recurrence == Custom ==>
      && e.customRecurrence.Some?
      && (CustomFrequency(e) == FrequencyWeekly || CustomFrequency(e) == FrequencyMonthly)
      && Interval(e) >= 1
  }

  /** What a call needs to terminate: the loop is entered only when the anchor is not after the end. */
  predicate Expandable(e: Event, endDate: DateTime) {
    Millis(e.date) <= Millis(endDate) ==> TerminatingRule(e)
  }

  predicate InRange(date: DateTime, startDate: DateTime, endDate: DateTime) {
    Millis(startDate) <= Millis(date) <= Millis(endDate)
  }

  // ---------------------------------------------------------------------
  // Occurrences

  /** `${event.id}-${date.getTime()}`. */
  function OccurrenceId(e: Event, date: DateTime): (r: string)
    ensures |r| >= |e.id| + 2 && r[..|e.id|] == e.id && r[|e.id|] == '-'
    ensures ParseInt(r[|e.id| + 1..]) == Millis(date)
  {
    var digits := IntToString(Millis(date));
    IntToStringRoundTrip(Millis(date));
    var r := e.id + "-" + digits;
    assert r[|e.id| + 1..] == digits;
    r
  }

  /** The copy of the template that addEventIfInRange pushes for a date. */
  function Occurrence(e: Event, date: DateTime): (r: Event)
    ensures r.date == date && r.id == OccurrenceId(e, date) && r.isRecurring && r.originalEventId == Some(e.id)
    ensures r.recurrence == e.recurrence && r.customRecurrence == e.customRecurrence && r.details == e.details
  {
    e.(date := date, id := OccurrenceId(e, date), isRecurring := true, originalEventId := Some(e.id))
  }

  // ---------------------------------------------------------------------
  // The walk, as functions

  /** What one pass of the loop body does: stop, or offer a candidate and move the cursor. */
  datatype Step = Stop | Advance(candidate: Option<DateTime>, next: DateTime)

  /** `case 'daily'`. */
  function DailyStep(cursor: DateTime): (r: Step)
    ensures r.Advance? && r.candidate == Some(cursor)
    ensures DayNumber(r.next) == DayNumber(cursor) + 1 && r.next.minute == cursor.minute
  {
    Advance(Some(cursor), AddDays(cursor, 1))
  }

  /** `case 'weekly'`. */
  function WeeklyStep(e: Event, cursor: DateTime): (r: Step)
    ensures r.Advance? && (r.candidate.Some? <==> ShouldIncludeWeekDay(e, cursor, Weekdays(e)))
    ensures r.Advance? && r.candidate.Some? ==> r.candidate.value == cursor
    ensures r.Advance? && DayNumber(r.next) == DayNumber(cursor) + 1 && r.next.minute == cursor.minute
  {
    Advance(if ShouldIncludeWeekDay(e, cursor, Weekdays(e)) then Some(cursor) else None, AddDays(cursor, 1))
  }

  /** `case 'monthly'`: the anchor's day clamped to the month's length, then the first of the next month. */
  function MonthlyStepFrom(e: Event, cursor: DateTime): (r: Step)
    ensures r.Advance? && r.candidate.Some?
    ensures r.Advance? && r.candidate.Some? ==>
      && SameMonth(r.candidate.value, cursor) && r.candidate.value.minute == cursor.minute
      && r.candidate.value.day == Min(e.date.day, DaysInMonth(cursor.year, cursor.month))
    ensures r.Advance? && MonthIndex(r.next) == MonthIndex(cursor) + 1 && r.next.day == 1 && r.next.minute == cursor.minute
  {
    var originalDayOfMonth := e.date.day;
    var targetDate := Min(originalDayOfMonth, EndOfMonth(cursor).day);
    var monthlyDate := SetDate(cursor, targetDate);
    Advance(if SameMonth(cursor, monthlyDate) then Some(monthlyDate) else None,
            SetDate(AddMonths(cursor, 1), 1))
  }

  /** `case 'custom'` with a weekly frequency: after a Saturday, skip `interval - 1` weeks. */
  function CustomWeeklyStepFrom(e: Event, cursor: DateTime): (r: Step)
    ensures r.Advance? && (r.candidate.Some? <==> ShouldIncludeWeekDay(e, cursor, Weekdays(e)))
    ensures r.Advance? && r.candidate.Some? ==> r.candidate.value == cursor
    ensures r.Advance? && r.next.minute == cursor.minute
    ensures r.Advance? && Weekday(cursor) != 6 ==> DayNumber(r.next) == DayNumber(cursor) + 1
    ensures r.Advance? && Weekday(cursor) == 6 ==> DayNumber(r.next) == DayNumber(cursor) + 7 * (Interval(e) - 1) + 1
  {
    var weekEnd := if Weekday(cursor) == 6 then AddWeeks(cursor, Interval(e) - 1) else cursor;
    Advance(if ShouldIncludeWeekDay(e, cursor, Weekdays(e)) then Some(cursor) else None,
            AddDays(weekEnd, 1))
  }

  /** `case 'custom'` with a monthly frequency: the anchor's day unclamped, `interval` months per step. */
  function CustomMonthlyStepFrom(e: Event, cursor: DateTime): (r: Step)
    ensures r.Advance? && (r.candidate.Some? <==> e.date.day <= DaysInMonth(cursor.year, cursor.month))
    ensures r.Advance? && r.candidate.Some? ==>
      SameMonth(r.candidate.value, cursor) && r.candidate.value.day == e.date.day && r.candidate.value.minute == cursor.minute
    ensures r.Advance? && MonthIndex(r.next) == MonthIndex(cursor) + Interval(e) && r.next.day == 1 && r.next.minute == cursor.minute
  {
    var originalDayOfMonth := e.date.day;
    var customMonthlyDate := SetDate(cursor, originalDayOfMonth);
    Advance(if SameMonth(cursor, customMonthlyDate) then Some(customMonthlyDate) else None,
            SetDate(AddMonths(cursor, Interval(e)), 1))
  }

  /** One pass of the `switch` on the rule, at cursor `cursor`; `default` returns. */
  function StepFrom(e: Event, cursor: DateTime): (r: Step)
    ensures r.Stop? <==> e.recurrence.NoRecurrence? || e.recurrence.Unrecognised?
    ensures e.recurrence == Custom && CustomFrequency(e) == FrequencyOther ==> r == Advance(None, cursor)
  {
    match e.recurrence
    case Daily => DailyStep(cursor)
    case Weekly => WeeklyStep(e, cursor)
    case Monthly => MonthlyStepFrom(e, cursor)
    case Custom =>
      (match CustomFrequency(e)
       case FrequencyWeekly => CustomWeeklyStepFrom(e, cursor)
       case FrequencyMonthly => CustomMonthlyStepFrom(e, cursor)
       case FrequencyOther => Advance(None, cursor))
    case _ => Stop
  }

  /** `addEventIfInRange`: push the occurrence when the date is in range and the cap is not reached. */
  function Emit(e: Event, startDate: DateTime, endDate: DateTime, candidate: Option<DateTime>, acc: seq<Event>): (r: seq<Event>)
    ensures acc <= r && |r| <= |acc| + 1
    ensures |r| == |acc| + 1 <==> candidate.Some? && InRange(candidate.value, startDate, endDate) && |acc| < MaxRecurrences
    ensures |r| == |acc| + 1 ==> r[|acc|] == Occurrence(e, candidate.value)
  {
    if candidate.Some? && InRange(candidate.value, startDate, endDate) && |acc| < MaxRecurrences
    then acc + [Occurrence(e, candidate.value)]
    else acc
  }

  /** The rest of the `while` loop from cursor `cursor`, with `acc` emitted so far. */
  function Walk(e: Event, startDate: DateTime, endDate: DateTime, cursor: DateTime, acc: seq<Event>): (r: seq<Event>)
    requires Expandable(e, endDate) && Millis(e.date) <= Millis(cursor)
    requires |acc| < MaxRecurrences
    ensures acc <= r && |r| <= MaxRecurrences
    decreases Millis(endDate) - Millis(cursor)
  {
    if Millis(endDate) < Millis(cursor) then acc
    else
      match StepFrom(e, cursor)
      case Stop => acc
      case Advance(candidate, next) =>
        var acc' := Emit(e, startDate, endDate, candidate, acc);
        if |acc'| >= MaxRecurrences then acc'
        else
          StepProgress(e, cursor);
          Walk(e, startDate, endDate, next, acc')
  }

  /** `generateRecurringEvents(event, startDate, endDate)`. */
  function Expand(e: Event, startDate: DateTime, endDate: DateTime): (r: seq<Event>)
    requires Expandable(e, endDate)
    ensures |r| <= MaxRecurrences
    ensures e.recurrence == NoRecurrence ==> r == [e]
    ensures e.recurrence != NoRecurrence && Millis(endDate) < Millis(e.date) ==> r == []
  {
    if e.recurrence == NoRecurrence then [e] else Walk(e, startDate, endDate, e.date, [])
  }

  // ---------------------------------------------------------------------
  // The characterization

  /** Whether t's calendar position fits the rule (time of day and anchor aside). */
  predicate RuleMatches(e: Event, t: DateTime) {
    match e.recurrence
    case Daily => true
    case Weekly => ShouldIncludeWeekDay(e, t, Weekdays(e))
    case Monthly => t.day == Min(e.date.day, DaysInMonth(t.year, t.month))
    case Custom =>
      && Interval(e) >= 1
      && (match CustomFrequency(e)
          case FrequencyWeekly =>
            ShouldIncludeWeekDay(e, t, Weekdays(e)) && (WeekNumber(t) - WeekNumber(e.date)) % Interval(e) == 0
          case FrequencyMonthly =>
            t.day == e.date.day && (MonthIndex(t) - MonthIndex(e.date)) % Interval(e) == 0
          case FrequencyOther => false)
    case _ => false
  }

  /** t is a date the rule produces: at the anchor's time of day, not before the anchor, fitting the rule. */
  predicate IsOccurrenceDate(e: Event, t: DateTime) {
    t.minute == e.date.minute && Millis(e.date) <= Millis(t) && RuleMatches(e, t)
  }

  ghost predicate Ascending(r: seq<Event>) {
    forall i, j :: 0 <= i < j < |r| ==> Millis(r[i].date) < Millis(r[j].date)
  }

  /** Each element is the occurrence of an occurrence date in range. */
  ghost predicate AllOccurrencesInRange(e: Event, startDate: DateTime, endDate: DateTime, r: seq<Event>) {
    forall i :: 0 <= i < |r| ==>
      r[i] == Occurrence(e, r[i].date) && IsOccurrenceDate(e, r[i].date) && InRange(r[i].date, startDate, endDate)
  }

  /**
   * r is the ascending list of the occurrences of e in [startDate, endDate],
   * cut off after the first MaxRecurrences of them.
   */
  ghost predicate OccurrencesOf(e: Event, startDate: DateTime, endDate: DateTime, r: seq<Event>) {
    && |r| <= MaxRecurrences
    && AllOccurrencesInRange(e, startDate, endDate, r)
    && Ascending(r)
    && forall t: DateTime ::
         IsOccurrenceDate(e, t) && InRange(t, startDate, endDate)
         && (|r| < MaxRecurrences || Millis(t) <= Millis(r[|r| - 1].date))
         ==> Occurrence(e, t) in r
  }

  /** What the walk has emitted once the cursor reaches `cursor`: every occurrence in range before it. */
  ghost predicate EmittedBefore(e: Event, startDate: DateTime, endDate: DateTime, cursor: DateTime, acc: seq<Event>) {
    && AllOccurrencesInRange(e, startDate, endDate, acc)
    && Ascending(acc)
    && (forall i :: 0 <= i < |acc| ==> Millis(acc[i].date) < Millis(cursor))
    && forall t: DateTime ::
         IsOccurrenceDate(e, t) && InRange(t, startDate, endDate) && Millis(t) < Millis(cursor)
         ==> Occurrence(e, t) in acc
  }

  /** The cursor positions the walk reaches: each rule's phase is kept. */
  predicate CursorOK(e: Event, cursor: DateTime) {
    && cursor.minute == e.date.minute
    && Millis(e.date) <= Millis(cursor)
    && match e.recurrence
       case Monthly => cursor == e.date || cursor.day == 1
       case Custom =>
         Interval(e) >= 1 &&
         (match CustomFrequency(e)
          case FrequencyWeekly => (WeekNumber(cursor) - WeekNumber(e.date)) % Interval(e) == 0
          case FrequencyMonthly =>
            (cursor == e.date || cursor.day == 1) && (MonthIndex(cursor) - MonthIndex(e.date)) % Interval(e) == 0
          case FrequencyOther => true)
       case _ => true
  }

  // ---------------------------------------------------------------------
  // Lemmas about one step

  /** Multiples of k less than k apart are equal. */
  lemma MultiplesApart(x: int, y: int, k: int)
    requires k >= 1 && x % k == 0 && y % k == 0 && x <= y < x + k
    ensures x == y
  {
    var qx, qy := x / k, y / k;
    assert x == k * qx && y == k * qy;
    assert y - x == k * (qy - qx);
    if qy - qx >= 1 {
      MulAtLeast(k, qy - qx);
    } else if qx - qy >= 1 {
      MulAtLeast(k, qx - qy);
    }
  }

  lemma MultipleStep(x: int, k: int)
    requires k >= 1 && x % k == 0
    ensures (x + k) % k == 0
  {
    var q := x / k;
    assert x == k * q;
    DivModUnique(x + k, k, q + 1, 0);
  }

  lemma ZeroMultiple(k: int)
    requires k >= 1
    ensures 0 % k == 0
  {
    DivModUnique(0, k, 0, 0);
  }

  /** Two instants at one time of day compare as their day numbers. */
  lemma SameMinuteOrder(a: DateTime, b: DateTime)
    requires a.minute == b.minute
    ensures Millis(a) < Millis(b) <==> DayNumber(a) < DayNumber(b)
    ensures Millis(a) == Millis(b) <==> a == b
  {
    MillisByDay(a, b);
    MillisByDay(b, a);
  }

  /** A date in a month at or after month index i is not before that month's first day. */
  lemma NotBeforeMonthStart(t: DateTime, i: int)
    requires MonthIndex(t) >= i
    ensures DayNumber(MonthStart(i, 0)) <= DayNumber(t)
  {
    MonthStartDayNumber(t);
    if MonthIndex(t) > i {
      MonthOrder(MonthStart(i, 0), t);
    }
  }

  /** Moving on to the first of a month k months later moves strictly forward. */
  lemma MonthsOnward(cursor: DateTime, k: int)
    requires k >= 1
    ensures var next := SetDate(AddMonths(cursor, k), 1);
      && MonthIndex(next) == MonthIndex(cursor) + k && next.day == 1 && next.minute == cursor.minute
      && DayNumber(next) == DayNumber(MonthStart(MonthIndex(cursor) + k, 0))
      && Millis(cursor) < Millis(next)
  {
    var next := SetDate(AddMonths(cursor, k), 1);
    MonthStartDayNumber(next);
    MonthOrder(cursor, next);
    SameMinuteOrder(cursor, next);
  }

  /** Between a cursor and the first of a later month lie only the months in between. */
  lemma MonthWindow(cursor: DateTime, t: DateTime, next: DateTime)
    requires t.minute == cursor.minute && next.minute == cursor.minute && next.day == 1
    requires Millis(cursor) <= Millis(t) < Millis(next)
    ensures MonthIndex(cursor) <= MonthIndex(t) < MonthIndex(next)
  {
    SameMinuteOrder(cursor, t);
    SameMinuteOrder(t, next);
    if MonthIndex(t) < MonthIndex(cursor) {
      MonthOrder(t, cursor);
    }
    if MonthIndex(t) >= MonthIndex(next) {
      MonthStartDayNumber(next);
      NotBeforeMonthStart(t, MonthIndex(next));
    }
  }

  /** Two dates of one month at one time of day, the earlier by day-of-month first. */
  lemma SameMonthOrder(a: DateTime, b: DateTime)
    requires SameMonth(a, b) && a.minute == b.minute && a.day <= b.day
    ensures Millis(a) <= Millis(b)
    ensures a.day == b.day ==> a == b
  {
    SameMinuteOrder(a, b);
  }

  lemma DaysOnward(cursor: DateTime, n: int)
    requires n >= 1
    ensures Millis(cursor) < Millis(AddDays(cursor, n))
  {
    SameMinuteOrder(cursor, AddDays(cursor, n));
  }

  /** The cursor moves strictly forward, so the loop terminates. */
  lemma StepProgress(e: Event, cursor: DateTime)
    requires TerminatingRule(e) && StepFrom(e, cursor).Advance?
    ensures Millis(cursor) < Millis(StepFrom(e, cursor).next)
    ensures StepFrom(e, cursor).next.minute == cursor.minute
  {
    match e.recurrence
    case Daily => DaysOnward(cursor, 1);
    case Weekly => DaysOnward(cursor, 1);
    case Monthly => MonthsOnward(cursor, 1);
    case Custom =>
      if CustomFrequency(e) == FrequencyWeekly {
        var n := if Weekday(cursor) == 6 then 7 * (Interval(e) - 1) + 1 else 1;
        assert DayNumber(StepFrom(e, cursor).next) == DayNumber(cursor) + n;
        SameMinuteOrder(cursor, StepFrom(e, cursor).next);
      } else {
        MonthsOnward(cursor, Interval(e));
      }
  }

  /**
   * What one step does: it moves the cursor forward, to a position the walk
   * can reach, and offers exactly the occurrence dates it passes over.
   */
  ghost predicate StepFacts(e: Event, cursor: DateTime, s: Step) {
    && s.Advance?
    && CursorOK(e, s.next)
    && Millis(cursor) < Millis(s.next)
    && (s.candidate.Some? ==>
          IsOccurrenceDate(e, s.candidate.value)
          && Millis(cursor) <= Millis(s.candidate.value) < Millis(s.next))
    && forall t: DateTime :: IsOccurrenceDate(e, t) && Millis(cursor) <= Millis(t) < Millis(s.next)
         ==> s.candidate == Some(t)
  }

  lemma DayByDayStep(e: Event, cursor: DateTime)
    requires CursorOK(e, cursor) && (e.recurrence == Daily || e.recurrence == Weekly)
    ensures StepFacts(e, cursor, StepFrom(e, cursor))
  {
    var next := AddDays(cursor, 1);
    DaysOnward(cursor, 1);
    forall t: DateTime | IsOccurrenceDate(e, t) && Millis(cursor) <= Millis(t) < Millis(next)
      ensures t == cursor
    {
      SameMinuteOrder(cursor, t);
      SameMinuteOrder(t, next);
      assert DayNumber(t) == DayNumber(cursor);
    }
  }

  /** The monthly candidate: the anchor's day clamped to the cursor's month. */
  lemma MonthlyCandidate(e: Event, cursor: DateTime)
    requires CursorOK(e, cursor) && e.recurrence == Monthly
    ensures var s := MonthlyStepFrom(e, cursor);
      && s.candidate.Some?
      && s.candidate.value == cursor.(day := Min(e.date.day, DaysInMonth(cursor.year, cursor.month)))
      && IsOccurrenceDate(e, s.candidate.value)
      && Millis(cursor) <= Millis(s.candidate.value) < Millis(s.next)
  {
    var a := e.date;
    var s := MonthlyStepFrom(e, cursor);
    MonthsOnward(cursor, 1);
    var md := SetDate(cursor, Min(a.day, DaysInMonth(cursor.year, cursor.month)));
    assert SameMonth(md, cursor);
    if cursor == a {
      assert md == a;
    } else {
      SameMonthOrder(cursor, md);
    }
    MonthOrder(md, s.next);
    SameMinuteOrder(md, s.next);
  }

  /** The only occurrence date before the next month's first is in the cursor's month. */
  lemma MonthlyOnlyCandidate(e: Event, cursor: DateTime, next: DateTime, t: DateTime)
    requires MonthIndex(next) == MonthIndex(cursor) + 1 && next.day == 1 && next.minute == cursor.minute
    requires IsOccurrenceDate(e, t) && t.minute == cursor.minute && Millis(cursor) <= Millis(t) < Millis(next)
    ensures SameMonth(t, cursor)
  {
    MonthWindow(cursor, t, next);
    MonthIndexRoundTrip(t);
    MonthIndexRoundTrip(cursor);
  }

  lemma MonthlyStep(e: Event, cursor: DateTime)
    requires CursorOK(e, cursor) && e.recurrence == Monthly
    ensures StepFacts(e, cursor, StepFrom(e, cursor))
  {
    var s := MonthlyStepFrom(e, cursor);
    MonthsOnward(cursor, 1);
    MonthlyCandidate(e, cursor);
    forall t: DateTime | IsOccurrenceDate(e, t) && Millis(cursor) <= Millis(t) < Millis(s.next)
      ensures s.candidate == Some(t)
    {
      MonthlyOnlyCandidate(e, cursor, s.next, t);
    }
  }

  /** A day of the cursor's month carrying the anchor's day is an occurrence date in the step's window. */
  lemma CustomMonthlyOffer(e: Event, cursor: DateTime, cmd: DateTime, next: DateTime)
    requires CursorOK(e, cursor)
    requires e.recurrence == Custom && CustomFrequency(e) == FrequencyMonthly
    requires SameMonth(cmd, cursor) && cmd.day == e.date.day && cmd.minute == cursor.minute
    requires MonthIndex(next) == MonthIndex(cursor) + Interval(e) && next.day == 1 && next.minute == cursor.minute
    ensures IsOccurrenceDate(e, cmd) && Millis(cursor) <= Millis(cmd) < Millis(next)
  {
    var a := e.date;
    if cursor == a {
      assert cmd == a;
    } else {
      SameMonthOrder(cursor, cmd);
    }
    assert MonthIndex(cmd) == MonthIndex(cursor);
    MonthOrder(cmd, next);
    SameMinuteOrder(cmd, next);
  }

  /** The custom monthly candidate: the anchor's own day, when the cursor's month has it. */
  lemma CustomMonthlyCandidate(e: Event, cursor: DateTime)
    requires TerminatingRule(e) && CursorOK(e, cursor)
    requires e.recurrence == Custom && CustomFrequency(e) == FrequencyMonthly
    ensures var s := CustomMonthlyStepFrom(e, cursor);
      && (s.candidate.Some? <==> e.date.day <= DaysInMonth(cursor.year, cursor.month))
      && (s.candidate.Some? ==>
            && s.candidate.value == cursor.(day := e.date.day)
            && IsOccurrenceDate(e, s.candidate.value)
            && Millis(cursor) <= Millis(s.candidate.value) < Millis(s.next))
  {
    var s := CustomMonthlyStepFrom(e, cursor);
    MonthsOnward(cursor, Interval(e));
    var cmd := SetDate(cursor, e.date.day);
    if SameMonth(cursor, cmd) {
      assert cmd == cursor.(day := e.date.day);
      CustomMonthlyOffer(e, cursor, cmd, s.next);
    }
  }

  /** The only occurrence date before the first of the month an interval on is in the cursor's month. */
  lemma CustomMonthlyOnlyCandidate(e: Event, cursor: DateTime, next: DateTime, t: DateTime)
    requires CursorOK(e, cursor)
    requires e.recurrence == Custom && CustomFrequency(e) == FrequencyMonthly
    requires MonthIndex(next) == MonthIndex(cursor) + Interval(e) && next.day == 1 && next.minute == cursor.minute
    requires IsOccurrenceDate(e, t) && Millis(cursor) <= Millis(t) < Millis(next)
    ensures SameMonth(t, cursor)
  {
    var a := e.date;
    var k := Interval(e);
    MonthWindow(cursor, t, next);
    MultiplesApart(MonthIndex(cursor) - MonthIndex(a), MonthIndex(t) - MonthIndex(a), k);
    MonthIndexRoundTrip(t);
    MonthIndexRoundTrip(cursor);
  }

  /** Moving on by a whole interval of months keeps the custom monthly phase. */
  lemma CustomMonthlyNext(e: Event, cursor: DateTime, next: DateTime)
    requires CursorOK(e, cursor)
    requires e.recurrence == Custom && CustomFrequency(e) == FrequencyMonthly
    requires next.day == 1 && next.minute == cursor.minute && Millis(cursor) < Millis(next)
    requires MonthIndex(next) == MonthIndex(cursor) + Interval(e)
    ensures CursorOK(e, next)
  {
    var x := MonthIndex(cursor) - MonthIndex(e.date);
    MultipleStep(x, Interval(e));
    assert MonthIndex(next) - MonthIndex(e.date) == x + Interval(e);
  }

  lemma CustomMonthlyStep(e: Event, cursor: DateTime)
    requires TerminatingRule(e) && CursorOK(e, cursor)
    requires e.recurrence == Custom && CustomFrequency(e) == FrequencyMonthly
    ensures StepFacts(e, cursor, StepFrom(e, cursor))
  {
    var s := CustomMonthlyStepFrom(e, cursor);
    MonthsOnward(cursor, Interval(e));
    CustomMonthlyNext(e, cursor, s.next);
    CustomMonthlyCandidate(e, cursor);
    forall t: DateTime | IsOccurrenceDate(e, t) && Millis(cursor) <= Millis(t) < Millis(s.next)
      ensures s.candidate == Some(t)
    {
      CustomMonthlyOnlyCandidate(e, cursor, s.next, t);
    }
    assert StepFacts(e, cursor, s);
  }

  /** Which week a day number falls in, from bounds on it. */
  lemma WeekBounds(m: int, lo: int, hi: int)
    requires 7 * lo <= m + 4 < 7 * hi
    ensures lo <= (m + 4) / 7 < hi
  {
    var q, r := (m + 4) / 7, (m + 4) % 7;
    assert m + 4 == 7 * q + r && 0 <= r < 7;
  }

  /** How far the custom weekly step moves the day number: past a Saturday, the skipped weeks too. */
  function WeeklyJump(d: int, k: int): int {
    if (d + 4) % 7 == 6 then 7 * (k - 1) + 1 else 1
  }

  /** The day the custom weekly step moves to lies in the same week, or k weeks on after a Saturday. */
  lemma WeeklyJumpWeek(d: int, k: int)
    requires k >= 1
    ensures (d + WeeklyJump(d, k) + 4) / 7 == (d + 4) / 7 + (if (d + 4) % 7 == 6 then k else 0)
  {
    var w, r := (d + 4) / 7, (d + 4) % 7;
    assert d + 4 == 7 * w + r && 0 <= r < 7;
    if r == 6 {
      WeekBounds(d + WeeklyJump(d, k), w + k, w + k + 1);
    } else {
      WeekBounds(d + 1, w, w + 1);
    }
  }

  /** The days the custom weekly step jumps over lie in skipped weeks only. */
  lemma SkippedWeeks(d: int, w0: int, k: int, m: int)
    requires k >= 1 && ((d + 4) / 7 - w0) % k == 0
    requires d < m < d + WeeklyJump(d, k)
    ensures ((m + 4) / 7 - w0) % k != 0
  {
    var w, r := (d + 4) / 7, (d + 4) % 7;
    assert d + 4 == 7 * w + r && 0 <= r < 7;
    assert r == 6;
    WeekBounds(m, w + 1, w + k);
    if ((m + 4) / 7 - w0) % k == 0 {
      MultiplesApart(w - w0, (m + 4) / 7 - w0, k);
    }
  }

  /** The custom weekly step, as a move of the day number. */
  lemma CustomWeeklyMove(e: Event, cursor: DateTime)
    requires e.recurrence == Custom && CustomFrequency(e) == FrequencyWeekly
    ensures var next := CustomWeeklyStepFrom(e, cursor).next;
      DayNumber(next) == DayNumber(cursor) + WeeklyJump(DayNumber(cursor), Interval(e))
      && next.minute == cursor.minute
  {
  }

  /** The custom weekly jump keeps the week count from the anchor's week a multiple of the interval. */
  lemma WeeklyPhaseKept(d: int, w0: int, k: int)
    requires k >= 1 && ((d + 4) / 7 - w0) % k == 0
    ensures ((d + WeeklyJump(d, k) + 4) / 7 - w0) % k == 0
    ensures WeeklyJump(d, k) >= 1
  {
    WeeklyJumpWeek(d, k);
    if (d + 4) % 7 == 6 {
      MultipleStep((d + 4) / 7 - w0, k);
      assert (d + WeeklyJump(d, k) + 4) / 7 - w0 == (d + 4) / 7 - w0 + k;
    }
  }

  lemma CustomWeeklyNext(e: Event, cursor: DateTime, next: DateTime)
    requires CursorOK(e, cursor)
    requires e.recurrence == Custom && CustomFrequency(e) == FrequencyWeekly
    requires DayNumber(next) == DayNumber(cursor) + WeeklyJump(DayNumber(cursor), Interval(e))
    requires next.minute == cursor.minute
    ensures CursorOK(e, next) && Millis(cursor) < Millis(next)
  {
    WeeklyPhaseKept(DayNumber(cursor), WeekNumber(e.date), Interval(e));
    SameMinuteOrder(cursor, next);
  }

  lemma CustomWeeklyOnlyCandidate(e: Event, cursor: DateTime, next: DateTime, t: DateTime)
    requires CursorOK(e, cursor)
    requires e.recurrence == Custom && CustomFrequency(e) == FrequencyWeekly
    requires DayNumber(next) == DayNumber(cursor) + WeeklyJump(DayNumber(cursor), Interval(e))
    requires next.minute == cursor.minute
    requires IsOccurrenceDate(e, t) && Millis(cursor) <= Millis(t) < Millis(next)
    ensures t == cursor
  {
    SameMinuteOrder(cursor, t);
    SameMinuteOrder(t, next);
    if DayNumber(cursor) < DayNumber(t) {
      SkippedWeeks(DayNumber(cursor), WeekNumber(e.date), Interval(e), DayNumber(t));
    }
  }

  lemma CustomWeeklyStep(e: Event, cursor: DateTime)
    requires TerminatingRule(e) && CursorOK(e, cursor)
    requires e.recurrence == Custom && CustomFrequency(e) == FrequencyWeekly
    ensures StepFacts(e, cursor, StepFrom(e, cursor))
  {
    var s := CustomWeeklyStepFrom(e, cursor);
    assert StepFrom(e, cursor) == s;
    CustomWeeklyMove(e, cursor);
    CustomWeeklyNext(e, cursor, s.next);
    if s.candidate.Some? {
      assert s.candidate.value == cursor && RuleMatches(e, cursor);
    }
    forall t: DateTime | IsOccurrenceDate(e, t) && Millis(cursor) <= Millis(t) < Millis(s.next)
      ensures s.candidate == Some(t)
    {
      CustomWeeklyOnlyCandidate(e, cursor, s.next, t);
    }
    assert StepFacts(e, cursor, s);
  }

  /** One step offers exactly the occurrence dates between the cursor and its next position. */
  lemma StepWindow(e: Event, cursor: DateTime)
    requires TerminatingRule(e) && CursorOK(e, cursor) && StepFrom(e, cursor).Advance?
    ensures StepFacts(e, cursor, StepFrom(e, cursor))
  {
    match e.recurrence
    case Daily => DayByDayStep(e, cursor);
    case Weekly => DayByDayStep(e, cursor);
    case Monthly => MonthlyStep(e, cursor);
    case Custom =>
      if CustomFrequency(e) == FrequencyWeekly {
        CustomWeeklyStep(e, cursor);
      } else {
        CustomMonthlyStep(e, cursor);
      }
  }

  // ---------------------------------------------------------------------
  // Lemmas about the whole walk

  /** Appending a later occurrence in range keeps a list of occurrences ascending and in range. */
  lemma AppendKeepsOrder(e: Event, startDate: DateTime, endDate: DateTime, cursor: DateTime, acc: seq<Event>, t: DateTime)
    requires AllOccurrencesInRange(e, startDate, endDate, acc) && Ascending(acc)
    requires forall i :: 0 <= i < |acc| ==> Millis(acc[i].date) < Millis(cursor)
    requires IsOccurrenceDate(e, t) && InRange(t, startDate, endDate) && Millis(cursor) <= Millis(t)
    ensures AllOccurrencesInRange(e, startDate, endDate, acc + [Occurrence(e, t)])
    ensures Ascending(acc + [Occurrence(e, t)])
  {
    var acc' := acc + [Occurrence(e, t)];
    forall i | 0 <= i < |acc'|
      ensures acc'[i] == Occurrence(e, acc'[i].date) && IsOccurrenceDate(e, acc'[i].date) && InRange(acc'[i].date, startDate, endDate)
    {
      if i < |acc| {
        assert acc'[i] == acc[i];
      }
    }
    forall i, j | 0 <= i < j < |acc'|
      ensures Millis(acc'[i].date) < Millis(acc'[j].date)
    {
      assert acc'[i] == acc[i];
      if j < |acc| {
        assert acc'[j] == acc[j];
      }
    }
  }

  /** Emitting a step's candidate keeps the record of what the walk has emitted. */
  lemma EmitKeepsRecord(e: Event, startDate: DateTime, endDate: DateTime, cursor: DateTime, s: Step, acc: seq<Event>)
    requires StepFacts(e, cursor, s)
    requires |acc| < MaxRecurrences && EmittedBefore(e, startDate, endDate, cursor, acc)
    ensures EmittedBefore(e, startDate, endDate, s.next, Emit(e, startDate, endDate, s.candidate, acc))
  {
    var acc' := Emit(e, startDate, endDate, s.candidate, acc);
    if acc' != acc {
      AppendKeepsOrder(e, startDate, endDate, cursor, acc, s.candidate.value);
    }
    forall t: DateTime | IsOccurrenceDate(e, t) && InRange(t, startDate, endDate) && Millis(t) < Millis(s.next)
      ensures Occurrence(e, t) in acc'
    {
      if Millis(cursor) <= Millis(t) {
        assert s.candidate == Some(t);
        assert acc'[|acc|] == Occurrence(e, t);
      } else {
        assert Occurrence(e, t) in acc;
      }
    }
  }

  /** One pass of the loop, as a rewriting of `Walk`. */
  lemma WalkUnfold(e: Event, startDate: DateTime, endDate: DateTime, cursor: DateTime, acc: seq<Event>)
    requires Expandable(e, endDate) && Millis(e.date) <= Millis(cursor) && |acc| < MaxRecurrences
    requires Millis(cursor) <= Millis(endDate) && StepFrom(e, cursor).Advance?
    ensures var s := StepFrom(e, cursor);
      var acc' := Emit(e, startDate, endDate, s.candidate, acc);
      && Millis(e.date) <= Millis(s.next)
      && (|acc'| >= MaxRecurrences ==> Walk(e, startDate, endDate, cursor, acc) == acc')
      && (|acc'| < MaxRecurrences ==> Walk(e, startDate, endDate, cursor, acc) == Walk(e, startDate, endDate, s.next, acc'))
  {
    StepProgress(e, cursor);
  }

  /** Where the walk stops, its record is the result: at the cap, past the end, or for a rule with no dates. */
  lemma RecordIsResult(e: Event, startDate: DateTime, endDate: DateTime, cursor: DateTime, acc: seq<Event>)
    requires |acc| <= MaxRecurrences && EmittedBefore(e, startDate, endDate, cursor, acc)
    requires || (|acc| == MaxRecurrences)
             || Millis(endDate) < Millis(cursor)
             || (forall t: DateTime :: !RuleMatches(e, t))
    ensures OccurrencesOf(e, startDate, endDate, acc)
  {
    if |acc| == MaxRecurrences {
      assert Millis(acc[|acc| - 1].date) < Millis(cursor);
    }
  }

  lemma {:induction false} WalkCharacterization(e: Event, startDate: DateTime, endDate: DateTime, cursor: DateTime, acc: seq<Event>)
    requires Expandable(e, endDate) && Millis(e.date) <= Millis(cursor) && |acc| < MaxRecurrences
    requires CursorOK(e, cursor) && EmittedBefore(e, startDate, endDate, cursor, acc)
    ensures OccurrencesOf(e, startDate, endDate, Walk(e, startDate, endDate, cursor, acc))
    decreases Millis(endDate) - Millis(cursor)
  {
    if Millis(endDate) < Millis(cursor) {
      RecordIsResult(e, startDate, endDate, cursor, acc);
      return;
    }
    var s := StepFrom(e, cursor);
    if s.Stop? {
      assert forall t: DateTime :: !RuleMatches(e, t);
      RecordIsResult(e, startDate, endDate, cursor, acc);
      return;
    }
    StepWindow(e, cursor);
    EmitKeepsRecord(e, startDate, endDate, cursor, s, acc);
    var acc' := Emit(e, startDate, endDate, s.candidate, acc);
    WalkUnfold(e, startDate, endDate, cursor, acc);
    if |acc'| < MaxRecurrences {
      WalkCharacterization(e, startDate, endDate, s.next, acc');
    } else {
      RecordIsResult(e, startDate, endDate, s.next, acc');
    }
  }

  /** `Expand` yields exactly the first MaxRecurrences occurrences in range, in ascending order. */
  lemma ExpandCharacterization(e: Event, startDate: DateTime, endDate: DateTime)
    requires Expandable(e, endDate) && e.recurrence != NoRecurrence
    ensures OccurrencesOf(e, startDate, endDate, Expand(e, startDate, endDate))
  {
    if Millis(e.date) <= Millis(endDate) && e.recurrence == Custom {
      ZeroMultiple(Interval(e));
    }
    if Millis(endDate) < Millis(e.date) {
      assert Expand(e, startDate, endDate) == [];
    } else {
      assert CursorOK(e, e.date);
      WalkCharacterization(e, startDate, endDate, e.date, []);
    }
  }

  /** No two occurrences of one call share an id. */
  lemma OccurrenceIdsDistinct(e: Event, startDate: DateTime, endDate: DateTime, r: seq<Event>, i: int, j: int)
    requires AllOccurrencesInRange(e, startDate, endDate, r) && Ascending(r)
    requires 0 <= i < j < |r|
    ensures r[i].id != r[j].id
  {
    var k := |e.id| + 1;
    assert r[i].id == OccurrenceId(e, r[i].date) && r[j].id == OccurrenceId(e, r[j].date);
    assert ParseInt(r[i].id[k..]) < ParseInt(r[j].id[k..]);
  }

  /** No id repeats within the result of one call. */
  lemma ExpandIdsDistinct(e: Event, startDate: DateTime, endDate: DateTime)
    requires Expandable(e, endDate)
    ensures var r := Expand(e, startDate, endDate);
      forall i, j :: 0 <= i < j < |r| ==> r[i].id != r[j].id
  {
    if e.recurrence != NoRecurrence {
      var r := Expand(e, startDate, endDate);
      ExpandCharacterization(e, startDate, endDate);
      forall i, j | 0 <= i < j < |r|
        ensures r[i].id != r[j].id
      {
        OccurrenceIdsDistinct(e, startDate, endDate, r, i, j);
      }
    }
  }

  // ---------------------------------------------------------------------
  // What each rule yields

  /** An occurrence is in the expansion exactly when its date is an occurrence date in range (up to the cap). */
  lemma ExpandMembership(e: Event, startDate: DateTime, endDate: DateTime, t: DateTime)
    requires Expandable(e, endDate) && e.recurrence != NoRecurrence
    ensures var r := Expand(e, startDate, endDate);
      && (Occurrence(e, t) in r ==> IsOccurrenceDate(e, t) && InRange(t, startDate, endDate))
      && (IsOccurrenceDate(e, t) && InRange(t, startDate, endDate)
          && (|r| < MaxRecurrences || Millis(t) <= Millis(r[|r| - 1].date))
          ==> Occurrence(e, t) in r)
  {
    var r := Expand(e, startDate, endDate);
    ExpandCharacterization(e, startDate, endDate);
    if Occurrence(e, t) in r {
      var i :| 0 <= i < |r| && r[i] == Occurrence(e, t);
      assert r[i].date == t;
    }
  }

  /** Below the cap, the expansion holds an occurrence for exactly the occurrence dates in range. */
  lemma BelowCapMembership(e: Event, startDate: DateTime, endDate: DateTime, t: DateTime)
    requires Expandable(e, endDate) && e.recurrence != NoRecurrence
    requires |Expand(e, startDate, endDate)| < MaxRecurrences
    ensures Occurrence(e, t) in Expand(e, startDate, endDate)
        <==> IsOccurrenceDate(e, t) && InRange(t, startDate, endDate)
  {
    ExpandMembership(e, startDate, endDate, t);
  }

  /** `daily`: the anchor's time on every day from the anchor's day on, within range. */
  lemma DailyExpansion(e: Event, startDate: DateTime, endDate: DateTime, t: DateTime)
    requires e.recurrence == Daily && |Expand(e, startDate, endDate)| < MaxRecurrences
    ensures Occurrence(e, t) in Expand(e, startDate, endDate)
        <==> t.minute == e.date.minute && DayNumber(e.date) <= DayNumber(t) && InRange(t, startDate, endDate)
  {
    BelowCapMembership(e, startDate, endDate, t);
    if t.minute == e.date.minute {
      SameMinuteOrder(e.date, t);
    }
  }

  /** `weekly`: the days from the anchor on whose weekday is listed, or is the anchor's when none are. */
  lemma WeeklyExpansion(e: Event, startDate: DateTime, endDate: DateTime, t: DateTime)
    requires e.recurrence == Weekly && |Expand(e, startDate, endDate)| < MaxRecurrences
    ensures Occurrence(e, t) in Expand(e, startDate, endDate)
        <==> && t.minute == e.date.minute && DayNumber(e.date) <= DayNumber(t) && InRange(t, startDate, endDate)
             && (if |Weekdays(e)| == 0 then Weekday(t) == Weekday(e.date) else Weekday(t) in Weekdays(e))
  {
    BelowCapMembership(e, startDate, endDate, t);
    if t.minute == e.date.minute {
      SameMinuteOrder(e.date, t);
    }
  }

  /** For a date on the anchor's clamped day, being after the anchor is being in the anchor's month or later. */
  lemma ClampedDayOrder(a: DateTime, t: DateTime)
    requires t.minute == a.minute && t.day == Min(a.day, DaysInMonth(t.year, t.month))
    ensures Millis(a) <= Millis(t) <==> MonthIndex(a) <= MonthIndex(t)
  {
    SameMinuteOrder(a, t);
    if MonthIndex(a) < MonthIndex(t) {
      MonthOrder(a, t);
    } else if MonthIndex(t) < MonthIndex(a) {
      MonthOrder(t, a);
    } else {
      MonthIndexRoundTrip(a);
      MonthIndexRoundTrip(t);
      assert t == a;
    }
  }

  /** `monthly`: one date per month from the anchor's month on, on the anchor's day clamped to the month. */
  lemma MonthlyExpansion(e: Event, startDate: DateTime, endDate: DateTime, t: DateTime)
    requires e.recurrence == Monthly && |Expand(e, startDate, endDate)| < MaxRecurrences
    ensures Occurrence(e, t) in Expand(e, startDate, endDate)
        <==> && t.minute == e.date.minute && MonthIndex(e.date) <= MonthIndex(t) && InRange(t, startDate, endDate)
             && t.day == Min(e.date.day, DaysInMonth(t.year, t.month))
  {
    BelowCapMembership(e, startDate, endDate, t);
    if t.minute == e.date.minute && t.day == Min(e.date.day, DaysInMonth(t.year, t.month)) {
      ClampedDayOrder(e.date, t);
    }
  }

  /**
   * `custom` monthly: every interval-th month from the anchor's, on the anchor's own day;
   * a month too short for that day is skipped.
   */
  lemma CustomMonthlyExpansion(e: Event, startDate: DateTime, endDate: DateTime, t: DateTime)
    requires e.recurrence == Custom && CustomFrequency(e) == FrequencyMonthly && Interval(e) >= 1
    requires Expandable(e, endDate) && |Expand(e, startDate, endDate)| < MaxRecurrences
    ensures Occurrence(e, t) in Expand(e, startDate, endDate)
        <==> && t.minute == e.date.minute && MonthIndex(e.date) <= MonthIndex(t) && InRange(t, startDate, endDate)
             && t.day == e.date.day && (MonthIndex(t) - MonthIndex(e.date)) % Interval(e) == 0
  {
    BelowCapMembership(e, startDate, endDate, t);
    CustomMonthlyDates(e, t);
  }

  lemma CustomMonthlyDates(e: Event, t: DateTime)
    requires e.recurrence == Custom && CustomFrequency(e) == FrequencyMonthly && Interval(e) >= 1
    ensures IsOccurrenceDate(e, t)
        <==> && t.minute == e.date.minute && MonthIndex(e.date) <= MonthIndex(t)
             && t.day == e.date.day && (MonthIndex(t) - MonthIndex(e.date)) % Interval(e) == 0
  {
    if t.minute == e.date.minute && t.day == e.date.day {
      ClampedDayOrder(e.date, t);
    }
  }

  /**
   * `custom` weekly: the days from the anchor on that pass the weekday filter and lie in
   * every interval-th Sunday-to-Saturday week, counting from the anchor's.
   */
  lemma CustomWeeklyExpansion(e: Event, startDate: DateTime, endDate: DateTime, t: DateTime)
    requires e.recurrence == Custom && CustomFrequency(e) == FrequencyWeekly && Interval(e) >= 1
    requires Expandable(e, endDate) && |Expand(e, startDate, endDate)| < MaxRecurrences
    ensures Occurrence(e, t) in Expand(e, startDate, endDate)
        <==> && t.minute == e.date.minute && DayNumber(e.date) <= DayNumber(t) && InRange(t, startDate, endDate)
             && ShouldIncludeWeekDay(e, t, Weekdays(e))
             && (WeekNumber(t) - WeekNumber(e.date)) % Interval(e) == 0
  {
    BelowCapMembership(e, startDate, endDate, t);
    CustomWeeklyDates(e, t);
  }

  lemma CustomWeeklyDates(e: Event, t: DateTime)
    requires e.recurrence == Custom && CustomFrequency(e) == FrequencyWeekly && Interval(e) >= 1
    ensures IsOccurrenceDate(e, t)
        <==> && t.minute == e.date.minute && DayNumber(e.date) <= DayNumber(t)
             && ShouldIncludeWeekDay(e, t, Weekdays(e))
             && (WeekNumber(t) - WeekNumber(e.date)) % Interval(e) == 0
  {
    if t.minute == e.date.minute {
      SameMinuteOrder(e.date, t);
    }
  }

  /** A template that does not recur is returned as it is, whatever the range. */
  lemma NoRecurrenceExpansion(e: Event, startDate: DateTime, endDate: DateTime)
    requires e.recurrence == NoRecurrence
    ensures Expand(e, startDate, endDate) == [e]
  {
  }

  /** An unrecognised rule, or an anchor after the end of the range, yields nothing. */
  lemma EmptyExpansion(e: Event, startDate: DateTime, endDate: DateTime)
    requires Expandable(e, endDate)
    requires e.recurrence.Unrecognised? || (e.recurrence != NoRecurrence && Millis(endDate) < Millis(e.date))
    ensures Expand(e, startDate, endDate) == []
  {
  }

  /** Ascending occurrences of one rule fall on distinct days: the i-th is at least i days after the first. */
  lemma {:induction false} SpacedByDays(e: Event, startDate: DateTime, endDate: DateTime, r: seq<Event>, i: int)
    requires AllOccurrencesInRange(e, startDate, endDate, r) && Ascending(r)
    requires 0 <= i < |r|
    ensures DayNumber(r[0].date) + i <= DayNumber(r[i].date)
    decreases i
  {
    if i > 0 {
      SpacedByDays(e, startDate, endDate, r, i - 1);
      SameMinuteOrder(r[i - 1].date, r[i].date);
    }
  }

  /** The first occurrence of a daily event anchored in range is the anchor itself. */
  lemma DailyFirst(e: Event, startDate: DateTime, endDate: DateTime, r: seq<Event>)
    requires e.recurrence == Daily && InRange(e.date, startDate, endDate)
    requires OccurrencesOf(e, startDate, endDate, r) && |r| > 0
    ensures r[0].date == e.date
  {
    assert IsOccurrenceDate(e, e.date);
    assert Millis(e.date) <= Millis(r[|r| - 1].date);
    var j :| 0 <= j < |r| && r[j] == Occurrence(e, e.date);
    assert r[j].date == e.date && IsOccurrenceDate(e, r[0].date);
    assert j == 0;
  }

  /** The day after an earlier date at the same time of day is not after a later one, and is it when on its day. */
  lemma DailyGap(prev: DateTime, cur: DateTime, t: DateTime)
    requires prev.minute == cur.minute && Millis(prev) < Millis(cur)
    requires t.minute == prev.minute && DayNumber(t) == DayNumber(prev) + 1
    ensures Millis(prev) < Millis(t) <= Millis(cur)
    ensures Millis(t) == Millis(cur) <==> DayNumber(cur) == DayNumber(prev) + 1
  {
    SameMinuteOrder(prev, t);
    SameMinuteOrder(prev, cur);
    SameMinuteOrder(t, cur);
  }

  /** In an ascending list, an entry after the (i-1)-th and not after the i-th is the i-th. */
  lemma AscendingBetween(r: seq<Event>, i: int, j: int)
    requires Ascending(r) && 0 < i < |r| && 0 <= j < |r|
    requires Millis(r[i - 1].date) < Millis(r[j].date) <= Millis(r[i].date)
    ensures j == i
  {
  }

  /** Each later occurrence of a daily event is the next day after the one before it. */
  lemma DailyNext(e: Event, startDate: DateTime, endDate: DateTime, r: seq<Event>, i: int)
    requires e.recurrence == Daily && OccurrencesOf(e, startDate, endDate, r)
    requires 0 < i < |r|
    ensures DayNumber(r[i].date) == DayNumber(r[i - 1].date) + 1
  {
    var prev, cur, last := r[i - 1].date, r[i].date, r[|r| - 1].date;
    assert IsOccurrenceDate(e, prev) && IsOccurrenceDate(e, cur);
    assert InRange(prev, startDate, endDate) && InRange(cur, startDate, endDate);
    var t := AddDays(prev, 1);
    DailyGap(prev, cur, t);
    if i < |r| - 1 {
      assert Millis(cur) < Millis(last);
    }
    assert IsOccurrenceDate(e, t) && InRange(t, startDate, endDate) && Millis(t) <= Millis(last);
    var j :| 0 <= j < |r| && r[j] == Occurrence(e, t);
    AscendingBetween(r, i, j);
  }

  /** A list that starts on day d0 and moves on one day per entry has its i-th entry on day d0 + i. */
  lemma {:induction false} DailyRun(r: seq<Event>, d0: int, i: int)
    requires |r| > 0 && DayNumber(r[0].date) == d0
    requires forall k :: 0 < k < |r| ==> DayNumber(r[k].date) == DayNumber(r[k - 1].date) + 1
    requires 0 <= i < |r|
    ensures DayNumber(r[i].date) == d0 + i
    decreases i
  {
    if i > 0 {
      DailyRun(r, d0, i - 1);
    }
  }

  /** A daily event anchored in range yields one occurrence per day from the anchor: the i-th is i days on. */
  lemma DailyConsecutive(e: Event, startDate: DateTime, endDate: DateTime, i: int)
    requires e.recurrence == Daily && InRange(e.date, startDate, endDate)
    requires 0 <= i < |Expand(e, startDate, endDate)|
    ensures DayNumber(Expand(e, startDate, endDate)[i].date) == DayNumber(e.date) + i
  {
    var r := Expand(e, startDate, endDate);
    ExpandCharacterization(e, startDate, endDate);
    DailyFirst(e, startDate, endDate, r);
    forall k | 0 < k < |r|
      ensures DayNumber(r[k].date) == DayNumber(r[k - 1].date) + 1
    {
      DailyNext(e, startDate, endDate, r, k);
    }
    DailyRun(r, DayNumber(e.date), i);
  }

  /** A daily event anchored in range has no occurrence 100 or more days after its anchor: the cap comes first. */
  lemma DailyCapReached(e: Event, startDate: DateTime, endDate: DateTime, t: DateTime)
    requires e.recurrence == Daily && InRange(e.date, startDate, endDate)
    requires DayNumber(e.date) + MaxRecurrences <= DayNumber(t)
    ensures Occurrence(e, t) !in Expand(e, startDate, endDate)
  {
    var r := Expand(e, startDate, endDate);
    forall j | 0 <= j < |r|
      ensures r[j].date != t
    {
      DailyConsecutive(e, startDate, endDate, j);
    }
  }

  /** Jan 31 2024, monthly: Feb 29 2024 is an occurrence date, clamped from the 31st. */
  lemma MonthlyClampExample(e: Event)
    requires e.recurrence == Monthly && e.date == Instant(2024, 1, 31, 600)
    ensures IsOccurrenceDate(e, Instant(2024, 2, 29, 600))
    ensures forall d :: 1 <= d <= 28 ==> !IsOccurrenceDate(e, Instant(2024, 2, d, 600))
  {
    ClampedDayOrder(e.date, Instant(2024, 2, 29, 600));
  }

  /** Jan 31 2024, custom monthly every month: February has no occurrence date at all. */
  lemma CustomMonthlySkipExample(e: Event)
    requires e.recurrence == Custom && CustomFrequency(e) == FrequencyMonthly && Interval(e) == 1
    requires e.date == Instant(2024, 1, 31, 600)
    ensures forall t: DateTime :: t.year == 2024 && t.month == 2 ==> !IsOccurrenceDate(e, t)
  {
  }

  // ---------------------------------------------------------------------
  // The source's loop

  /** `addEventIfInRange`, with the captured list and counter passed in and out. */
  method AddEventIfInRange(e: Event, startDate: DateTime, endDate: DateTime, date: DateTime,
                           events: seq<Event>, recurrenceCount: int)
    returns (events': seq<Event>, recurrenceCount': int)
    requires recurrenceCount == |events|
    ensures events' == Emit(e, startDate, endDate, Some(date), events)
    ensures recurrenceCount' == |events'|
  {
    events', recurrenceCount' := events, recurrenceCount;
    if Millis(startDate) <= Millis(date) && Millis(date) <= Millis(endDate) && recurrenceCount < MaxRecurrences {
      events' := events' + [Occurrence(e, date)];
      recurrenceCount' := recurrenceCount' + 1;
    }
  }

  /** `case 'daily'` of the loop body. */
  method DailyCase(event: Event, startDate: DateTime, endDate: DateTime, currentDate: DateTime,
                   events: seq<Event>, recurrenceCount: int)
    returns (currentDate': DateTime, events': seq<Event>, recurrenceCount': int)
    requires recurrenceCount == |events|
    ensures currentDate' == DailyStep(currentDate).next
    ensures events' == Emit(event, startDate, endDate, DailyStep(currentDate).candidate, events)
    ensures recurrenceCount' == |events'|
  {
    events', recurrenceCount' := AddEventIfInRange(event, startDate, endDate, currentDate, events, recurrenceCount);
    currentDate' := AddDays(currentDate, 1);
  }

  /** `case 'weekly'` of the loop body. */
  method WeeklyCase(event: Event, startDate: DateTime, endDate: DateTime, currentDate: DateTime,
                    events: seq<Event>, recurrenceCount: int)
    returns (currentDate': DateTime, events': seq<Event>, recurrenceCount': int)
    requires recurrenceCount == |events|
    ensures currentDate' == WeeklyStep(event, currentDate).next
    ensures events' == Emit(event, startDate, endDate, WeeklyStep(event, currentDate).candidate, events)
    ensures recurrenceCount' == |events'|
  {
    events', recurrenceCount' := events, recurrenceCount;
    if ShouldIncludeWeekDay(event, currentDate, Weekdays(event)) {
      events', recurrenceCount' := AddEventIfInRange(event, startDate, endDate, currentDate, events, recurrenceCount);
    }
    currentDate' := AddDays(currentDate, 1);
  }

  /** `case 'monthly'` of the loop body. */
  method MonthlyCase(event: Event, startDate: DateTime, endDate: DateTime, currentDate: DateTime,
                     events: seq<Event>, recurrenceCount: int, originalDayOfMonth: int)
    returns (currentDate': DateTime, events': seq<Event>, recurrenceCount': int)
    requires recurrenceCount == |events| && originalDayOfMonth == event.date.day
    ensures currentDate' == MonthlyStepFrom(event, currentDate).next
    ensures events' == Emit(event, startDate, endDate, MonthlyStepFrom(event, currentDate).candidate, events)
    ensures recurrenceCount' == |events'|
  {
    events', recurrenceCount' := events, recurrenceCount;
    var lastDayOfMonth := EndOfMonth(currentDate);
    var targetDate := Min(originalDayOfMonth, lastDayOfMonth.day);
    var monthlyDate := SetDate(currentDate, targetDate);
    if SameMonth(currentDate, monthlyDate) {
      events', recurrenceCount' := AddEventIfInRange(event, startDate, endDate, monthlyDate, events, recurrenceCount);
    }
    currentDate' := AddMonths(currentDate, 1);
    currentDate' := SetDate(currentDate', 1);
  }

  /** The weekly branch of `case 'custom'`: after a Saturday, jump `interval - 1` weeks. */
  method CustomWeeklyBranch(event: Event, startDate: DateTime, endDate: DateTime, currentDate: DateTime,
                            events: seq<Event>, recurrenceCount: int, interval: int)
    returns (currentDate': DateTime, events': seq<Event>, recurrenceCount': int)
    requires recurrenceCount == |events| && interval == Interval(event)
    ensures currentDate' == CustomWeeklyStepFrom(event, currentDate).next
    ensures events' == Emit(event, startDate, endDate, CustomWeeklyStepFrom(event, currentDate).candidate, events)
    ensures recurrenceCount' == |events'|
  {
    events', recurrenceCount', currentDate' := events, recurrenceCount, currentDate;
    if ShouldIncludeWeekDay(event, currentDate, Weekdays(event)) {
      events', recurrenceCount' := AddEventIfInRange(event, startDate, endDate, currentDate, events, recurrenceCount);
    }
    if Weekday(currentDate) == 6 {
      currentDate' := AddWeeks(currentDate, interval - 1);
    }
    currentDate' := AddDays(currentDate', 1);
  }

  /** The monthly branch of `case 'custom'`: the anchor's day unclamped, then `interval` months on. */
  method CustomMonthlyBranch(event: Event, startDate: DateTime, endDate: DateTime, currentDate: DateTime,
                             events: seq<Event>, recurrenceCount: int, originalDayOfMonth: int, interval: int)
    returns (currentDate': DateTime, events': seq<Event>, recurrenceCount': int)
    requires recurrenceCount == |events| && originalDayOfMonth == event.date.day && interval == Interval(event)
    ensures currentDate' == CustomMonthlyStepFrom(event, currentDate).next
    ensures events' == Emit(event, startDate, endDate, CustomMonthlyStepFrom(event, currentDate).candidate, events)
    ensures recurrenceCount' == |events'|
  {
    events', recurrenceCount' := events, recurrenceCount;
    var customMonthlyDate := SetDate(currentDate, originalDayOfMonth);
    if SameMonth(currentDate, customMonthlyDate) {
      events', recurrenceCount' := AddEventIfInRange(event, startDate, endDate, customMonthlyDate, events, recurrenceCount);
    }
    currentDate' := AddMonths(currentDate, interval);
    currentDate' := SetDate(currentDate', 1);
  }

  /** `case 'custom'` of the loop body; a frequency other than weekly or monthly does nothing. */
  method CustomCase(event: Event, startDate: DateTime, endDate: DateTime, currentDate: DateTime,
                    events: seq<Event>, recurrenceCount: int, originalDayOfMonth: int)
    returns (currentDate': DateTime, events': seq<Event>, recurrenceCount': int)
    requires recurrenceCount == |events| && originalDayOfMonth == event.date.day
    requires event.recurrence == Custom
    ensures currentDate' == StepFrom(event, currentDate).next
    ensures events' == Emit(event, startDate, endDate, StepFrom(event, currentDate).candidate, events)
    ensures recurrenceCount' == |events'|
  {
    var frequency, interval := CustomFrequency(event), Interval(event);
    if frequency == FrequencyWeekly {
      currentDate', events', recurrenceCount' :=
        CustomWeeklyBranch(event, startDate, endDate, currentDate, events, recurrenceCount, interval);
    } else if frequency == FrequencyMonthly {
      currentDate', events', recurrenceCount' :=
        CustomMonthlyBranch(event, startDate, endDate, currentDate, events, recurrenceCount, originalDayOfMonth, interval);
    } else {
      currentDate', events', recurrenceCount' := currentDate, events, recurrenceCount;
    }
  }

  /** `generateRecurringEvents(event, startDate, endDate)`. */
  method GenerateRecurringEvents(event: Event, startDate: DateTime, endDate: DateTime) returns (events: seq<Event>)
    requires Expandable(event, endDate)
    ensures events == Expand(event, startDate, endDate)
    ensures event.recurrence == NoRecurrence ==> events == [event]
    ensures event.recurrence != NoRecurrence ==> OccurrencesOf(event, startDate, endDate, events)
  {
    if event.recurrence == NoRecurrence {
      return [event];
    }
    events := [];
    var currentDate := event.date;
    var recurrenceCount := 0;
    var originalDayOfMonth := currentDate.day;

    while Millis(currentDate) <= Millis(endDate)
      invariant recurrenceCount == |events| < MaxRecurrences
      invariant Millis(event.date) <= Millis(currentDate)
      invariant Walk(event, startDate, endDate, currentDate, events) == Expand(event, startDate, endDate)
      decreases Millis(endDate) - Millis(currentDate)
    {
      ghost var before, emitted := currentDate, events;
      match event.recurrence {
        case Daily =>
          currentDate, events, recurrenceCount := DailyCase(event, startDate, endDate, currentDate, events, recurrenceCount);
        case Weekly =>
          currentDate, events, recurrenceCount := WeeklyCase(event, startDate, endDate, currentDate, events, recurrenceCount);
        case Monthly =>
          currentDate, events, recurrenceCount :=
            MonthlyCase(event, startDate, endDate, currentDate, events, recurrenceCount, originalDayOfMonth);
        case Custom =>
          currentDate, events, recurrenceCount :=
            CustomCase(event, startDate, endDate, currentDate, events, recurrenceCount, originalDayOfMonth);
        case _ =>
          ExpandCharacterization(event, startDate, endDate);
          return;
      }
      ghost var step := StepFrom(event, before);
      assert step.Advance? && currentDate == step.next;
      assert events == Emit(event, startDate, endDate, step.candidate, emitted);
      WalkUnfold(event, startDate, endDate, before, emitted);
      StepProgress(event, before);
      if recurrenceCount >= MaxRecurrences {
        break;
      }
    }
    ExpandCharacterization(event, startDate, endDate);
  }
}
