/**
 * The calendar component's event table: the list of stored events, keyed by
 * id, and the handlers that create, edit, delete and move entries, each
 * vetoed when the conflict check objects.
 */
module App {
  import opened Calendar
  import opened Events
  import opened Recurrence
  import opened EventQueries

  // ---------------------------------------------------------------------
  // The list operations the handlers build new tables with

  /** `events.filter((e) => e.id !== id)`. */
  function RemoveId(events: seq<Event>, id: string): (r: seq<Event>)
    ensures |r| <= |events|
    ensures forall x :: x in r <==> x in events && x.id != id
  {
    if |events| == 0 then []
    else
      var rest := RemoveId(events[1..], id);
      assert forall x :: x in events <==> x == events[0] || x in events[1..];
      if events[0].id != id then [events[0]] + rest else rest
  }

  /** Filtering a concatenation filters each part, so the survivors keep their order. */
  lemma {:induction false} RemoveIdAppend(a: seq<Event>, b: seq<Event>, id: string)
    ensures RemoveId(a + b, id) == RemoveId(a, id) + RemoveId(b, id)
    decreases |a|
  {
    if |a| > 0 {
      assert (a + b)[1..] == a[1..] + b;
      assert (a + b)[0] == a[0];
      RemoveIdAppend(a[1..], b, id);
      AppendAssociative([a[0]], RemoveId(a[1..], id), RemoveId(b, id));
    } else {
      assert a + b == b;
    }
  }

  /** A table without the id is left as it is. */
  lemma {:induction false} RemoveAbsentId(events: seq<Event>, id: string)
    requires forall x :: x in events ==> x.id != id
    ensures RemoveId(events, id) == events
    decreases |events|
  {
    if |events| > 0 {
      assert events[0] in events;
      assert forall x :: x in events[1..] ==> x in events;
      RemoveAbsentId(events[1..], id);
      assert events == [events[0]] + events[1..];
    }
  }

  /** `events.map((e) => e.id === id ? replacement : e)`. */
  function ReplaceId(events: seq<Event>, id: string, replacement: Event): (r: seq<Event>)
    ensures |r| == |events|
    ensures forall i :: 0 <= i < |r| ==> r[i] == if events[i].id == id then replacement else events[i]
  {
    seq(|events|, i requires 0 <= i < |events| => if events[i].id == id then replacement else events[i])
  }

  /** Replacing by a record with the same id touches nothing the filter keeps. */
  lemma ReplaceKeepsOthers(events: seq<Event>, id: string, replacement: Event)
    requires replacement.id == id
    ensures RemoveId(ReplaceId(events, id, replacement), id) == RemoveId(events, id)
  {
    var r := ReplaceId(events, id, replacement);
    ReplaceKeepsOthersFrom(events, r, id, replacement);
  }

  lemma {:induction false} ReplaceKeepsOthersFrom(events: seq<Event>, r: seq<Event>, id: string, replacement: Event)
    requires replacement.id == id && |r| == |events|
    requires forall i :: 0 <= i < |r| ==> r[i] == if events[i].id == id then replacement else events[i]
    ensures RemoveId(r, id) == RemoveId(events, id)
    decreases |events|
  {
    if |events| > 0 {
      ReplaceKeepsOthersFrom(events[1..], r[1..], id, replacement);
    }
  }

  /** When the id is present, replacing puts the replacement in the table and leaves no old entry of that id. */
  lemma ReplacePresentId(events: seq<Event>, id: string, replacement: Event)
    requires exists x :: x in events && x.id == id
    ensures replacement in ReplaceId(events, id, replacement)
    ensures forall x :: x in ReplaceId(events, id, replacement) && x.id == id ==> x == replacement
  {
    var x :| x in events && x.id == id;
    var i :| 0 <= i < |events| && events[i] == x;
    assert ReplaceId(events, id, replacement)[i] == replacement;
  }

  /**
   * Replacing an id by a record of that id: same places, the rest untouched;
   * when the id is present the replacement is its only entry, and when it is
   * absent the table comes back as it was.
   */
  lemma ReplaceInPlace(events: seq<Event>, id: string, replacement: Event)
    requires replacement.id == id
    ensures var r := ReplaceId(events, id, replacement);
      && |r| == |events|
      && (forall i :: 0 <= i < |events| ==> r[i] == if events[i].id == id then replacement else events[i])
      && RemoveId(r, id) == RemoveId(events, id)
      && ((exists x :: x in events && x.id == id) ==> replacement in r && forall x :: x in r && x.id == id ==> x == replacement)
      && ((forall x :: x in events ==> x.id != id) ==> r == events)
  {
    ReplaceKeepsOthers(events, id, replacement);
    if exists x :: x in events && x.id == id {
      ReplacePresentId(events, id, replacement);
    } else {
      var r := ReplaceId(events, id, replacement);
      assert forall i :: 0 <= i < |events| ==> events[i].id != id by {
        forall i | 0 <= i < |events| ensures events[i].id != id {
          assert events[i] in events;
        }
      }
      assert r == events;
    }
  }

  /** `events.find((e) => e.id === id)`: the first entry with the id. */
  function FindById(events: seq<Event>, id: string): (r: Option<Event>)
    ensures r.None? <==> forall x :: x in events ==> x.id != id
    ensures r.Some? ==> r.value in events && r.value.id == id
  {
    if |events| == 0 then None
    else if events[0].id == id then Some(events[0])
    else
      assert forall x :: x in events <==> x == events[0] || x in events[1..];
      FindById(events[1..], id)
  }

  /** The entry found is the first one with the id. */
  lemma {:induction false} FindFirst(events: seq<Event>, id: string, i: int)
    requires 0 <= i < |events| && events[i].id == id
    requires forall j :: 0 <= j < i ==> events[j].id != id
    ensures FindById(events, id) == Some(events[i])
    decreases i
  {
    if i > 0 {
      FindFirst(events[1..], id, i - 1);
    }
  }

  /**
   * `parseISO(destinationDate)` followed by `setHours` and `setMinutes` from
   * the old date: the destination's day at the old time of day.
   */
  function MoveToDay(destination: DateTime, previous: DateTime): (r: DateTime)
    ensures SameDay(r, destination) && r.minute == previous.minute
  {
    destination.(minute := previous.minute)
  }

  /** A move changes the day by the distance between the days and keeps the time of day exactly. */
  lemma MoveKeepsTimeOfDay(destination: DateTime, previous: DateTime)
    ensures var r := MoveToDay(destination, previous);
      && Millis(r) - Millis(previous) == (DayNumber(destination) - DayNumber(previous)) * MinutesPerDay * MillisPerMinute
      && (SameDay(destination, previous) ==> r == previous)
  {
    var r := MoveToDay(destination, previous);
    assert DayNumber(r) == DayNumber(destination);
  }

  /** The copy a drop of a recurring instance appends: a one-off event at the new date. */
  function DetachedCopy(instance: Event, destination: DateTime, freshId: string): (r: Event)
    ensures r.recurrence == NoRecurrence && !r.isRecurring && r.originalEventId == None
    ensures r.id == freshId && r.details == instance.details && r.customRecurrence == instance.customRecurrence
    ensures SameDay(r.date, destination) && r.date.minute == instance.date.minute
  {
    instance.(id := freshId, isRecurring := false, recurrence := NoRecurrence, originalEventId := None,
              date := MoveToDay(destination, instance.date))
  }

  /** Every stored template can be expanded over any window. */
  predicate Terminating(events: seq<Event>) {
    forall x :: x in events ==> TerminatingRule(x)
  }

  lemma TerminatingCheckable(newEvent: Event, others: seq<Event>)
    requires TerminatingRule(newEvent) && Terminating(others)
    ensures ConflictCheckable(newEvent, others)
  {
  }

  lemma TerminatingAppend(events: seq<Event>, x: Event)
    requires Terminating(events) && TerminatingRule(x)
    ensures Terminating(events + [x])
  {
    forall y | y in events + [x]
      ensures TerminatingRule(y)
    {
      if y != x {
        assert y in events;
      }
    }
  }

  lemma TerminatingReplace(events: seq<Event>, id: string, x: Event)
    requires Terminating(events) && TerminatingRule(x)
    ensures Terminating(ReplaceId(events, id, x))
  {
    var r := ReplaceId(events, id, x);
    forall y | y in r
      ensures TerminatingRule(y)
    {
      var i :| 0 <= i < |r| && r[i] == y;
      if events[i].id != id {
        assert events[i] in events;
      }
    }
  }

  lemma TerminatingRemove(events: seq<Event>, id: string)
    requires Terminating(events)
    ensures Terminating(RemoveId(events, id))
  {
  }

  // ---------------------------------------------------------------------
  // What the handlers make of the table

  /** The id the edited/created record gets: the edited event's, or a fresh one. */
  function SubmittedRecord(selectedEvent: Option<Event>, eventData: Event, freshId: string): (r: Event)
    ensures r == eventData.(id := r.id)
    ensures selectedEvent.Some? ==> r.id == selectedEvent.value.id
    ensures selectedEvent.None? ==> r.id == freshId
  {
    eventData.(id := if selectedEvent.Some? then selectedEvent.value.id else freshId)
  }

  /** `selectedEvent?.id || ''`: the id the conflict check leaves out. */
  function ExcludedId(selectedEvent: Option<Event>): (r: string)
    ensures selectedEvent.Some? ==> r == selectedEvent.value.id
    ensures selectedEvent.None? ==> r == ""
  {
    if selectedEvent.Some? then selectedEvent.value.id else ""
  }

  /** The table `handleEventSubmit` commits, or None when the conflict check vetoes it. */
  function Submitted(events: seq<Event>, selectedEvent: Option<Event>, eventData: Event, freshId: string): (r: Option<seq<Event>>)
    requires Terminating(events) && TerminatingRule(eventData)
    ensures r.Some? ==> Terminating(r.value)
  {
    var newEvent := SubmittedRecord(selectedEvent, eventData, freshId);
    var otherEvents := RemoveId(events, ExcludedId(selectedEvent));
    TerminatingRemove(events, ExcludedId(selectedEvent));
    TerminatingCheckable(newEvent, otherEvents);
    if CheckEventConflicts(newEvent, otherEvents) then None
    else if selectedEvent.Some? then
      TerminatingReplace(events, selectedEvent.value.id, newEvent);
      Some(ReplaceId(events, selectedEvent.value.id, newEvent))
    else
      TerminatingAppend(events, newEvent);
      Some(events + [newEvent])
  }

  /** A submit is vetoed exactly when the new record conflicts with the entries other than the edited one. */
  lemma SubmitVetoed(events: seq<Event>, selectedEvent: Option<Event>, eventData: Event, freshId: string)
    requires Terminating(events) && TerminatingRule(eventData)
    ensures ConflictCheckable(SubmittedRecord(selectedEvent, eventData, freshId), RemoveId(events, ExcludedId(selectedEvent)))
    ensures Submitted(events, selectedEvent, eventData, freshId).None?
        <==> CheckEventConflicts(SubmittedRecord(selectedEvent, eventData, freshId), RemoveId(events, ExcludedId(selectedEvent)))
  {
  }

  /**
   * An accepted edit keeps the table's length, puts the new record (with the
   * edited id) in the place of every entry of that id, and leaves every entry
   * of another id where it was. When the edited id is in the table the new
   * record is its only entry; when it is not, the table comes back unchanged.
   */
  lemma SubmitEditReplaces(events: seq<Event>, selected: Event, eventData: Event, freshId: string)
    requires Terminating(events) && TerminatingRule(eventData)
    ensures var r := Submitted(events, Some(selected), eventData, freshId);
      var newEvent := eventData.(id := selected.id);
      r.Some? ==>
      && |r.value| == |events|
      && (forall i :: 0 <= i < |events| ==> r.value[i] == if events[i].id == selected.id then newEvent else events[i])
      && RemoveId(r.value, selected.id) == RemoveId(events, selected.id)
      && ((exists x :: x in events && x.id == selected.id) ==>
            newEvent in r.value && forall x :: x in r.value && x.id == selected.id ==> x == newEvent)
      && ((forall x :: x in events ==> x.id != selected.id) ==> r.value == events)
  {
    var newEvent := eventData.(id := selected.id);
    var r := Submitted(events, Some(selected), eventData, freshId);
    if r.Some? {
      assert r.value == ReplaceId(events, selected.id, newEvent);
      ReplaceInPlace(events, selected.id, newEvent);
    }
  }

  /** An accepted create keeps the old table as a prefix and adds the record with the fresh id last. */
  lemma SubmitCreateAppends(events: seq<Event>, eventData: Event, freshId: string)
    requires Terminating(events) && TerminatingRule(eventData)
    ensures var r := Submitted(events, None, eventData, freshId);
      r.Some? ==>
      && |r.value| == |events| + 1
      && r.value[..|events|] == events && r.value[|events|] == eventData.(id := freshId)
      && forall id :: id != freshId ==> RemoveId(r.value, id) == RemoveId(events, id) + [eventData.(id := freshId)]
  {
    var newEvent := eventData.(id := freshId);
    var r := events + [newEvent];
    TerminatingRemove(events, "");
    TerminatingCheckable(newEvent, RemoveId(events, ""));
    var submitted := Submitted(events, None, eventData, freshId);
    if submitted.Some? {
      assert submitted.value == r;
    }
    forall id | id != freshId
      ensures RemoveId(r, id) == RemoveId(events, id) + [newEvent]
    {
      RemoveIdAppend(events, [newEvent], id);
      assert RemoveId([newEvent], id) == [newEvent];
    }
  }

  /** The record a drop of a non-recurring entry puts in place of the old one. */
  function Redated(eventToUpdate: Event, destination: DateTime): (r: Event)
    ensures r == eventToUpdate.(date := r.date)
    ensures SameDay(r.date, destination) && r.date.minute == eventToUpdate.date.minute
  {
    eventToUpdate.(date := MoveToDay(destination, eventToUpdate.date))
  }

  /** The table `handleEventDrop` leaves. */
  function Dropped(events: seq<Event>, eventId: string, destination: DateTime, freshId: string): (r: seq<Event>)
    requires Terminating(events)
    ensures Terminating(r)
  {
    match FindById(events, eventId)
    case None => events
    case Some(eventToUpdate) =>
      var otherEvents := RemoveId(events, eventId);
      TerminatingRemove(events, eventId);
      if eventToUpdate.isRecurring then
        var newEvent := DetachedCopy(eventToUpdate, destination, freshId);
        TerminatingCheckable(newEvent, otherEvents);
        if CheckEventConflicts(newEvent, otherEvents) then events
        else
          TerminatingAppend(events, newEvent);
          events + [newEvent]
      else
        var updatedEvent := Redated(eventToUpdate, destination);
        TerminatingCheckable(updatedEvent, otherEvents);
        if CheckEventConflicts(updatedEvent, otherEvents) then events
        else
          TerminatingReplace(events, eventId, updatedEvent);
          ReplaceId(events, eventId, updatedEvent)
  }

  /** Dropping an id that is not in the table changes nothing. */
  lemma DropUnknownId(events: seq<Event>, eventId: string, destination: DateTime, freshId: string)
    requires Terminating(events) && forall x :: x in events ==> x.id != eventId
    ensures Dropped(events, eventId, destination, freshId) == events
  {
  }

  /**
   * Dropping a recurring instance keeps the table and, unless the copy
   * conflicts with the entries of other ids, appends the detached copy.
   */
  lemma DropRecurringInstance(events: seq<Event>, eventId: string, destination: DateTime, freshId: string)
    requires Terminating(events)
    requires FindById(events, eventId).Some? && FindById(events, eventId).value.isRecurring
    ensures var copy := DetachedCopy(FindById(events, eventId).value, destination, freshId);
      var r := Dropped(events, eventId, destination, freshId);
      && ConflictCheckable(copy, RemoveId(events, eventId))
      && (CheckEventConflicts(copy, RemoveId(events, eventId)) ==> r == events)
      && (!CheckEventConflicts(copy, RemoveId(events, eventId)) ==>
            r[..|events|] == events && |r| == |events| + 1 && r[|events|] == copy)
  {
  }

  /**
   * Dropping an entry that is not a recurring instance re-dates it in place,
   * keeping its time of day, unless that conflicts with the entries of other
   * ids; the other entries stay where they were.
   */
  lemma DropRedatesInPlace(events: seq<Event>, eventId: string, destination: DateTime, freshId: string)
    requires Terminating(events)
    requires FindById(events, eventId).Some? && !FindById(events, eventId).value.isRecurring
    ensures var found := FindById(events, eventId).value;
      var updatedEvent := Redated(found, destination);
      var r := Dropped(events, eventId, destination, freshId);
      && ConflictCheckable(updatedEvent, RemoveId(events, eventId))
      && (CheckEventConflicts(updatedEvent, RemoveId(events, eventId)) ==> r == events)
      && (!CheckEventConflicts(updatedEvent, RemoveId(events, eventId)) ==>
            && |r| == |events|
            && (forall i :: 0 <= i < |events| ==> r[i] == if events[i].id == eventId then updatedEvent else events[i])
            && updatedEvent in r
            && (forall x :: x in r && x.id == eventId ==> x == updatedEvent)
            && RemoveId(r, eventId) == RemoveId(events, eventId))
  {
    var found := FindById(events, eventId).value;
    var updatedEvent := Redated(found, destination);
    var r := Dropped(events, eventId, destination, freshId);
    TerminatingRemove(events, eventId);
    TerminatingCheckable(updatedEvent, RemoveId(events, eventId));
    if !CheckEventConflicts(updatedEvent, RemoveId(events, eventId)) {
      assert r == ReplaceId(events, eventId, updatedEvent);
      ReplaceInPlace(events, eventId, updatedEvent);
    }
  }

  // ---------------------------------------------------------------------
  // The component's state

  class CalendarApp {
    /** The stored events (templates and detached copies). */
    var events: seq<Event>
    /** Whether the event form is open. */
    var showEventForm: bool
    /** The event the form edits, or None when it creates one. */
    var selectedEvent: Option<Event>

    ghost predicate Valid()
      reads this
    {
      Terminating(events)
    }

    /** The state once the saved events are loaded. */
    constructor (savedEvents: seq<Event>)
      requires Terminating(savedEvents)
      ensures Valid()
      ensures events == savedEvents && !showEventForm && selectedEvent == None
    {
      events := savedEvents;
      showEventForm := false;
      selectedEvent := None;
    }

    /** `handleDayClick`: open an empty form. */
    method HandleDayClick()
      requires Valid()
      modifies this
      ensures Valid()
      ensures events == old(events) && showEventForm && selectedEvent == None
    {
      selectedEvent := None;
      showEventForm := true;
    }

    /** `handleEventClick`: open the form on an event. */
    method HandleEventClick(event: Event)
      requires Valid()
      modifies this
      ensures Valid()
      ensures events == old(events) && showEventForm && selectedEvent == Some(event)
    {
      selectedEvent := Some(event);
      showEventForm := true;
    }

    /**
     * `handleEventSubmit(eventData)`: commit the table `Submitted` computes
     * and close the form, or, when the conflict check vetoes, change nothing and keep
     * the form open.
     */
    method HandleEventSubmit(eventData: Event, freshId: string)
      requires Valid() && TerminatingRule(eventData)
      modifies this
      ensures Valid()
      ensures var r := Submitted(old(events), old(selectedEvent), eventData, freshId);
        && (r.None? ==> events == old(events) && showEventForm == old(showEventForm) && selectedEvent == old(selectedEvent))
        && (r.Some? ==> events == r.value && !showEventForm && selectedEvent == None)
    {
      var newEvent := SubmittedRecord(selectedEvent, eventData, freshId);
      var otherEvents := RemoveId(events, ExcludedId(selectedEvent));
      TerminatingRemove(events, ExcludedId(selectedEvent));
      TerminatingCheckable(newEvent, otherEvents);
      ghost var r := Submitted(events, selectedEvent, eventData, freshId);
      if CheckEventConflicts(newEvent, otherEvents) {
        assert r.None?;
        return;
      }
      var updatedEvents;
      if selectedEvent.Some? {
        updatedEvents := ReplaceId(events, selectedEvent.value.id, newEvent);
      } else {
        updatedEvents := events + [newEvent];
      }
      assert r == Some(updatedEvents);
      events := updatedEvents;
      showEventForm := false;
      selectedEvent := None;
    }

    /** `handleEventDelete(eventId)`: drop every entry with the id and close the form. */
    method HandleEventDelete(eventId: string)
      requires Valid()
      modifies this
      ensures Valid()
      ensures events == RemoveId(old(events), eventId) && !showEventForm && selectedEvent == None
    {
      events := RemoveId(events, eventId);
      showEventForm := false;
      selectedEvent := None;
    }

    /** `handleEventDrop(eventId, sourceDate, destinationDate)`: commit the table `Dropped` computes. */
    method HandleEventDrop(eventId: string, destination: DateTime, freshId: string)
      requires Valid()
      modifies this
      ensures Valid()
      ensures events == Dropped(old(events), eventId, destination, freshId)
      ensures showEventForm == old(showEventForm) && selectedEvent == old(selectedEvent)
    {
      ghost var r := Dropped(events, eventId, destination, freshId);
      var eventToUpdate := FindById(events, eventId);
      if eventToUpdate.None? {
        assert r == events;
        return;
      }
      var otherEvents := RemoveId(events, eventId);
      TerminatingRemove(events, eventId);
      if eventToUpdate.value.isRecurring {
        var newEvent := DetachedCopy(eventToUpdate.value, destination, freshId);
        TerminatingCheckable(newEvent, otherEvents);
        if CheckEventConflicts(newEvent, otherEvents) {
          assert r == events;
          return;
        }
        assert r == events + [newEvent];
        events := events + [newEvent];
        return;
      }
      var updatedEvent := Redated(eventToUpdate.value, destination);
      TerminatingCheckable(updatedEvent, otherEvents);
      if CheckEventConflicts(updatedEvent, otherEvents) {
        assert r == events;
        return;
      }
      assert r == ReplaceId(events, eventId, updatedEvent);
      events := ReplaceId(events, eventId, updatedEvent);
    }
  }
}
