/**
 * The event records the calendar stores and the recurrence rules they carry.
 */
module Events {
  import opened Calendar

  datatype Option<T> = None | Some(value: T)

  /**
   * `event.recurrence`. A missing or empty value behaves as 'none' and is
   * modelled by NoRecurrence; any other unrecognised string is kept by name.
   */
  datatype RecurrenceKind =
    | NoRecurrence
    | Daily
    | Weekly
    | Monthly
    | Custom
    | Unrecognised(name: string)

  /** `customRecurrence.frequency`; FrequencyOther stands for a missing or any other value. */
  datatype Frequency = FrequencyWeekly | FrequencyMonthly | FrequencyOther

  /**
   * `customRecurrence`: `interval` may be missing (it then defaults to 1), and
   * a missing `weekdays` list behaves as an empty one.
   */
  datatype CustomRecurrence = CustomRecurrence(frequency: Frequency, interval: Option<int>, weekdays: seq<int>)

  /** The descriptive fields, copied verbatim onto every occurrence. */
  datatype Details = Details(
    title: string,
    description: string,
    color: string,
    location: string,
    reminder: string,
    priority: string)

  /**
   * A stored event (a template) or one of its occurrences. A missing
   * `isRecurring` is false and a missing `originalEventId` is None.
   */
  datatype Event = Event(
    id: string,
    date: DateTime,
    recurrence: RecurrenceKind,
    customRecurrence: Option<CustomRecurrence>,
    isRecurring: bool,
    originalEventId: Option<string>,
    details: Details)
}
