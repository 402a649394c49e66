/**
  * The storage record of an event: its date (the seed, for a recurring
  * event), optional time, description and recurrence kind. The kind is None
  * for a fixed event; a null kind cannot be decoded.
  */
module JsonEvents {
  import opened Wrappers
  import opened Calendar
  import opened RecurringDates
  import opened Events

  datatype JsonEvent = JsonEvent(
    date: Date,
    time: Nullable<Time>,
    description: string,
    recurrenceType: Nullable<RecurrenceType>)

  /** Decoding dereferences the recurrence kind, so a null one fails. */
  datatype DecodeError = NullRecurrenceType

  /** JsonAdaptedEvent(Event source): a recurring event is stored by its seed and kind. */
  function FromEvent(e: Event): (j: JsonEvent)
    ensures j.date == StoredDate(e) && j.time == e.time && j.description == e.description
    ensures j.recurrenceType == Present(if e.Recurring? then e.rule.recurrenceType else None)
  {
    match e
    case Fixed(date, time, description) => JsonEvent(date, time, description, Present(None))
    case Recurring(rule, time, description) => JsonEvent(rule.seed, time, description, Present(rule.recurrenceType))
  }

  predicate HasTime(j: JsonEvent) {
    j.time != Null
  }

  /** JsonAdaptedEvent.toModelType. */
  function ToModelType(j: JsonEvent): (r: Result<Event, DecodeError>)
    ensures r.Err? <==> j.recurrenceType == Null
    ensures r.Ok? ==> (r.value.Fixed? <==> j.recurrenceType == Present(None))
  {
    match j.recurrenceType
    case Null => Err(NullRecurrenceType)
    case Present(kind) =>
      if kind == None then
        if HasTime(j) then Ok(Fixed(j.date, j.time, j.description))
        else Ok(Fixed(j.date, Null, j.description))
      else if HasTime(j) then
        Ok(NewRecurringEventWithTime(RecurringDate(j.date, kind), j.time.value, j.description))
      else
        Ok(NewRecurringEvent(RecurringDate(j.date, kind), j.description))
  }

  /** Decoding keeps the stored date, the time (present exactly when non-null) and the description. */
  lemma DecodeKeepsFields(j: JsonEvent)
    requires j.recurrenceType != Null
    ensures var e := ToModelType(j).value;
      && StoredDate(e) == j.date && e.time == j.time && e.description == j.description
      && (e.Recurring? ==> e.rule == RecurringDate(j.date, j.recurrenceType.value))
  {
  }

  /** A decoded record with an existing date is a well-formed event. */
  lemma DecodedEventIsValid(j: JsonEvent)
    requires j.recurrenceType != Null && ValidDate(j.date)
    ensures ValidEvent(ToModelType(j).value)
  {
  }

  /** Decoding an encoded event gives the event back. */
  lemma DecodeEncode(e: Event)
    requires ValidEvent(e)
    ensures ToModelType(FromEvent(e)) == Ok(e)
  {
  }

  /** Encoding a decoded record gives the record back. */
  lemma EncodeDecode(j: JsonEvent)
    requires j.recurrenceType != Null
    ensures ToModelType(j).Ok? && FromEvent(ToModelType(j).value) == j
  {
  }

  /**
    * A recurring event is stored under its seed, not under the date it
    * resolves to: once the seed has passed, and where the resolver's guard
    * holds, the two differ.
    */
  lemma EncodingIgnoresResolution(e: Event, now: Date)
    requires ValidEvent(e) && e.Recurring? && ValidDate(now)
    ensures FromEvent(e).date == e.rule.seed
    ensures DayFitsNextMonth(e.rule, now) && Before(e.rule.seed, now) ==>
      FromEvent(e).date != Events.GetDate(e, now)
  {
    if DayFitsNextMonth(e.rule, now) {
      RecurringDateNotBeforeNow(e, now);
    }
  }
}
