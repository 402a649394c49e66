/**
  * The add-date command parser, after tokenising: the index preamble is
  * checked first, then the presence of the date and description prefixes;
  * the week prefix wins over the month prefix, and with neither the event is
  * fixed.
  */
module AddDateParser {
  import opened Wrappers
  import opened Calendar
  import opened RecurringDates
  import opened Events

  /** A prefixed argument: not given, given but rejected by its parser, or parsed. */
  datatype Field<T> = Absent | Unparsable | Parsed(value: T)

  /**
    * The tokenizer's output with the value parsers applied: `index` is Null
    * when the preamble is not a valid index; `week` and `month` record
    * whether those prefixes were given.
    */
  datatype Arguments = Arguments(
    index: Nullable<nat>,
    date: Field<Date>,
    description: Field<string>,
    week: bool,
    month: bool)

  datatype ParseError = InvalidCommandFormat | InvalidDate | InvalidDescription

  datatype AddDateCommand = AddDateCommand(index: nat, event: Event)

  predicate WellFormed(args: Arguments) {
    args.date.Parsed? ==> ValidDate(args.date.value)
  }

  /** AddDateCommandParser.parse. */
  function Parse(args: Arguments): (r: Result<AddDateCommand, ParseError>)
    requires WellFormed(args)
    ensures r.Ok? ==> ValidEvent(r.value.event)
  {
    if args.index == Null then Err(InvalidCommandFormat)
    else if args.date == Absent || args.description == Absent then Err(InvalidCommandFormat)
    else if args.date == Unparsable then Err(InvalidDate)
    else if args.description == Unparsable then Err(InvalidDescription)
    else
      var index, date, description := args.index.value, args.date.value, args.description.value;
      if args.week then
        Ok(AddDateCommand(index, NewRecurringEvent(RecurringDate(date, Weekly), description)))
      else if args.month then
        Ok(AddDateCommand(index, NewRecurringEvent(RecurringDate(date, Monthly), description)))
      else
        Ok(AddDateCommand(index, Fixed(date, Null, description)))
  }

  /**
    * The usage error: an unparsable index, before anything else is looked
    * at, or a missing date or description prefix.
    */
  lemma UsageErrors(args: Arguments)
    requires WellFormed(args)
    ensures args.index == Null ==> Parse(args) == Err(InvalidCommandFormat)
    ensures args.date == Absent || args.description == Absent ==> Parse(args) == Err(InvalidCommandFormat)
    ensures Parse(args) == Err(InvalidCommandFormat) <==>
      args.index == Null || args.date == Absent || args.description == Absent
  {
  }

  /**
    * Once the index parses and both prefixes are given, the date is parsed
    * before the description: an unparsable date is reported as such even
    * when the description is unparsable too, and the description error
    * arises only from a date that parsed.
    */
  lemma ValueErrors(args: Arguments)
    requires WellFormed(args)
    ensures Parse(args) == Err(InvalidDate) <==>
      args.index.Present? && args.description != Absent && args.date == Unparsable
    ensures Parse(args) == Err(InvalidDescription) <==>
      args.index.Present? && args.date.Parsed? && args.description == Unparsable
  {
  }

  /** Parsing succeeds exactly when the index, the date and the description all parse. */
  lemma ParseSucceeds(args: Arguments)
    requires WellFormed(args)
    ensures Parse(args).Ok? <==> args.index.Present? && args.date.Parsed? && args.description.Parsed?
  {
  }

  /**
    * On success the command carries the parsed index and an event stored
    * with the parsed date and description, without a time, whose stored
    * kind is Weekly when the week prefix is given (even with the month
    * prefix), else Monthly when the month prefix is given, else None.
    */
  lemma ParsedEvent(args: Arguments)
    requires WellFormed(args) && Parse(args).Ok?
    ensures var c := Parse(args).value;
      && c.index == args.index.value
      && StoredDate(c.event) == args.date.value
      && c.event.description == args.description.value
      && c.event.time == Null
      && c.event.Recurring? == (args.week || args.month)
      && (c.event.Recurring? ==>
            c.event.rule.recurrenceType == (if args.week then Weekly else Monthly))
  {
  }
}
