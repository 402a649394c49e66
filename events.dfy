/**
  * Dated events: a fixed event whose date is stored, and a recurring event
  * (the RecurringEvent class) whose date is recomputed from its rule and the
  * current date every time it is asked for. The stored date a recurring event
  * inherits is its rule's seed.
  */
module Events {
  import opened Wrappers
  import opened Calendar
  import opened RecurringDates

  datatype Event =
    | Fixed(date: Date, time: Nullable<Time>, description: string)
    | Recurring(rule: RecurringDate, time: Nullable<Time>, description: string)

  predicate ValidEvent(e: Event) {
    match e
    case Fixed(date, _, _) => ValidDate(date)
    case Recurring(rule, _, _) => ValidRule(rule)
  }

  /** The date field every event carries; a recurring event stores its seed there. */
  function StoredDate(e: Event): Date {
    match e
    case Fixed(date, _, _) => date
    case Recurring(rule, _, _) => rule.seed
  }

  /** RecurringEvent(recurringDate, description): no time. */
  function NewRecurringEvent(rule: RecurringDate, description: string): (e: Event)
    ensures e.Recurring? && e.rule == rule
    ensures StoredDate(e) == rule.seed && e.time == Null && e.description == description
  {
    Recurring(rule, Null, description)
  }

  /** RecurringEvent(recurringDate, time, description). */
  function NewRecurringEventWithTime(rule: RecurringDate, time: Time, description: string): (e: Event)
    ensures e.Recurring? && e.rule == rule
    ensures StoredDate(e) == rule.seed && e.time == Present(time) && e.description == description
  {
    Recurring(rule, Present(time), description)
  }

  /** RecurringEvent.getSeed: the rule's seed, which is also the inherited stored date. */
  function GetSeed(e: Event): (seed: Date)
    requires e.Recurring?
    ensures seed == e.rule.seed && seed == StoredDate(e)
  {
    e.rule.seed
  }

  /** RecurringEvent.getRecurringDate. */
  function GetRecurringDate(e: Event): (rule: RecurringDate)
    requires e.Recurring?
    ensures rule.seed == StoredDate(e)
  {
    e.rule
  }

  /**
    * Event.getDate, with the clock read made a parameter: a fixed event's
    * stored date; a recurring event's date as its rule's resolver, written
    * as the code writes it, computes it from `now`.
    */
  function GetDate(e: Event, now: Date): (r: Date)
    requires ValidEvent(e) && ValidDate(now)
    ensures ValidDate(r)
    ensures e.Fixed? ==> r == e.date
    ensures e.Recurring? ==> r == RecurringDates.GetDate(e.rule, now)
  {
    match e
    case Fixed(date, _, _) => date
    case Recurring(rule, _, _) => RecurringDates.GetDate(rule, now)
  }

  /**
    * Where the resolver's guard holds, a recurring event's date is the first
    * occurrence of its rule on or after `now`: it is an occurrence, not
    * before `now`, and no occurrence lies in between.
    */
  lemma GetDateIsNextOccurrence(e: Event, now: Date)
    requires ValidEvent(e) && ValidDate(now) && e.Recurring? && DayFitsNextMonth(e.rule, now)
    ensures IsNextOccurrence(e.rule, now, GetDate(e, now))
  {
    GetDateIsNextWhenGuarded(e.rule, now);
  }

  /**
    * Where the guard holds, a recurring event's date does not lie before the
    * date it is asked at, and asking again at that date gives it back.
    */
  lemma RecurringDateNotBeforeNow(e: Event, now: Date)
    requires ValidEvent(e) && ValidDate(now) && e.Recurring? && DayFitsNextMonth(e.rule, now)
    ensures !Before(GetDate(e, now), now)
    ensures GetDate(e, GetDate(e, now)) == GetDate(e, now)
  {
    var r := GetDate(e, now);
    GetDateAgrees(e.rule, now);
    NextOccurrenceIsNext(e.rule, now);
    NextOccurrenceIdempotent(e.rule, now);
    OccurrenceFitsNextMonth(e.rule, r);
    GetDateAgrees(e.rule, r);
  }

  /**
    * Without the guard a recurring event can resolve to a date before `now`:
    * a monthly event seeded on 2021-01-01, asked on 2021-01-31, gives
    * 2021-01-29; asked again on that date it gives 2021-01-31.
    */
  lemma RecurringDateCanPrecedeNow()
    ensures var e := Recurring(RecurringDate(Date(2021, 1, 1), Monthly), Null, "x");
      && ValidEvent(e)
      && GetDate(e, Date(2021, 1, 31)) == Date(2021, 1, 29)
      && Before(GetDate(e, Date(2021, 1, 31)), Date(2021, 1, 31))
      && GetDate(e, GetDate(e, Date(2021, 1, 31))) != GetDate(e, Date(2021, 1, 31))
  {
    GetDateCanGoBackwards();
  }

  /**
    * Equality of recurring events is equality of rule, time and description:
    * the date they currently resolve to plays no part, and a recurring event
    * never equals a fixed one.
    */
  lemma RecurringEventEquality(a: Event, b: Event, now1: Date, now2: Date)
    requires ValidEvent(a) && ValidEvent(b) && a.Recurring? && ValidDate(now1) && ValidDate(now2)
    ensures b.Recurring? ==>
      (a == b <==> a.rule == b.rule && a.time == b.time && a.description == b.description)
    ensures b.Fixed? ==> a != b
    ensures a == b ==> StoredDate(a) == StoredDate(b) && GetDate(a, now1) == GetDate(b, now1)
  {
  }
}
