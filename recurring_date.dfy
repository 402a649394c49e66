/**
  * The recurrence resolver: a seed date and a kind (weekly or monthly) give,
  * for any reference date, the next occurrence of the seed's day of week or
  * day of month. `GetDate` is the resolver as the code writes it; the monthly
  * case where the reference's day does not exist in the next month makes it
  * step backwards (see `GetDateCanGoBackwards`). `NextOccurrence` is the same
  * resolver with that case corrected; it states what the code is meant to
  * return, while events resolve their dates with `GetDate`, as the code does.
  */
module RecurringDates {
  import opened Calendar

  datatype RecurrenceType = None | Weekly | Monthly

  /** A recurrence rule: the anchor date and how it repeats. */
  datatype RecurringDate = RecurringDate(seed: Date, recurrenceType: RecurrenceType)

  /** The rules the resolver accepts: an existing seed and a real recurrence. */
  predicate ValidRule(rule: RecurringDate) {
    ValidDate(rule.seed) && rule.recurrenceType != None
  }

  predicate IsSameDayOfMonth(d1: Date, d2: Date) {
    d1.day == d2.day
  }

  predicate IsSameDayOfWeek(d1: Date, d2: Date)
    requires ValidDate(d1) && ValidDate(d2)
  {
    DayOfWeek(d1) == DayOfWeek(d2)
  }

  /** The resolver as written: every kind other than Monthly takes the weekly branch. */
  function GetDate(rule: RecurringDate, date: Date): (r: Date)
    requires ValidRule(rule) && ValidDate(date)
    ensures ValidDate(r)
  {
    var seed := rule.seed;
    if date == seed then seed
    else if rule.recurrenceType == Monthly then
      var seedDay := seed.day;
      var day := date.day;
      if IsSameDayOfMonth(date, seed) then date
      else if day < seedDay then
        if seedDay > LengthOfMonth(date.year, date.month) then
          PlusDays(date, LengthOfMonth(date.year, date.month) - day)
        else
          PlusDays(date, seedDay - day)
      else
        MinusDays(PlusMonths(date, 1), day - seedDay)
    else
      var seedDay := DayOfWeek(seed);
      var day := DayOfWeek(date);
      if IsSameDayOfWeek(date, seed) then date
      else if day < seedDay then PlusDays(date, seedDay - day)
      else MinusDays(PlusWeeks(date, 1), day - seedDay)
  }

  /**
    * The resolver with the monthly "later day" case corrected: the result is
    * the seed's day in the next month, or that month's last day when the
    * month is too short. Every other case is `GetDate`'s.
    */
  function NextOccurrence(rule: RecurringDate, date: Date): (r: Date)
    requires ValidRule(rule) && ValidDate(date)
    ensures ValidDate(r)
  {
    if rule.recurrenceType == Monthly && date != rule.seed && date.day > rule.seed.day then
      var next := PlusMonths(date, 1);
      Date(next.year, next.month, Min(rule.seed.day, LengthOfMonth(next.year, next.month)))
    else
      GetDate(rule, date)
  }

  /**
    * The dates a rule stands for: monthly, the seed's day of month clamped to
    * the month's length; weekly, the seed's day of week.
    */
  predicate IsOccurrence(rule: RecurringDate, d: Date)
    requires ValidRule(rule) && ValidDate(d)
  {
    if rule.recurrenceType == Monthly then d.day == Min(rule.seed.day, LengthOfMonth(d.year, d.month))
    else DayOfWeek(d) == DayOfWeek(rule.seed)
  }

  /** `r` is the first occurrence of `rule` on or after `ref`. */
  ghost predicate IsNextOccurrence(rule: RecurringDate, ref: Date, r: Date)
    requires ValidRule(rule) && ValidDate(ref)
  {
    && ValidDate(r)
    && IsOccurrence(rule, r)
    && !Before(r, ref)
    && forall x :: ValidDate(x) && !Before(x, ref) && Before(x, r) ==> !IsOccurrence(rule, x)
  }

  /** The seed is an occurrence of its own rule. */
  lemma SeedIsOccurrence(rule: RecurringDate)
    requires ValidRule(rule)
    ensures IsOccurrence(rule, rule.seed)
  {
  }

  /** There is at most one first occurrence on or after a date. */
  lemma NextOccurrenceUnique(rule: RecurringDate, ref: Date, r1: Date, r2: Date)
    requires ValidRule(rule) && ValidDate(ref)
    requires IsNextOccurrence(rule, ref, r1) && IsNextOccurrence(rule, ref, r2)
    ensures r1 == r2
  {
    assert !Before(r1, r2);
    assert !Before(r2, r1);
  }

  /** Weekly resolution is `GetDate`'s: a shift of 0 to 6 days onto the seed's weekday. */
  lemma WeeklyShift(rule: RecurringDate, date: Date)
    requires ValidRule(rule) && ValidDate(date) && rule.recurrenceType != Monthly
    ensures var k := (DayOfWeek(rule.seed) - DayOfWeek(date)) % 7;
      && (date != rule.seed ==> GetDate(rule, date) == PlusDays(date, k))
      && (date == rule.seed ==> k == 0 && GetDate(rule, date) == date)
  {
    var s, w := DayOfWeek(rule.seed), DayOfWeek(date);
    var k := (s - w) % 7;
    if date == rule.seed {
    } else if w == s {
      assert k == 0;
      assert GetDate(rule, date) == date;
    } else if w < s {
      assert k == s - w;
      assert GetDate(rule, date) == PlusDays(date, s - w);
    } else {
      assert k == 7 - (w - s);
      assert GetDate(rule, date) == MinusDays(PlusWeeks(date, 1), w - s);
      PlusDaysAdd(date, 7, -(w - s));
    }
  }

  /** Two days fewer than a week apart fall on different days of the week. */
  lemma DifferentWeekdays(x: Date, y: Date)
    requires ValidDate(x) && ValidDate(y) && 0 < EpochDay(y) - EpochDay(x) < 7
    ensures DayOfWeek(x) != DayOfWeek(y)
  {
    var a, b := EpochDay(x) + 3, EpochDay(y) + 3;
    var qa, qb := a / 7, b / 7;
    assert a == 7 * qa + a % 7 && b == 7 * qb + b % 7;
  }

  /** The weekly shift lands on the seed's day of week. */
  lemma WeeklyShiftLands(rule: RecurringDate, date: Date)
    requires ValidRule(rule) && ValidDate(date)
    ensures var k := (DayOfWeek(rule.seed) - DayOfWeek(date)) % 7;
      0 <= k < 7 && DayOfWeek(PlusDays(date, k)) == DayOfWeek(rule.seed)
      && EpochDay(PlusDays(date, k)) == EpochDay(date) + k
  {
    var s, w := DayOfWeek(rule.seed), DayOfWeek(date);
    var k := (s - w) % 7;
    DayOfWeekPlusDays(date, k);
    PlusDaysEpochDay(date, k);
    WeekdayGap(s, w);
  }

  /** Moving forward from weekday w by (s - w) mod 7 days reaches weekday s. */
  lemma WeekdayGap(s: int, w: int)
    requires 1 <= s <= 7 && 1 <= w <= 7
    ensures 0 <= (s - w) % 7 < 7 && (w - 1 + (s - w) % 7) % 7 == s - 1
  {
    if s >= w {
      assert (s - w) % 7 == s - w;
    } else {
      assert (s - w) % 7 == s - w + 7;
    }
  }

  lemma WeeklyIsNext(rule: RecurringDate, date: Date)
    requires ValidRule(rule) && ValidDate(date) && rule.recurrenceType != Monthly
    ensures IsNextOccurrence(rule, date, GetDate(rule, date))
  {
    var k := (DayOfWeek(rule.seed) - DayOfWeek(date)) % 7;
    WeeklyShift(rule, date);
    WeeklyShiftLands(rule, date);
    var r := GetDate(rule, date);
    if date != rule.seed {
      assert r == PlusDays(date, k);
      BeforeIffEarlierEpochDay(r, date);
      forall x | ValidDate(x) && !Before(x, date) && Before(x, r)
        ensures !IsOccurrence(rule, x)
      {
        BeforeIffEarlierEpochDay(x, date);
        BeforeIffEarlierEpochDay(x, r);
        DifferentWeekdays(x, r);
      }
    }
  }

  lemma MonthlyIsNext(rule: RecurringDate, date: Date)
    requires ValidRule(rule) && ValidDate(date) && rule.recurrenceType == Monthly
    ensures IsNextOccurrence(rule, date, NextOccurrence(rule, date))
  {
    var seed := rule.seed;
    var r := NextOccurrence(rule, date);
    var len := LengthOfMonth(date.year, date.month);
    if date == seed || date.day == seed.day {
    } else if date.day < seed.day {
      var target := if seed.day > len then len else seed.day;
      assert r == Date(date.year, date.month, target);
    } else {
      PlusOneMonth(date);
      assert r.year == FirstOfNextMonth(date).year && r.month == FirstOfNextMonth(date).month;
    }
  }

  /**
    * The corrected resolver returns the first occurrence of the rule on or
    * after the reference date: never earlier, always on the seed's weekday or
    * (clamped) day of month, and skipping none.
    */
  lemma NextOccurrenceIsNext(rule: RecurringDate, date: Date)
    requires ValidRule(rule) && ValidDate(date)
    ensures IsNextOccurrence(rule, date, NextOccurrence(rule, date))
  {
    if rule.recurrenceType == Monthly {
      MonthlyIsNext(rule, date);
    } else {
      WeeklyIsNext(rule, date);
    }
  }

  /** Resolving a resolved date returns it unchanged. */
  lemma NextOccurrenceIdempotent(rule: RecurringDate, date: Date)
    requires ValidRule(rule) && ValidDate(date)
    ensures var r := NextOccurrence(rule, date); NextOccurrence(rule, r) == r
  {
    var r := NextOccurrence(rule, date);
    NextOccurrenceIsNext(rule, date);
    NextOccurrenceIsNext(rule, r);
    assert IsNextOccurrence(rule, r, r);
    NextOccurrenceUnique(rule, r, r, NextOccurrence(rule, r));
  }

  /**
    * The guard under which the code as written is right: in the monthly case
    * where the reference's day is past the seed's, that day exists in the
    * next month.
    */
  predicate DayFitsNextMonth(rule: RecurringDate, date: Date)
    requires ValidDate(date)
  {
    rule.recurrenceType == Monthly && date.day > rule.seed.day ==>
      date.day <= LengthOfMonth(FirstOfNextMonth(date).year, FirstOfNextMonth(date).month)
  }

  /** Every occurrence meets the guard: its day of month is never past the seed's. */
  lemma OccurrenceFitsNextMonth(rule: RecurringDate, d: Date)
    requires ValidRule(rule) && ValidDate(d) && IsOccurrence(rule, d)
    ensures DayFitsNextMonth(rule, d)
  {
  }

  /**
    * The code as written agrees with the corrected resolver except in the
    * monthly case where the reference's day is past the seed's and does not
    * exist in the next month.
    */
  lemma GetDateAgrees(rule: RecurringDate, date: Date)
    requires ValidRule(rule) && ValidDate(date)
    requires DayFitsNextMonth(rule, date)
    ensures GetDate(rule, date) == NextOccurrence(rule, date)
  {
    if rule.recurrenceType == Monthly && date != rule.seed && date.day > rule.seed.day {
      var next := PlusMonths(date, 1);
      PlusOneMonth(date);
      assert next == Date(next.year, next.month, date.day);
      var back := MinusDays(next, date.day - rule.seed.day);
      assert back == Date(next.year, next.month, rule.seed.day);
    }
  }

  /**
    * Where the guard holds, the code's result is the first occurrence on or
    * after the reference: in particular it is never before it.
    */
  lemma GetDateIsNextWhenGuarded(rule: RecurringDate, date: Date)
    requires ValidRule(rule) && ValidDate(date)
    requires DayFitsNextMonth(rule, date)
    ensures IsNextOccurrence(rule, date, GetDate(rule, date))
    ensures !Before(GetDate(rule, date), date)
  {
    GetDateAgrees(rule, date);
    NextOccurrenceIsNext(rule, date);
  }

  /**
    * Seed day 1, reference 2021-01-31: the code returns 2021-01-29, before the
    * reference, where 2021-02-01 is meant; and 2021-01-29 itself resolves to
    * 2021-01-31, so the code's result is not a fixed point either.
    */
  lemma GetDateCanGoBackwards()
    ensures var rule := RecurringDate(Date(2021, 1, 1), Monthly);
      && GetDate(rule, Date(2021, 1, 31)) == Date(2021, 1, 29)
      && Before(Date(2021, 1, 29), Date(2021, 1, 31))
      && GetDate(rule, Date(2021, 1, 29)) == Date(2021, 1, 31)
      && NextOccurrence(rule, Date(2021, 1, 31)) == Date(2021, 2, 1)
  {
    var rule := RecurringDate(Date(2021, 1, 1), Monthly);
    assert PlusMonths(Date(2021, 1, 31), 1) == Date(2021, 2, 28);
    assert PlusDays(Date(2021, 2, 28), -30) == Date(2021, 1, 29) by {
      assert LastOfPreviousMonth(Date(2021, 2, 28)) == Date(2021, 1, 31);
    }
    assert PlusMonths(Date(2021, 1, 29), 1) == Date(2021, 2, 28);
    assert PlusDays(Date(2021, 2, 28), -28) == Date(2021, 1, 31) by {
      assert LastOfPreviousMonth(Date(2021, 2, 28)) == Date(2021, 1, 31);
    }
  }

  /** Resolving at the seed returns the seed, whatever the kind. */
  lemma ResolveAtSeed(rule: RecurringDate)
    requires ValidRule(rule)
    ensures GetDate(rule, rule.seed) == rule.seed
    ensures NextOccurrence(rule, rule.seed) == rule.seed
  {
  }

  /**
    * Weekly: the result has the seed's day of week, lies in the seven days
    * starting at the reference, and resolves to itself.
    */
  lemma WeeklyWithinAWeek(rule: RecurringDate, date: Date)
    requires ValidRule(rule) && ValidDate(date) && rule.recurrenceType == Weekly
    ensures var r := GetDate(rule, date);
      && DayOfWeek(r) == DayOfWeek(rule.seed)
      && EpochDay(date) <= EpochDay(r) <= EpochDay(date) + 6
      && GetDate(rule, r) == r
  {
    var r := GetDate(rule, date);
    WeeklyShift(rule, date);
    WeeklyIsNext(rule, date);
    PlusDaysEpochDay(date, (DayOfWeek(rule.seed) - DayOfWeek(date)) % 7);
    NextOccurrenceIdempotent(rule, date);
  }

  /**
    * Monthly: a reference on the seed's day of month is returned as is; an
    * earlier day moves to the seed's day in the same month, or to the month's
    * last day when the month is too short.
    */
  lemma MonthlySameOrEarlierDay(rule: RecurringDate, date: Date)
    requires ValidRule(rule) && ValidDate(date) && rule.recurrenceType == Monthly
    requires date.day <= rule.seed.day
    ensures GetDate(rule, date) ==
      Date(date.year, date.month, Min(rule.seed.day, LengthOfMonth(date.year, date.month)))
  {
  }

  /**
    * Monthly, a later day of month: the code takes the same day one month on
    * (clamped) and steps back by the difference; when the reference's day
    * exists in the next month, that is the seed's day of the next month.
    */
  lemma MonthlyLaterDay(rule: RecurringDate, date: Date)
    requires ValidRule(rule) && ValidDate(date) && rule.recurrenceType == Monthly
    requires date.day > rule.seed.day
    ensures GetDate(rule, date) == MinusDays(PlusMonths(date, 1), date.day - rule.seed.day)
    ensures var f := FirstOfNextMonth(date);
      date.day <= LengthOfMonth(f.year, f.month) ==> GetDate(rule, date) == Date(f.year, f.month, rule.seed.day)
  {
    var f := FirstOfNextMonth(date);
    if date.day <= LengthOfMonth(f.year, f.month) {
      GetDateAgrees(rule, date);
      PlusOneMonth(date);
    }
  }

  /** The resolver's regression cases, weekly and monthly, with seeds 2021-03-14, 2021-03-31 and 2024-02-29. */
  lemma ResolverExamples()
    ensures var weekly := RecurringDate(Date(2021, 3, 14), Weekly);
      && GetDate(weekly, Date(2021, 3, 14)) == Date(2021, 3, 14)
      && GetDate(weekly, Date(2021, 3, 15)) == Date(2021, 3, 21)
      && GetDate(weekly, Date(2021, 3, 8)) == Date(2021, 3, 14)
      && GetDate(weekly, Date(2021, 3, 7)) == Date(2021, 3, 7)
    ensures var monthly := RecurringDate(Date(2021, 3, 14), Monthly);
      && GetDate(monthly, Date(2021, 3, 14)) == Date(2021, 3, 14)
      && GetDate(monthly, Date(2021, 4, 14)) == Date(2021, 4, 14)
      && GetDate(monthly, Date(2021, 3, 15)) == Date(2021, 4, 14)
      && GetDate(monthly, Date(2021, 3, 8)) == Date(2021, 3, 14)
      && GetDate(monthly, Date(2021, 2, 15)) == Date(2021, 3, 14)
    ensures GetDate(RecurringDate(Date(2021, 3, 31), Monthly), Date(2024, 2, 29)) == Date(2024, 2, 29)
    ensures var leap := RecurringDate(Date(2024, 2, 29), Monthly);
      && GetDate(leap, Date(2023, 2, 10)) == Date(2023, 2, 28)
      && GetDate(leap, Date(2028, 2, 1)) == Date(2028, 2, 29)
  {
    EpochAnchors();
    var weekly := RecurringDate(Date(2021, 3, 14), Weekly);
    assert PlusDays(Date(2021, 3, 7), 7) == Date(2021, 3, 14);
    PlusDaysEpochDay(Date(2021, 3, 14), 1);
    PlusDaysEpochDay(Date(2021, 3, 7), 7);
    PlusDaysEpochDay(Date(2021, 3, 8), 6);
    assert DayOfWeek(Date(2021, 3, 15)) == 1;
    assert DayOfWeek(Date(2021, 3, 8)) == 1;
    assert DayOfWeek(Date(2021, 3, 7)) == 7;
    assert PlusDays(Date(2021, 3, 15), 6) == Date(2021, 3, 21);
    var monthly := RecurringDate(Date(2021, 3, 14), Monthly);
    assert PlusMonths(Date(2021, 3, 15), 1) == Date(2021, 4, 15);
    assert PlusDays(Date(2021, 4, 15), -1) == Date(2021, 4, 14);
    assert PlusMonths(Date(2021, 2, 15), 1) == Date(2021, 3, 15);
    assert PlusDays(Date(2021, 3, 15), -1) == Date(2021, 3, 14);
  }
}
