/**
  * Proleptic Gregorian calendar arithmetic with the rules java.time.LocalDate
  * uses: the leap-year rule, month lengths, day arithmetic through the epoch
  * day (days since 1970-01-01), ISO day of week (Monday = 1 .. Sunday = 7) and
  * month arithmetic that clamps the day to the end of a short month.
  */
module Calendar {

  /** A calendar date; `ValidDate` says that it exists. Years are unbounded. */
  datatype Date = Date(year: int, month: int, day: int)

  /** LocalTime, as its nanosecond of the day (LocalTime.toNanoOfDay). */
  type Time = nat

  /** LocalTime.isAfter. */
  predicate TimeIsAfter(t: Time, u: Time) {
    t > u
  }

  function Min(a: int, b: int): int {
    if a <= b then a else b
  }

  predicate IsLeapYear(y: int) {
    y % 4 == 0 && (y % 100 != 0 || y % 400 == 0)
  }

  function YearLength(y: int): int {
    if IsLeapYear(y) then 366 else 365
  }

  /** LocalDate.lengthOfMonth: the number of days in month `m` of year `y`. */
  function LengthOfMonth(y: int, m: int): (n: int)
    requires 1 <= m <= 12
    ensures 28 <= n <= 31
    ensures n == 29 <==> m == 2 && IsLeapYear(y)
  {
    if m == 2 then (if IsLeapYear(y) then 29 else 28)
    else if m == 4 || m == 6 || m == 9 || m == 11 then 30
    else 31
  }

  predicate ValidDate(d: Date) {
    1 <= d.month <= 12 && 1 <= d.day <= LengthOfMonth(d.year, d.month)
  }

  /** Days of year `y` that precede the first day of month `m` (m = 13: the whole year). */
  function DaysBeforeMonth(y: int, m: int): (n: int)
    requires 1 <= m <= 13
    ensures 0 <= n <= YearLength(y)
    ensures m == 1 ==> n == 0
    ensures m == 13 ==> n == YearLength(y)
  {
    var common :=
      if m == 1 then 0 else if m == 2 then 31 else if m == 3 then 59
      else if m == 4 then 90 else if m == 5 then 120 else if m == 6 then 151
      else if m == 7 then 181 else if m == 8 then 212 else if m == 9 then 243
      else if m == 10 then 273 else if m == 11 then 304 else if m == 12 then 334
      else 365;
    common + (if m > 2 && IsLeapYear(y) then 1 else 0)
  }

  lemma DaysBeforeNextMonth(y: int, m: int)
    requires 1 <= m <= 12
    ensures DaysBeforeMonth(y, m + 1) == DaysBeforeMonth(y, m) + LengthOfMonth(y, m)
  {
  }

  lemma DaysBeforeMonthMonotone(y: int, m1: int, m2: int)
    requires 1 <= m1 <= m2 <= 13
    ensures DaysBeforeMonth(y, m1) <= DaysBeforeMonth(y, m2)
  {
  }

  /** Days from the first day of year 0 to the first day of year `y`; floor division. */
  function DaysBeforeYear(y: int): int {
    365 * y + (y + 3) / 4 - (y + 99) / 100 + (y + 399) / 400
  }

  /** Floor division by a positive divisor steps up by one exactly at its multiples. */
  lemma FloorStep(y: int, k: int)
    requires k == 4 || k == 100 || k == 400
    ensures (y + k) / k == (y + k - 1) / k + (if y % k == 0 then 1 else 0)
  {
    var q, r := y / k, y % k;
    assert y == k * q + r && 0 <= r < k;
    assert (y + k) / k == q + 1 by {
      assert y + k == k * (q + 1) + r;
    }
    if r == 0 {
      assert y + k - 1 == k * q + (k - 1);
    } else {
      assert y + k - 1 == k * (q + 1) + (r - 1);
    }
  }

  /** A multiple of 400 is a multiple of 100, and a multiple of 100 a multiple of 4. */
  lemma MultiplesNest(y: int)
    ensures y % 400 == 0 ==> y % 100 == 0
    ensures y % 100 == 0 ==> y % 4 == 0
  {
    if y % 400 == 0 {
      var q := y / 400;
      assert y == 100 * (4 * q);
    }
    if y % 100 == 0 {
      var q := y / 100;
      assert y == 4 * (25 * q);
    }
  }

  lemma DaysBeforeNextYear(y: int)
    ensures DaysBeforeYear(y + 1) == DaysBeforeYear(y) + YearLength(y)
  {
    FloorStep(y, 4);
    FloorStep(y, 100);
    FloorStep(y, 400);
    MultiplesNest(y);
    var c4 := (y + 4) / 4 - (y + 3) / 4;
    var c100 := (y + 100) / 100 - (y + 99) / 100;
    var c400 := (y + 400) / 400 - (y + 399) / 400;
    assert DaysBeforeYear(y + 1) - DaysBeforeYear(y) == 365 + c4 - c100 + c400;
    assert YearLength(y) == 365 + c4 - c100 + c400;
  }

  lemma {:induction false} DaysBeforeYearMonotone(a: int, b: int)
    requires a <= b
    ensures DaysBeforeYear(a) + 365 * (b - a) <= DaysBeforeYear(b)
    decreases b - a
  {
    if a < b {
      DaysBeforeYearMonotone(a, b - 1);
      DaysBeforeNextYear(b - 1);
    }
  }

  /** LocalDate.toEpochDay: the number of days from 1970-01-01 to `d`. */
  function EpochDay(d: Date): int
    requires ValidDate(d)
  {
    DaysBeforeYear(d.year) - DaysBeforeYear(1970) + DaysBeforeMonth(d.year, d.month) + d.day - 1
  }

  /** LocalDate.isBefore: the lexicographic order on (year, month, day). */
  predicate Before(a: Date, b: Date) {
    a.year < b.year
    || (a.year == b.year && (a.month < b.month || (a.month == b.month && a.day < b.day)))
  }

  /** A date lies in its year: it is preceded by fewer days of its year than the year has. */
  lemma DayOfYearBounds(d: Date)
    requires ValidDate(d)
    ensures 0 <= DaysBeforeMonth(d.year, d.month) + d.day - 1 < YearLength(d.year)
  {
    DaysBeforeNextMonth(d.year, d.month);
    DaysBeforeMonthMonotone(d.year, d.month + 1, 13);
  }

  lemma BeforeImpliesEarlierEpochDay(a: Date, b: Date)
    requires ValidDate(a) && ValidDate(b) && Before(a, b)
    ensures EpochDay(a) < EpochDay(b)
  {
    DayOfYearBounds(a);
    DayOfYearBounds(b);
    if a.year < b.year {
      DaysBeforeNextYear(a.year);
      DaysBeforeYearMonotone(a.year + 1, b.year);
    } else if a.month < b.month {
      DaysBeforeNextMonth(a.year, a.month);
      DaysBeforeMonthMonotone(a.year, a.month + 1, b.month);
    }
  }

  /** The lexicographic order of LocalDate agrees with the order of epoch days. */
  lemma BeforeIffEarlierEpochDay(a: Date, b: Date)
    requires ValidDate(a) && ValidDate(b)
    ensures Before(a, b) <==> EpochDay(a) < EpochDay(b)
  {
    if Before(a, b) {
      BeforeImpliesEarlierEpochDay(a, b);
    } else if a != b {
      BeforeImpliesEarlierEpochDay(b, a);
    }
  }

  /** Distinct valid dates have distinct epoch days. */
  lemma EpochDayInjective(a: Date, b: Date)
    requires ValidDate(a) && ValidDate(b) && EpochDay(a) == EpochDay(b)
    ensures a == b
  {
    if a != b {
      if Before(a, b) {
        BeforeImpliesEarlierEpochDay(a, b);
      } else {
        BeforeImpliesEarlierEpochDay(b, a);
      }
    }
  }

  function FirstOfNextMonth(d: Date): (r: Date)
    requires ValidDate(d)
    ensures ValidDate(r) && r.day == 1
  {
    if d.month < 12 then Date(d.year, d.month + 1, 1) else Date(d.year + 1, 1, 1)
  }

  function LastOfPreviousMonth(d: Date): (r: Date)
    requires ValidDate(d)
    ensures ValidDate(r)
  {
    if d.month > 1 then Date(d.year, d.month - 1, LengthOfMonth(d.year, d.month - 1))
    else Date(d.year - 1, 12, 31)
  }

  lemma FirstOfNextMonthEpochDay(d: Date)
    requires ValidDate(d)
    ensures EpochDay(FirstOfNextMonth(d)) == EpochDay(d) + LengthOfMonth(d.year, d.month) - d.day + 1
  {
    DaysBeforeNextMonth(d.year, d.month);
    if d.month == 12 {
      DaysBeforeNextYear(d.year);
    }
  }

  lemma LastOfPreviousMonthEpochDay(d: Date)
    requires ValidDate(d)
    ensures EpochDay(LastOfPreviousMonth(d)) == EpochDay(d) - d.day
  {
    if d.month > 1 {
      DaysBeforeNextMonth(d.year, d.month - 1);
    } else {
      DaysBeforeNextYear(d.year - 1);
    }
  }

  /**
    * LocalDate.plusDays: moves `n` days forward (backward when `n` is negative),
    * one month at a time.
    */
  function PlusDays(d: Date, n: int): (r: Date)
    requires ValidDate(d)
    ensures ValidDate(r)
    decreases if n >= 0 then n else -n
  {
    var len := LengthOfMonth(d.year, d.month);
    if n >= 0 then
      if d.day + n <= len then Date(d.year, d.month, d.day + n)
      else PlusDays(FirstOfNextMonth(d), n - (len - d.day + 1))
    else
      if d.day + n >= 1 then Date(d.year, d.month, d.day + n)
      else PlusDays(LastOfPreviousMonth(d), n + d.day)
  }

  /** LocalDate.minusDays. */
  function MinusDays(d: Date, n: int): (r: Date)
    requires ValidDate(d)
    ensures ValidDate(r)
  {
    PlusDays(d, -n)
  }

  /** LocalDate.plusWeeks. */
  function PlusWeeks(d: Date, w: int): (r: Date)
    requires ValidDate(d)
    ensures ValidDate(r)
  {
    PlusDays(d, 7 * w)
  }

  /** Adding `n` days adds exactly `n` to the epoch day. */
  lemma {:induction false} PlusDaysEpochDay(d: Date, n: int)
    requires ValidDate(d)
    ensures EpochDay(PlusDays(d, n)) == EpochDay(d) + n
    decreases if n >= 0 then n else -n
  {
    var len := LengthOfMonth(d.year, d.month);
    if n >= 0 {
      if d.day + n > len {
        FirstOfNextMonthEpochDay(d);
        PlusDaysEpochDay(FirstOfNextMonth(d), n - (len - d.day + 1));
      }
    } else if d.day + n < 1 {
      LastOfPreviousMonthEpochDay(d);
      PlusDaysEpochDay(LastOfPreviousMonth(d), n + d.day);
    }
  }

  /** `PlusDays(d, n)` is the one valid date whose epoch day is `n` after `d`'s. */
  lemma PlusDaysUnique(d: Date, n: int, x: Date)
    requires ValidDate(d) && ValidDate(x) && EpochDay(x) == EpochDay(d) + n
    ensures x == PlusDays(d, n)
  {
    PlusDaysEpochDay(d, n);
    EpochDayInjective(x, PlusDays(d, n));
  }

  lemma PlusDaysAdd(d: Date, a: int, b: int)
    requires ValidDate(d)
    ensures PlusDays(PlusDays(d, a), b) == PlusDays(d, a + b)
  {
    PlusDaysEpochDay(d, a);
    PlusDaysEpochDay(PlusDays(d, a), b);
    PlusDaysUnique(d, a + b, PlusDays(PlusDays(d, a), b));
  }

  /** Adding days moves forward exactly when the count is positive. */
  lemma PlusDaysOrder(d: Date, n: int)
    requires ValidDate(d)
    ensures Before(d, PlusDays(d, n)) <==> n > 0
    ensures Before(PlusDays(d, n), d) <==> n < 0
  {
    PlusDaysEpochDay(d, n);
    BeforeIffEarlierEpochDay(d, PlusDays(d, n));
    BeforeIffEarlierEpochDay(PlusDays(d, n), d);
  }

  /** LocalDate.getDayOfWeek().getValue(): ISO numbering, Monday = 1 .. Sunday = 7. */
  function DayOfWeek(d: Date): (w: int)
    requires ValidDate(d)
    ensures 1 <= w <= 7
  {
    (EpochDay(d) + 3) % 7 + 1
  }

  lemma ModSevenShift(e: int, n: int)
    ensures (e + n) % 7 == (e % 7 + n) % 7
  {
    var q, r := e / 7, e % 7;
    var t, s := (r + n) / 7, (r + n) % 7;
    assert e + n == 7 * (q + t) + s && 0 <= s < 7;
  }

  /** Adding `n` days advances the day of week by `n`, cyclically. */
  lemma DayOfWeekPlusDays(d: Date, n: int)
    requires ValidDate(d)
    ensures DayOfWeek(PlusDays(d, n)) == (DayOfWeek(d) - 1 + n) % 7 + 1
  {
    PlusDaysEpochDay(d, n);
    ModSevenShift(EpochDay(d) + 3, n);
  }

  /**
    * LocalDate.plusMonths: moves the month by `n`, keeping the day of month
    * unless the target month is shorter, in which case it is its last day.
    */
  function PlusMonths(d: Date, n: int): (r: Date)
    requires ValidDate(d)
    ensures ValidDate(r)
    ensures r.year * 12 + r.month == d.year * 12 + d.month + n
  {
    var count := d.year * 12 + (d.month - 1) + n;
    var y := count / 12;
    var m := count % 12 + 1;
    Date(y, m, Min(d.day, LengthOfMonth(y, m)))
  }

  /** One month on lands in the following calendar month, on the same day or that month's last day. */
  lemma PlusOneMonth(d: Date)
    requires ValidDate(d)
    ensures var r := PlusMonths(d, 1);
      var f := FirstOfNextMonth(d);
      r.year == f.year && r.month == f.month && r.day == Min(d.day, LengthOfMonth(r.year, r.month))
  {
  }

  /** 1970-01-01 is epoch day 0 and a Thursday; 2021-03-14 is a Sunday. */
  lemma EpochAnchors()
    ensures EpochDay(Date(1970, 1, 1)) == 0 && DayOfWeek(Date(1970, 1, 1)) == 4
    ensures EpochDay(Date(2021, 3, 14)) == 18700 && DayOfWeek(Date(2021, 3, 14)) == 7
  {
  }
}
