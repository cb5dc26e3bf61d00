/**
  The proleptic Gregorian calendar on whole days (Gregorian rules for
  every year, including those before the 1582 reform).

  A `Day` is the number of whole days since 2001-01-01 (Foundation's
  reference date, a Monday), read in the calendar's time zone. This module
  stands in for the calendar object the engine is given: it converts between
  day numbers and (year, month, day) fields, gives weekdays, resolves
  Foundation's lenient "date from components", and adds calendar months.
 */
module Gregorian {

  /** Whole days since 2001-01-01. */
  type Day = int

  /** A weekday number as Foundation counts them: 1 = Sunday, ..., 7 = Saturday. */
  type Weekday = w: int | 1 <= w <= 7 witness 1

  /** Year, month (1..12) and day-of-month fields of a date. */
  datatype Civil = Civil(year: int, month: int, day: int)

  const DaysPerWeek: int := 7

  /** Days in 400 Gregorian years: the calendar repeats with this period. */
  const DaysPer400Years: int := 146097

  predicate IsLeapYear(y: int) {
    y % 4 == 0 && (y % 100 != 0 || y % 400 == 0)
  }

  function YearLength(y: int): (n: int)
    ensures n == 365 || n == 366
    ensures n == 366 <==> IsLeapYear(y)
  {
    if IsLeapYear(y) then 366 else 365
  }

  /** Length of month `m` of year `y`. */
  function DaysInMonth(y: int, m: int): (n: int)
    requires 1 <= m <= 12
    ensures 28 <= n <= 31
    ensures m == 2 ==> (n == 29 <==> IsLeapYear(y))
    ensures m != 2 ==> n == (if m in {4, 6, 9, 11} then 30 else 31)
  {
    if m == 2 then (if IsLeapYear(y) then 29 else 28)
    else if m == 4 || m == 6 || m == 9 || m == 11 then 30
    else 31
  }

  predicate ValidCivil(c: Civil) {
    1 <= c.month <= 12 && 1 <= c.day <= DaysInMonth(c.year, c.month)
  }

  /** Day number of January 1 of year `y`: each year starts where the one before it ends. */
  function YearStart(y: int): Day
    decreases if y < 2001 then 2001 - y else y - 2001
  {
    if y == 2001 then 0
    else if y > 2001 then YearStart(y - 1) + YearLength(y - 1)
    else YearStart(y + 1) - YearLength(y)
  }

  /** Days of year `y` that come before month `m`. */
  function MonthStart(y: int, m: int): (n: int)
    requires 1 <= m <= 12
    ensures 0 <= n <= 335
  {
    var before :=
      if m <= 6 then (if m == 1 then 0 else if m == 2 then 31 else if m == 3 then 59
                      else if m == 4 then 90 else if m == 5 then 120 else 151)
      else (if m == 7 then 181 else if m == 8 then 212 else if m == 9 then 243
            else if m == 10 then 273 else if m == 11 then 304 else 334);
    if m > 2 && IsLeapYear(y) then before + 1 else before
  }

  /** Day number of a valid date. */
  function DaysFromCivil(c: Civil): Day
    requires ValidCivil(c)
  {
    YearStart(c.year) + MonthStart(c.year, c.month) + c.day - 1
  }

  lemma YearStartStep(y: int)
    ensures YearStart(y + 1) == YearStart(y) + YearLength(y)
  {
  }

  /**
    January 1 of year `y` in closed form: 365 days for each year since 2001,
    plus one for each leap year among them.
   */
  lemma {:induction false} YearStartClosedForm(y: int)
    ensures var k := y - 2001;
            YearStart(y) == 365 * k + k / 4 - k / 100 + k / 400
    decreases if y < 2001 then 2001 - y else y - 2001
  {
    if y > 2001 {
      YearStartClosedForm(y - 1);
      LeapCountStep(y - 1);
    } else if y < 2001 {
      YearStartClosedForm(y + 1);
      LeapCountStep(y);
    }
  }

  /** The leap-day count of the closed form grows by one exactly after a leap year. */
  lemma LeapCountStep(y: int)
    ensures var k := y - 2001;
            (k + 1) / 4 - (k + 1) / 100 + (k + 1) / 400 == k / 4 - k / 100 + k / 400 + (if IsLeapYear(y) then 1 else 0)
  {
    FloorStep4(y);
    FloorStep100(y);
    FloorStep400(y);
  }

  // One more year since 2001 adds one to the count of multiples of 4, 100 or 400 exactly on those years.

  lemma FloorStep4(y: int)
    ensures (y - 2000) / 4 - (y - 2001) / 4 == if y % 4 == 0 then 1 else 0
  {
  }

  lemma FloorStep100(y: int)
    ensures (y - 2000) / 100 - (y - 2001) / 100 == if y % 100 == 0 then 1 else 0
  {
  }

  lemma FloorStep400(y: int)
    ensures (y - 2000) / 400 - (y - 2001) / 400 == if y % 400 == 0 then 1 else 0
  {
  }

  lemma {:induction false} YearStartMonotone(a: int, b: int)
    requires a <= b
    ensures YearStart(a) <= YearStart(b)
    decreases b - a
  {
    if a < b {
      YearStartStep(a);
      YearStartMonotone(a + 1, b);
    }
  }

  /** Every 400 years the calendar starts over, 146097 days later. */
  lemma CycleStart(q: int)
    ensures YearStart(2001 + 400 * q) == DaysPer400Years * q
  {
    YearStartClosedForm(2001 + 400 * q);
    var k := 400 * q;
    assert k / 4 == 100 * q;
    assert k / 100 == 4 * q;
    assert k / 400 == q;
  }

  lemma MonthStartStep(y: int, m: int)
    requires 1 <= m <= 12
    ensures MonthStart(y, m) + DaysInMonth(y, m) == if m == 12 then YearLength(y) else MonthStart(y, m + 1)
  {
  }

  /** The year whose days include day `n`, searched upwards from year `y`. */
  function FindYear(n: Day, y: int): (r: int)
    requires YearStart(y) <= n
    ensures y <= r
    ensures YearStart(r) <= n < YearStart(r + 1)
    decreases n - YearStart(y)
  {
    YearStartStep(y);
    if n < YearStart(y + 1) then y else FindYear(n, y + 1)
  }

  /** The month of year `y` holding day-of-year `doy` (0-based), searched upwards from month `m`. */
  function FindMonth(y: int, doy: int, m: int): (r: int)
    requires 1 <= m <= 12
    requires MonthStart(y, m) <= doy < YearLength(y)
    ensures m <= r <= 12
    ensures MonthStart(y, r) <= doy < MonthStart(y, r) + DaysInMonth(y, r)
    decreases 12 - m
  {
    MonthStartStep(y, m);
    if m == 12 || doy < MonthStart(y, m + 1) then m else FindMonth(y, doy, m + 1)
  }

  /** The same month and day, `k` years later. */
  function ShiftYears(c: Civil, k: int): Civil {
    Civil(c.year + k, c.month, c.day)
  }

  /** Leap years repeat every 400 years. */
  lemma LeapYearsRepeat(y: int)
    ensures IsLeapYear(y + 400) == IsLeapYear(y)
  {
  }

  /** Moving a valid date 400 years on keeps it valid and moves its day number 146097 days on. */
  lemma FourCenturiesLater(c: Civil)
    requires ValidCivil(c)
    ensures ValidCivil(ShiftYears(c, 400))
    ensures DaysFromCivil(ShiftYears(c, 400)) == DaysFromCivil(c) + DaysPer400Years
  {
    LeapYearsRepeat(c.year);
    YearStartClosedForm(c.year);
    YearStartClosedForm(c.year + 400);
    var k := c.year - 2001;
    assert (k + 400) / 4 == k / 4 + 100;
    assert (k + 400) / 100 == k / 100 + 4;
    assert (k + 400) / 400 == k / 400 + 1;
  }

  /** Moving a valid date 400 years back keeps it valid and moves its day number 146097 days back. */
  lemma FourCenturiesEarlier(c: Civil)
    requires ValidCivil(c)
    ensures ValidCivil(ShiftYears(c, -400))
    ensures DaysFromCivil(ShiftYears(c, -400)) == DaysFromCivil(c) - DaysPer400Years
  {
    var d := ShiftYears(c, -400);
    LeapYearsRepeat(d.year);
    FourCenturiesLater(d);
    assert ShiftYears(d, 400) == c;
  }

  /**
    The fields of day `n`: a valid date whose day number is `n`. Days outside
    the 400 years from 2001 are first brought into them, as the calendar
    repeats every 146097 days.
   */
  function CivilFromDays(n: Day): (c: Civil)
    ensures ValidCivil(c)
    ensures DaysFromCivil(c) == n
    decreases n < 0, if n < 0 then -n else n
  {
    if n < 0 then
      var c := CivilFromDays(n + DaysPer400Years);
      FourCenturiesEarlier(c);
      ShiftYears(c, -400)
    else if n >= DaysPer400Years then
      var c := CivilFromDays(n - DaysPer400Years);
      FourCenturiesLater(c);
      ShiftYears(c, 400)
    else
      CycleStart(1);
      var y := FindYear(n, 2001);
      YearStartStep(y);
      var doy := n - YearStart(y);
      var m := FindMonth(y, doy, 1);
      Civil(y, m, doy - MonthStart(y, m) + 1)
  }

  /** The days of a valid year run from its January 1 to the day before the next January 1. */
  lemma DaysFromCivilInYear(c: Civil)
    requires ValidCivil(c)
    ensures YearStart(c.year) <= DaysFromCivil(c) < YearStart(c.year + 1)
  {
    YearStartStep(c.year);
    MonthStartStep(c.year, c.month);
    if c.month < 12 {
      MonthStartOrder(c.year, c.month + 1, 12);
      MonthStartStep(c.year, 12);
    }
  }

  lemma MonthStartOrder(y: int, a: int, b: int)
    requires 1 <= a <= b <= 12
    ensures MonthStart(y, a) <= MonthStart(y, b)
    ensures a < b ==> MonthStart(y, a) + DaysInMonth(y, a) <= MonthStart(y, b)
  {
  }

  /** Two valid dates with the same day number are the same date. */
  lemma {:induction false} DaysFromCivilInjective(c: Civil, d: Civil)
    requires ValidCivil(c) && ValidCivil(d)
    requires DaysFromCivil(c) == DaysFromCivil(d)
    ensures c == d
  {
    DaysFromCivilInYear(c);
    DaysFromCivilInYear(d);
    if c.year < d.year {
      YearStartMonotone(c.year + 1, d.year);
      assert false;
    } else if d.year < c.year {
      YearStartMonotone(d.year + 1, c.year);
      assert false;
    }
    if c.month < d.month {
      MonthStartOrder(c.year, c.month, d.month);
      assert false;
    } else if d.month < c.month {
      MonthStartOrder(c.year, d.month, c.month);
      assert false;
    }
  }

  /** Reading the fields of a valid date's day number gives the date back. */
  lemma CivilRoundTrip(c: Civil)
    requires ValidCivil(c)
    ensures CivilFromDays(DaysFromCivil(c)) == c
  {
    DaysFromCivilInjective(CivilFromDays(DaysFromCivil(c)), c);
  }

  /** Weekday of day `n`; day 0 (2001-01-01) is a Monday. */
  function WeekdayOf(n: Day): Weekday {
    (n + 1) % DaysPerWeek + 1
  }

  /** Month count since year 0 of a date's (year, month): consecutive months differ by one. */
  function MonthIndex(c: Civil): int {
    12 * c.year + c.month - 1
  }

  /**
    Foundation's lenient `date(from:)` for year, month and day fields: a month
    outside 1..12 carries into the year, and a day outside the month counts on
    from the month's first day (day 0 is the last day of the month before).
   */
  function DateFromComponents(y: int, m: int, d: int): (n: Day)
    ensures ValidCivil(Civil(y, m, d)) ==> n == DaysFromCivil(Civil(y, m, d))
    ensures 1 <= m <= 12 ==> n == DaysFromCivil(Civil(y, m, 1)) + d - 1
    ensures m == 13 ==> n == DaysFromCivil(Civil(y + 1, 1, 1)) + d - 1
  {
    var y' := y + (m - 1) / 12;
    var m' := (m - 1) % 12 + 1;
    MonthCarry(m);
    DaysFromCivil(Civil(y', m', 1)) + d - 1
  }

  /** The year carry and month of a 1-based month number. */
  lemma MonthCarry(m: int)
    ensures 1 <= (m - 1) % 12 + 1 <= 12
    ensures 1 <= m <= 12 ==> (m - 1) / 12 == 0 && (m - 1) % 12 + 1 == m
    ensures m == 13 ==> (m - 1) / 12 == 1 && (m - 1) % 12 + 1 == 1
  {
  }

  /**
    Foundation's `date(byAdding: DateComponents(month: k), to: n)`: move the
    (year, month) by `k` months and keep the day-of-month, clamped to the
    length of the month reached.
   */
  function AddMonths(n: Day, k: int): (r: Day)
    ensures MonthIndex(CivilFromDays(r)) == MonthIndex(CivilFromDays(n)) + k
    ensures var c, c' := CivilFromDays(n), CivilFromDays(r);
            c'.day == if c.day <= DaysInMonth(c'.year, c'.month) then c.day else DaysInMonth(c'.year, c'.month)
  {
    var c := CivilFromDays(n);
    var total := MonthIndex(c) + k;
    var y, m := total / 12, total % 12 + 1;
    var d := if c.day <= DaysInMonth(y, m) then c.day else DaysInMonth(y, m);
    CivilRoundTrip(Civil(y, m, d));
    DaysFromCivil(Civil(y, m, d))
  }
}
