/**
  Concrete instances of the grid and navigation rules, on February 2024
  (a leap month whose day 1 is a Thursday) with weeks starting on Sunday.
 */
module Examples {
  import opened Gregorian
  import opened MNCalendar

  const Sunday: Weekday := 1

  /** A day of February 2024. */
  predicate InFebruary2024(c: Civil) {
    ValidCivil(c) && c.year == 2024 && c.month == 2
  }

  /** Day numbers around February 2024; day 1 is a Thursday, the fifth day of a Sunday-first week. */
  lemma February2024Days()
    ensures DaysFromCivil(Civil(2024, 1, 28)) == 8427
    ensures DaysFromCivil(Civil(2024, 2, 1)) == 8431
    ensures DaysFromCivil(Civil(2024, 3, 2)) == 8461
    ensures WeekdayOf(8431) == 5 && Ordinality(Sunday, 8431) == 5
  {
    YearStartClosedForm(2024);
  }

  /** 2024 is a leap year, so its February has 29 days. */
  lemma February2024Length()
    ensures DaysInMonth(2024, 2) == 29
  {
    assert IsLeapYear(2024);
  }

  /** Seen from any day of February 2024: day 1 is 2024-02-01 and the month has 29 days. */
  lemma February2024Month(c: Civil)
    requires InFebruary2024(c)
    ensures FirstDateOfMonth(DaysFromCivil(c)) == DaysFromCivil(Civil(2024, 2, 1))
    ensures GetNumberOfDaysInMonth(DaysFromCivil(c)) == 29
  {
    MonthOfCivil(c);
    assert Civil(c.year, c.month, 1) == Civil(2024, 2, 1);
    February2024Length();
    assert DaysInMonth(c.year, c.month) == DaysInMonth(2024, 2);
  }

  /** Any day of February 2024 meets the hypotheses of the two lemmas below. */
  lemma February2024IsThursdayLeapFebruary(c: Civil)
    requires InFebruary2024(c)
    ensures Ordinality(Sunday, FirstDateOfMonth(DaysFromCivil(c))) == 5
    ensures GetNumberOfDaysInMonth(DaysFromCivil(c)) == 29
  {
    February2024Month(c);
    February2024Days();
  }

  /**
    A 29-day month whose day 1 is the fifth day of a Sunday-first week, as
    February 2024 is: the month grid has five rows, starts four days before
    day 1 and ends two days after the month's last day.
   */
  lemma ThursdayLeapFebruaryGrid(n: Day)
    requires Ordinality(Sunday, FirstDateOfMonth(n)) == 5
    requires GetNumberOfDaysInMonth(n) == 29
    ensures var g := MonthGrid(Sunday, n);
            && |g| == 35
            && g[0] == FirstDateOfMonth(n) - 4
            && g[4] == FirstDateOfMonth(n)
            && g[34] == FirstDateOfMonth(n) + 30
  {
    DaysAcquisitionClosedForm(Sunday, n);
    assert DaysAcquisition(Sunday, n) == DaysPerWeek * ((4 + 29 + 6) / DaysPerWeek) == 35;
    var first := FirstDateOfMonth(n);
    var g := MonthGrid(Sunday, n);
    assert g == seq(35, i => first + i - 4);
  }

  /**
    Week mode in such a month: the row shown starts four days before the
    current day, so it starts on Sunday only when the current day falls on
    the same weekday as day 1 (2024-02-15, but not 2024-02-16).
   */
  lemma ThursdayLeapFebruaryWeek(n: Day)
    requires Ordinality(Sunday, FirstDateOfMonth(n)) == 5
    ensures var g := WeekGrid(Sunday, n);
            && g[0] == n - 4
            && (WeekdayOf(g[0]) == Sunday <==> (GetDay(n) - 1) % DaysPerWeek == 0)
  {
    WeekGridAlignedIff(Sunday, n);
  }

  /** One month after January 31 is the last day of February: the day is clamped. */
  lemma January31PlusOneMonth(y: int)
    ensures AddMonths(DaysFromCivil(Civil(y, 1, 31)), 1) == DaysFromCivil(Civil(y, 2, DaysInMonth(y, 2)))
  {
    var n := DaysFromCivil(Civil(y, 1, 31));
    var r := AddMonths(n, 1);
    var e := Civil(y, 2, DaysInMonth(y, 2));
    FieldsOfCivil(Civil(y, 1, 31));
    NextMonthFields(n);
    CivilRoundTrip(e);
    DaysFromCivilInjective(CivilFromDays(r), e);
  }
}
