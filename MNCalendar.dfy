/**
  The MNCalendar date-grid engine.

  Date helpers over the Gregorian day model, the specification of the grid
  that `update()` computes for month and week mode, and the `MNCalendar`
  class: its reference date, display mode, selection, lazily assigned
  `dates`, and the notifications it sends to its delegate.
 */
module MNCalendar {
  import opened Gregorian

  datatype Mode = Week | Month

  datatype Option<T> = None | Some(value: T)

  /** A call made on the delegate. */
  datatype Notification =
    | DisplayDatesChanged(dates: seq<Day>)
    | SelectedDateChanged(date: Day)

  // ---------------------------------------------------------------------
  // Date helpers
  // ---------------------------------------------------------------------

  /** Year component of `n`: the year whose days include `n`. */
  function GetYear(n: Day): (y: int)
    ensures YearStart(y) <= n < YearStart(y + 1)
  {
    DaysFromCivilInYear(CivilFromDays(n));
    CivilFromDays(n).year
  }

  /** Month component of `n`. */
  function GetMonth(n: Day): (m: int)
    ensures 1 <= m <= 12
  {
    CivilFromDays(n).month
  }

  /** Day-of-month component of `n`. */
  function GetDay(n: Day): (d: int)
    ensures 1 <= d <= DaysInMonth(GetYear(n), GetMonth(n))
  {
    CivilFromDays(n).day
  }

  /** Whether `x` lies in the same month of the same year as `n`. */
  predicate InSameMonth(x: Day, n: Day) {
    GetYear(x) == GetYear(n) && GetMonth(x) == GetMonth(n)
  }

  /** Reading the fields of a valid date's day number gives its fields. */
  lemma FieldsOfCivil(c: Civil)
    requires ValidCivil(c)
    ensures GetYear(DaysFromCivil(c)) == c.year
    ensures GetMonth(DaysFromCivil(c)) == c.month
    ensures GetDay(DaysFromCivil(c)) == c.day
  {
    CivilRoundTrip(c);
  }

  /** Day 1 of `n`'s month: the year, month and day of `n` with the day set to 1. */
  function FirstDateOfMonth(n: Day): (r: Day)
    ensures GetYear(r) == GetYear(n) && GetMonth(r) == GetMonth(n) && GetDay(r) == 1
    ensures n - r == GetDay(n) - 1
  {
    var c := CivilFromDays(n);
    CivilRoundTrip(Civil(c.year, c.month, 1));
    DateFromComponents(c.year, c.month, 1)
  }

  lemma FirstDateOfMonthIdempotent(n: Day)
    ensures FirstDateOfMonth(FirstDateOfMonth(n)) == FirstDateOfMonth(n)
  {
  }

  /** Two days share day 1 of their month exactly when they share year and month. */
  lemma FirstDateOfMonthSameIff(a: Day, b: Day)
    ensures FirstDateOfMonth(a) == FirstDateOfMonth(b) <==> InSameMonth(a, b)
  {
    if InSameMonth(a, b) {
      assert CivilFromDays(FirstDateOfMonth(a)) == CivilFromDays(FirstDateOfMonth(b));
    }
  }

  /** Day 1 and the length of a date's month, read from the date's own fields. */
  lemma MonthOfCivil(c: Civil)
    requires ValidCivil(c)
    ensures FirstDateOfMonth(DaysFromCivil(c)) == DaysFromCivil(Civil(c.year, c.month, 1))
    ensures GetNumberOfDaysInMonth(DaysFromCivil(c)) == DaysInMonth(c.year, c.month)
  {
    FieldsOfCivil(c);
  }

  /** The last day of month `m` of year `y` is the day before day 1 of the next month. */
  lemma LastDayOfMonth(y: int, m: int)
    requires 1 <= m <= 12
    ensures DateFromComponents(y, m + 1, 0) == DaysFromCivil(Civil(y, m, DaysInMonth(y, m)))
  {
    MonthStartStep(y, m);
    if m == 12 {
      YearStartStep(y);
    }
  }

  /**
    getNumberOfDaysInMonth: the day component of "day 0 of the next month".
    It is the length of `n`'s month.
   */
  function GetNumberOfDaysInMonth(n: Day): (r: int)
    ensures r == DaysInMonth(GetYear(n), GetMonth(n))
    ensures 28 <= r <= 31
    ensures GetMonth(n) == 2 ==> (r == 29 <==> IsLeapYear(GetYear(n)))
  {
    var c := CivilFromDays(n);
    var lastDate := DateFromComponents(c.year, c.month + 1, 0);
    LastDayOfMonth(c.year, c.month);
    FieldsOfCivil(Civil(c.year, c.month, DaysInMonth(c.year, c.month)));
    GetDay(lastDate)
  }

  /** A day is in `n`'s month exactly when it lies between day 1 and the month's last day. */
  lemma InSameMonthIff(x: Day, n: Day)
    ensures InSameMonth(x, n) <==>
            FirstDateOfMonth(n) <= x < FirstDateOfMonth(n) + GetNumberOfDaysInMonth(n)
  {
    var first := FirstDateOfMonth(n);
    var c := CivilFromDays(n);
    if first <= x < first + GetNumberOfDaysInMonth(n) {
      var d := Civil(c.year, c.month, x - first + 1);
      assert DaysFromCivil(d) == x;
      FieldsOfCivil(d);
    }
  }

  /** getNumberOfDaysInWeek: a week has seven days whatever the date. */
  function GetNumberOfDaysInWeek(n: Day): (r: int)
    ensures r == DaysPerWeek
  {
    7
  }

  /** isSameDay: whether two dates fall on the same calendar day. */
  function IsSameDay(a: Day, b: Day): (r: bool)
    ensures r <==> a == b
  {
    CivilFromDays(a) == CivilFromDays(b)
  }

  /**
    The 1-based position of `n` within its week, counting from the weekday
    `firstWeekday` (Foundation's ordinality of `.day` in `.weekOfMonth`).
   */
  function Ordinality(firstWeekday: Weekday, n: Day): (r: int)
    ensures 1 <= r <= DaysPerWeek
    ensures WeekdayOf(n - (r - 1)) == firstWeekday
  {
    (WeekdayOf(n) - firstWeekday) % DaysPerWeek + 1
  }

  /** The first day of the week holding `n`. */
  function WeekStart(firstWeekday: Weekday, n: Day): (r: Day)
    ensures WeekdayOf(r) == firstWeekday
    ensures n - DaysPerWeek < r <= n
  {
    n - (Ordinality(firstWeekday, n) - 1)
  }

  /** Two days with the same weekday are a whole number of weeks apart. */
  lemma SameWeekdayWholeWeeks(a: Day, b: Day)
    ensures WeekdayOf(a) == WeekdayOf(b) <==> (b - a) % DaysPerWeek == 0
  {
  }

  /**
    daysAcquisition: the number of week rows that hold a day of `n`'s month
    (Foundation's range of `.weekOfMonth` in `.month`), times seven.
   */
  function DaysAcquisition(firstWeekday: Weekday, n: Day): (r: int)
    ensures r % DaysPerWeek == 0
    ensures 4 * DaysPerWeek <= r <= 6 * DaysPerWeek
    ensures r >= GetNumberOfDaysInMonth(n)
    ensures var first := FirstDateOfMonth(n);
            var last := first + GetNumberOfDaysInMonth(n) - 1;
            var start := WeekStart(firstWeekday, first);
            start + r - DaysPerWeek <= last <= start + r - 1
  {
    var first := FirstDateOfMonth(n);
    var last := first + GetNumberOfDaysInMonth(n) - 1;
    var firstWeek, lastWeek := WeekStart(firstWeekday, first), WeekStart(firstWeekday, last);
    SameWeekdayWholeWeeks(firstWeek, lastWeek);
    var numberOfWeeks := (lastWeek - firstWeek) / DaysPerWeek + 1;
    WeekRowsBounds(first, last, firstWeek, lastWeek, numberOfWeeks);
    var r := numberOfWeeks * DaysPerWeek;
    assert r % DaysPerWeek == 0;
    assert 4 * DaysPerWeek <= r <= 6 * DaysPerWeek;
    assert r >= last - first + 1;
    assert firstWeek + r - DaysPerWeek <= last <= firstWeek + r - 1;
    r
  }

  /**
    The number of cells in the month grid, counted directly: the blank
    cells before day 1 plus the month's days, rounded up to whole weeks.
   */
  lemma DaysAcquisitionClosedForm(firstWeekday: Weekday, n: Day)
    ensures DaysAcquisition(firstWeekday, n) ==
            DaysPerWeek * ((Ordinality(firstWeekday, FirstDateOfMonth(n)) - 1 + GetNumberOfDaysInMonth(n) + 6) / DaysPerWeek)
  {
    var first := FirstDateOfMonth(n);
    var x := Ordinality(firstWeekday, first) - 1 + GetNumberOfDaysInMonth(n);
    assert WeekStart(firstWeekday, first) == first - (Ordinality(firstWeekday, first) - 1);
    WholeWeeksCeiling(x, DaysAcquisition(firstWeekday, n));
  }

  /** The only multiple of seven in `x .. x + 6`. */
  lemma WholeWeeksCeiling(x: int, r: int)
    requires r % DaysPerWeek == 0 && x <= r <= x + 6
    ensures r == DaysPerWeek * ((x + 6) / DaysPerWeek)
  {
  }

  /** Arithmetic behind `DaysAcquisition`: the rows from the first day's week to the last day's. */
  lemma WeekRowsBounds(first: Day, last: Day, firstWeek: Day, lastWeek: Day, weeks: int)
    requires 28 <= last - first + 1 <= 31
    requires first - DaysPerWeek < firstWeek <= first && last - DaysPerWeek < lastWeek <= last
    requires (lastWeek - firstWeek) % DaysPerWeek == 0
    requires weeks == (lastWeek - firstWeek) / DaysPerWeek + 1
    ensures weeks * DaysPerWeek == lastWeek - firstWeek + DaysPerWeek
    ensures 4 <= weeks <= 6
    ensures (weeks * DaysPerWeek) % DaysPerWeek == 0
  {
  }

  // ---------------------------------------------------------------------
  // The grid `update()` computes
  // ---------------------------------------------------------------------

  /** Month mode: `DaysAcquisition` consecutive days from the start of the week holding day 1. */
  function MonthGrid(firstWeekday: Weekday, current: Day): (g: seq<Day>)
    ensures |g| % DaysPerWeek == 0 && |g| >= GetNumberOfDaysInMonth(current)
  {
    var first := FirstDateOfMonth(current);
    var ordinalityOfFirstDay := Ordinality(firstWeekday, first);
    seq(DaysAcquisition(firstWeekday, current), i => first + i - (ordinalityOfFirstDay - 1))
  }

  /**
    Week mode: seven consecutive days ending at `current` shifted by the
    offset of day 1 of `current`'s month in its week (not `current`'s own).
   */
  function WeekGrid(firstWeekday: Weekday, current: Day): (g: seq<Day>)
    ensures |g| == DaysPerWeek
  {
    var ordinalityOfFirstDay := Ordinality(firstWeekday, FirstDateOfMonth(current));
    seq(GetNumberOfDaysInWeek(current), i => current + i - (ordinalityOfFirstDay - 1))
  }

  function Grid(firstWeekday: Weekday, current: Day, mode: Mode): (g: seq<Day>)
    ensures |g| % DaysPerWeek == 0
  {
    match mode
    case Month => MonthGrid(firstWeekday, current)
    case Week => WeekGrid(firstWeekday, current)
  }

  /** The grid of either mode, element by element, as `update()` computes it. */
  lemma GridAt(firstWeekday: Weekday, current: Day, mode: Mode)
    ensures var g := Grid(firstWeekday, current, mode);
            var offset := Ordinality(firstWeekday, FirstDateOfMonth(current)) - 1;
            var anchor := if mode == Month then FirstDateOfMonth(current) else current;
            && |g| == (if mode == Month then DaysAcquisition(firstWeekday, current) else GetNumberOfDaysInWeek(current))
            && forall i :: 0 <= i < |g| ==> g[i] == anchor + (i - offset)
  {
  }

  /** Sequences that agree at every position are equal. */
  lemma SameElements(s: seq<Day>, t: seq<Day>)
    requires |s| == |t|
    requires forall i :: 0 <= i < |s| ==> s[i] == t[i]
    ensures s == t
  {
  }

  /** Each day is the first day plus its position: a run of consecutive days. */
  predicate Consecutive(s: seq<Day>) {
    forall i :: 0 <= i < |s| ==> s[i] == s[0] + i
  }

  /** Positions of `s` that hold `x`. */
  function Occurrences(s: seq<Day>, x: Day): set<int> {
    set i | 0 <= i < |s| && s[i] == x
  }

  /** In a run of consecutive days, a day of the run occurs at exactly one position. */
  lemma ConsecutiveOccursOnce(s: seq<Day>, x: Day)
    requires Consecutive(s) && |s| > 0
    requires s[0] <= x < s[0] + |s|
    ensures Occurrences(s, x) == {x - s[0]}
  {
  }

  /**
    Shape of the month grid: whole weeks, starting on the first day of the
    week that holds day 1, consecutive days, at least as many as the month has.
   */
  lemma MonthGridShape(firstWeekday: Weekday, current: Day)
    ensures var g := MonthGrid(firstWeekday, current);
            && |g| % DaysPerWeek == 0
            && |g| >= GetNumberOfDaysInMonth(current)
            && g[0] == WeekStart(firstWeekday, FirstDateOfMonth(current))
            && WeekdayOf(g[0]) == firstWeekday
            && Consecutive(g)
  {
  }

  /** Every day of the current month appears exactly once in the month grid, and only there. */
  lemma MonthGridCoversMonth(firstWeekday: Weekday, current: Day, x: Day)
    requires InSameMonth(x, current)
    ensures var g := MonthGrid(firstWeekday, current);
            Occurrences(g, x) == {x - g[0]} && 0 <= x - g[0] < |g|
  {
    var g := MonthGrid(firstWeekday, current);
    InSameMonthIff(x, current);
    MonthGridShape(firstWeekday, current);
    ConsecutiveOccursOnce(g, x);
  }

  /** Days of the month grid outside the current month sit in its first or last row. */
  lemma MonthGridPadding(firstWeekday: Weekday, current: Day, i: int)
    requires 0 <= i < |MonthGrid(firstWeekday, current)|
    requires !InSameMonth(MonthGrid(firstWeekday, current)[i], current)
    ensures i < DaysPerWeek || i >= |MonthGrid(firstWeekday, current)| - DaysPerWeek
  {
    InSameMonthIff(MonthGrid(firstWeekday, current)[i], current);
  }

  /**
    Shape of the week grid: seven consecutive days starting the offset of
    day 1 of the month before `current`, so `current` is among them.
   */
  lemma WeekGridShape(firstWeekday: Weekday, current: Day)
    ensures var g := WeekGrid(firstWeekday, current);
            && |g| == DaysPerWeek
            && Consecutive(g)
            && g[0] == current - (Ordinality(firstWeekday, FirstDateOfMonth(current)) - 1)
            && current in g
  {
    var g := WeekGrid(firstWeekday, current);
    var offset := Ordinality(firstWeekday, FirstDateOfMonth(current)) - 1;
    assert forall i :: 0 <= i < |g| ==> g[i] == current + i - offset;
    assert Consecutive(g);
    assert g[offset] == current;
  }

  /**
    The week grid starts on a week's first day exactly when `current` falls on
    the same weekday as day 1 of its month.
   */
  lemma WeekGridAlignedIff(firstWeekday: Weekday, current: Day)
    ensures WeekdayOf(WeekGrid(firstWeekday, current)[0]) == firstWeekday <==>
            (GetDay(current) - 1) % DaysPerWeek == 0
  {
    var first := FirstDateOfMonth(current);
    var g0 := WeekGrid(firstWeekday, current)[0];
    var start := WeekStart(firstWeekday, first);
    assert g0 - start == GetDay(current) - 1;
    SameWeekdayWholeWeeks(start, g0);
  }

  /** The grid shown in either mode is whole weeks of consecutive days. */
  lemma GridWholeWeeks(firstWeekday: Weekday, current: Day, mode: Mode)
    ensures |Grid(firstWeekday, current, mode)| % DaysPerWeek == 0
    ensures Consecutive(Grid(firstWeekday, current, mode))
  {
    if mode == Month {
      assert Grid(firstWeekday, current, mode) == MonthGrid(firstWeekday, current);
      MonthGridShape(firstWeekday, current);
    } else {
      assert Grid(firstWeekday, current, mode) == WeekGrid(firstWeekday, current);
      WeekGridShape(firstWeekday, current);
    }
  }

  /**
    The loop both branches of `update()` run: for each `i` below `count`,
    append the day `i - offset` days after `anchor`.
   */
  method AppendDays(anchor: Day, offset: int, count: int) returns (ds: seq<Day>)
    requires count >= 0
    ensures |ds| == count
    ensures forall i :: 0 <= i < |ds| ==> ds[i] == anchor + (i - offset)
  {
    ds := [];
    for i := 0 to count
      invariant |ds| == i
      invariant forall j :: 0 <= j < i ==> ds[j] == anchor + (j - offset)
    {
      ds := ds + [anchor + (i - offset)];
    }
  }

  // ---------------------------------------------------------------------
  // Month navigation
  // ---------------------------------------------------------------------

  /** Moving a month forward: same year and next month, or January of the next year from December. */
  lemma NextMonthFields(n: Day)
    ensures var r := AddMonths(n, 1);
            if GetMonth(n) == 12 then GetYear(r) == GetYear(n) + 1 && GetMonth(r) == 1
            else GetYear(r) == GetYear(n) && GetMonth(r) == GetMonth(n) + 1
  {
  }

  /** Moving a month back: same year and previous month, or December of the year before from January. */
  lemma PreviousMonthFields(n: Day)
    ensures var r := AddMonths(n, -1);
            if GetMonth(n) == 1 then GetYear(r) == GetYear(n) - 1 && GetMonth(r) == 12
            else GetYear(r) == GetYear(n) && GetMonth(r) == GetMonth(n) - 1
  {
  }

  /**
    A month forward then a month back returns to the same year and month;
    to the same day exactly when that day exists in the next month.
   */
  lemma NextThenPreviousMonth(n: Day)
    ensures var r := AddMonths(AddMonths(n, 1), -1);
            && InSameMonth(r, n)
            && GetDay(r) <= GetDay(n)
            && (r == n <==> GetDay(n) <= GetNumberOfDaysInMonth(AddMonths(n, 1)))
  {
    var m := AddMonths(n, 1);
    var r := AddMonths(m, -1);
    NextMonthFields(n);
    PreviousMonthFields(m);
    if GetDay(n) <= GetNumberOfDaysInMonth(m) {
      assert CivilFromDays(r) == CivilFromDays(n);
    }
  }

  // ---------------------------------------------------------------------
  // The engine
  // ---------------------------------------------------------------------

  /** The grid most recently sent to the delegate, if any. */
  function LastDisplayed(log: seq<Notification>): Option<seq<Day>> {
    if log == [] then None
    else if log[|log| - 1].DisplayDatesChanged? then Some(log[|log| - 1].dates)
    else LastDisplayed(log[..|log| - 1])
  }

  class MNCalendar {
    /** The injected calendar's first weekday (1 = Sunday). */
    const firstWeekday: Weekday
    /** Whether the weakly held delegate is present. */
    var hasDelegate: bool
    var currentDate: Day
    var selectedDate: Option<Day>
    var mode: Mode
    /** Storage of the lazy `dates` property, and whether it has been assigned. */
    var dates: seq<Day>
    var datesAssigned: bool
    /** Every call made on the delegate, oldest first. */
    var notifications: seq<Notification>

    /**
      The object invariant: `dates` is always what the delegate was last
      told (or empty, if it was never told), and it is whole weeks of
      consecutive days.
     */
    ghost predicate Valid()
      reads this
    {
      && (match LastDisplayed(notifications)
          case Some(g) => datesAssigned && dates == g
          case None => dates == [])
      && |dates| % DaysPerWeek == 0
      && Consecutive(dates)
    }

    constructor (firstWeekday: Weekday, now: Day, hasDelegate: bool)
      ensures Valid()
      ensures this.firstWeekday == firstWeekday && this.hasDelegate == hasDelegate
      ensures currentDate == now && selectedDate == None && mode == Month
      ensures !datesAssigned && notifications == []
    {
      this.firstWeekday := firstWeekday;
      this.hasDelegate := hasDelegate;
      currentDate := now;
      selectedDate := None;
      mode := Month;
      dates := [];
      datesAssigned := false;
      notifications := [];
    }

    /**
      update(): with no delegate, returns the empty list and changes
      nothing; otherwise computes the grid for the current date and mode,
      stores it in `dates`, and sends it to the delegate.
     */
    method Update() returns (r: seq<Day>)
      requires Valid()
      modifies this
      ensures Valid()
      ensures currentDate == old(currentDate) && mode == old(mode)
      ensures selectedDate == old(selectedDate) && hasDelegate == old(hasDelegate)
      ensures !hasDelegate ==> r == [] && unchanged(this)
      ensures hasDelegate ==>
                && r == Grid(firstWeekday, currentDate, mode)
                && dates == r && datesAssigned
                && notifications == old(notifications) + [DisplayDatesChanged(r)]
    {
      r := [];
      if !hasDelegate {
        return;
      }
      var first := FirstDateOfMonth(currentDate);
      var ordinalityOfFirstDay := Ordinality(firstWeekday, first);
      ghost var grid := Grid(firstWeekday, currentDate, mode);
      GridAt(firstWeekday, currentDate, mode);
      if mode == Month {
        r := AppendDays(first, ordinalityOfFirstDay - 1, DaysAcquisition(firstWeekday, currentDate));
      } else {
        r := AppendDays(currentDate, ordinalityOfFirstDay - 1, GetNumberOfDaysInWeek(currentDate));
      }
      SameElements(r, grid);
      GridWholeWeeks(firstWeekday, currentDate, mode);
      LastDisplayedOfDisplay(notifications, r);
      dates := r;
      datesAssigned := true;
      notifications := notifications + [DisplayDatesChanged(r)];
    }

    /**
      Reading the lazy `dates` property: the first read runs `update()` and
      keeps its result; later reads return what is stored.
     */
    method GetDates() returns (ds: seq<Day>)
      requires Valid()
      modifies this
      ensures Valid()
      ensures currentDate == old(currentDate) && mode == old(mode)
      ensures selectedDate == old(selectedDate) && hasDelegate == old(hasDelegate)
      ensures datesAssigned && ds == dates
      ensures old(datesAssigned) ==> unchanged(this)
      ensures !old(datesAssigned) && hasDelegate ==>
                ds == Grid(firstWeekday, currentDate, mode) &&
                notifications == old(notifications) + [DisplayDatesChanged(ds)]
      ensures !old(datesAssigned) && !hasDelegate ==>
                ds == [] && notifications == old(notifications)
    {
      if !datesAssigned {
        var initial := Update();
        dates := initial;
        datesAssigned := true;
      }
      ds := dates;
    }

    /** Assigning `mode` (its `didSet` runs `update()`, even when the value is the same). */
    method SetMode(newMode: Mode)
      requires Valid()
      modifies this
      ensures Valid()
      ensures mode == newMode
      ensures currentDate == old(currentDate) && selectedDate == old(selectedDate)
      ensures hasDelegate == old(hasDelegate)
      ensures !hasDelegate ==>
                dates == old(dates) && datesAssigned == old(datesAssigned) &&
                notifications == old(notifications)
      ensures hasDelegate ==>
                dates == Grid(firstWeekday, currentDate, newMode) && datesAssigned &&
                notifications == old(notifications) + [DisplayDatesChanged(dates)]
    {
      mode := newMode;
      var _ := Update();
    }

    /** Assigning `delegate` (or the weak reference dropping to nil). */
    method SetDelegate(present: bool)
      requires Valid()
      modifies this
      ensures Valid()
      ensures hasDelegate == present
      ensures currentDate == old(currentDate) && mode == old(mode)
      ensures selectedDate == old(selectedDate) && dates == old(dates)
      ensures datesAssigned == old(datesAssigned) && notifications == old(notifications)
    {
      hasDelegate := present;
    }

    /** moveToNextMonth: one calendar month forward, then `update()`. */
    method MoveToNextMonth()
      requires Valid()
      modifies this
      ensures Valid()
      ensures currentDate == AddMonths(old(currentDate), 1)
      ensures mode == old(mode) && selectedDate == old(selectedDate)
      ensures hasDelegate == old(hasDelegate)
      ensures !hasDelegate ==>
                dates == old(dates) && datesAssigned == old(datesAssigned) &&
                notifications == old(notifications)
      ensures hasDelegate ==>
                dates == Grid(firstWeekday, currentDate, mode) && datesAssigned &&
                notifications == old(notifications) + [DisplayDatesChanged(dates)]
    {
      var updatedDate := AddMonths(currentDate, 1);
      currentDate := updatedDate;
      var _ := Update();
    }

    /** moveToPreviousMonth: one calendar month back, then `update()`. */
    method MoveToPreviousMonth()
      requires Valid()
      modifies this
      ensures Valid()
      ensures currentDate == AddMonths(old(currentDate), -1)
      ensures mode == old(mode) && selectedDate == old(selectedDate)
      ensures hasDelegate == old(hasDelegate)
      ensures !hasDelegate ==>
                dates == old(dates) && datesAssigned == old(datesAssigned) &&
                notifications == old(notifications)
      ensures hasDelegate ==>
                dates == Grid(firstWeekday, currentDate, mode) && datesAssigned &&
                notifications == old(notifications) + [DisplayDatesChanged(dates)]
    {
      var updatedDate := AddMonths(currentDate, -1);
      currentDate := updatedDate;
      var _ := Update();
    }

    /** getNumberOfItemsForCurrentMode: the length of `dates` (reading it may run `update()`). */
    method GetNumberOfItemsForCurrentMode() returns (n: int)
      requires Valid()
      modifies this
      ensures Valid()
      ensures datesAssigned && n == |dates|
      ensures n % DaysPerWeek == 0
      ensures currentDate == old(currentDate) && mode == old(mode)
      ensures selectedDate == old(selectedDate) && hasDelegate == old(hasDelegate)
      ensures old(datesAssigned) ==> unchanged(this)
      ensures !old(datesAssigned) && hasDelegate ==>
                dates == Grid(firstWeekday, currentDate, mode) &&
                n == |Grid(firstWeekday, currentDate, mode)| &&
                notifications == old(notifications) + [DisplayDatesChanged(dates)]
      ensures !old(datesAssigned) && !hasDelegate ==>
                n == 0 && dates == [] && notifications == old(notifications)
    {
      var ds := GetDates();
      n := |ds|;
    }

    /** updateSelectedDate: set the selection and tell the delegate, if there is one. */
    method UpdateSelectedDate(date: Day)
      requires Valid()
      modifies this
      ensures Valid()
      ensures selectedDate == Some(date)
      ensures currentDate == old(currentDate) && mode == old(mode) && hasDelegate == old(hasDelegate)
      ensures dates == old(dates) && datesAssigned == old(datesAssigned)
      ensures notifications == old(notifications) + (if hasDelegate then [SelectedDateChanged(date)] else [])
    {
      selectedDate := Some(date);
      if hasDelegate {
        LastDisplayedSkipsSelection(notifications, date);
        notifications := notifications + [SelectedDateChanged(date)];
      }
    }
  }

  lemma LastDisplayedOfDisplay(log: seq<Notification>, g: seq<Day>)
    ensures LastDisplayed(log + [DisplayDatesChanged(g)]) == Some(g)
  {
  }

  lemma LastDisplayedSkipsSelection(log: seq<Notification>, date: Day)
    ensures LastDisplayed(log + [SelectedDateChanged(date)]) == LastDisplayed(log)
  {
    assert (log + [SelectedDateChanged(date)])[..|log|] == log;
  }
}
