/**
 * The calendar gmtime() goes by, from 1 January 1970: day numbers to dates, and back. That the two are inverse is
 * what lets a date be looked for by its day number.
 */
module Calendar {
  datatype Date = Date(year: int, month: int, day: int)

  predicate IsLeap(y: int) {
    (y % 4 == 0 && y % 100 != 0) || y % 400 == 0
  }

  function YearLength(y: int): int {
    if IsLeap(y) then 366 else 365
  }

  function MonthLength(y: int, m: int): (n: int)
    requires 1 <= m <= 12
    ensures 28 <= n <= 31
  {
    if m == 2 then (if IsLeap(y) then 29 else 28)
    else if m == 4 || m == 6 || m == 9 || m == 11 then 30 else 31
  }

  /** How many leap years there are up to and including y. */
  function LeapsTo(y: int): int {
    y / 4 - y / 100 + y / 400
  }

  /** The number of the first day of a year. */
  function YearStart(y: int): int {
    365 * (y - 1970) + LeapsTo(y - 1) - LeapsTo(1969)
  }

  lemma YearStartNext(y: int)
    ensures YearStart(1970) == 0
    ensures YearStart(y + 1) == YearStart(y) + YearLength(y)
  {
    hide LeapsTo, IsLeap;
    LeapsNext(y);
    assert 365 * (y + 1 - 1970) == 365 * (y - 1970) + 365;
  }

  lemma LeapsNext(y: int)
    ensures LeapsTo(y) == LeapsTo(y - 1) + if IsLeap(y) then 1 else 0
  {
    Fours(y);
    Hundreds(y);
    FourHundreds(y);
    CenturyIsFour(y);
    FourCenturiesAreOne(y);
  }

  lemma CenturyIsFour(y: int)
    ensures y % 100 == 0 ==> y % 4 == 0
  {
    if y % 100 == 0 {
      var q := y / 100;
      assert y == 4 * (25 * q);
    }
  }

  lemma FourCenturiesAreOne(y: int)
    ensures y % 400 == 0 ==> y % 100 == 0
  {
    if y % 400 == 0 {
      var q := y / 400;
      assert y == 100 * (4 * q);
    }
  }

  lemma Fours(y: int)
    ensures y / 4 - (y - 1) / 4 == if y % 4 == 0 then 1 else 0
  {
  }

  lemma Hundreds(y: int)
    ensures y / 100 - (y - 1) / 100 == if y % 100 == 0 then 1 else 0
  {
  }

  lemma FourHundreds(y: int)
    ensures y / 400 - (y - 1) / 400 == if y % 400 == 0 then 1 else 0
  {
  }

  /** How many days of a year come before a month. */
  function MonthStart(y: int, m: int): (n: int)
    requires 1 <= m <= 13
    ensures 28 * (m - 1) <= n <= 31 * (m - 1)
  {
    if m == 1 then 0 else MonthStart(y, m - 1) + MonthLength(y, m - 1)
  }

  lemma MonthsFillTheYear(y: int)
    ensures MonthStart(y, 13) == YearLength(y)
  {
    assert MonthStart(y, 2) == 31;
    assert MonthStart(y, 3) == 31 + MonthLength(y, 2);
    assert MonthStart(y, 5) == MonthStart(y, 4) + 30 == MonthStart(y, 3) + 31 + 30;
    assert MonthStart(y, 7) == MonthStart(y, 6) + 30 == MonthStart(y, 5) + 31 + 30;
    assert MonthStart(y, 9) == MonthStart(y, 8) + 31 == MonthStart(y, 7) + 31 + 31;
    assert MonthStart(y, 11) == MonthStart(y, 10) + 31 == MonthStart(y, 9) + 30 + 31;
    assert MonthStart(y, 13) == MonthStart(y, 12) + 31 == MonthStart(y, 11) + 30 + 31;
  }

  predicate IsDate(d: Date) {
    d.year >= 1970 && 1 <= d.month <= 12 && 1 <= d.day <= MonthLength(d.year, d.month)
  }

  function DayNumber(d: Date): int
    requires 1 <= d.month <= 12
  {
    YearStart(d.year) + MonthStart(d.year, d.month) + d.day - 1
  }

  // ---------- from day numbers to dates ----------

  /** The year of a day that is not before year y. */
  function YearFrom(y: int, day: int): (r: int)
    requires YearStart(y) <= day
    ensures y <= r && YearStart(r) <= day < YearStart(r + 1)
    decreases day - YearStart(y)
  {
    YearStartNext(y);
    if day < YearStart(y + 1) then y else YearFrom(y + 1, day)
  }

  /** The month of a day of the year that is not before month m. */
  function MonthFrom(y: int, m: int, day: int): (r: int)
    requires 1 <= m <= 12 && MonthStart(y, m) <= day < MonthStart(y, 13)
    ensures m <= r <= 12 && MonthStart(y, r) <= day < MonthStart(y, r + 1)
    decreases 12 - m
  {
    if day < MonthStart(y, m + 1) then m else MonthFrom(y, m + 1, day)
  }

  function DateOf(day: nat): (d: Date)
    ensures IsDate(d) && DayNumber(d) == day
  {
    YearStartNext(1970);
    var y := YearFrom(1970, day);
    YearStartNext(y);
    MonthsFillTheYear(y);
    var m := MonthFrom(y, 1, day - YearStart(y));
    Date(y, m, day - YearStart(y) - MonthStart(y, m) + 1)
  }

  // ---------- and back ----------

  lemma {:induction false} YearStartOrder(y: int, z: int)
    requires y < z
    ensures YearStart(y) + 365 <= YearStart(z)
    decreases z - y
  {
    hide YearStart;
    YearStartNext(z - 1);
    if y < z - 1 { YearStartOrder(y, z - 1); }
  }

  lemma {:induction false} MonthStartOrder(y: int, m: int, n: int)
    requires 1 <= m < n <= 13
    ensures MonthStart(y, m) + MonthLength(y, m) <= MonthStart(y, n)
    decreases n - m
  {
    if m < n - 1 { MonthStartOrder(y, m, n - 1); }
  }

  lemma DateIsInItsYear(d: Date)
    requires IsDate(d)
    ensures YearStart(d.year) <= DayNumber(d) < YearStart(d.year + 1)
  {
    hide YearStart;
    YearStartNext(d.year);
    MonthsFillTheYear(d.year);
    MonthStartOrder(d.year, d.month, 13);
  }

  /** A day number has one date. */
  lemma DatesDiffer(d: Date, e: Date)
    requires IsDate(d) && IsDate(e) && DayNumber(d) == DayNumber(e)
    ensures d == e
  {
    DateIsInItsYear(d);
    DateIsInItsYear(e);
    hide YearStart;
    if d.year < e.year {
      if d.year + 1 < e.year { YearStartOrder(d.year + 1, e.year); }
    } else if e.year < d.year {
      if e.year + 1 < d.year { YearStartOrder(e.year + 1, d.year); }
    } else if d.month < e.month {
      MonthStartOrder(d.year, d.month, e.month);
    } else if e.month < d.month {
      MonthStartOrder(d.year, e.month, d.month);
    }
  }

  lemma DayNumberIsNat(d: Date)
    requires IsDate(d)
    ensures DayNumber(d) >= 0
  {
    hide YearStart;
    YearStartNext(1970);
    if d.year > 1970 { YearStartOrder(1970, d.year); }
  }

  /** Dates to day numbers and back. */
  lemma DateOfDayNumber(d: Date)
    requires IsDate(d)
    ensures DayNumber(d) >= 0 && DateOf(DayNumber(d)) == d
  {
    hide YearStart, MonthStart;
    DayNumberIsNat(d);
    DatesDiffer(DateOf(DayNumber(d)), d);
  }

  /** 1 January 1970 was a Thursday; Sunday is 0. */
  function WeekdayOf(day: nat): (w: int)
    ensures 0 <= w <= 6
  {
    (day + 4) % 7
  }

  // ---------- a day at a time ----------

  /** The last day of a month: thirty days have April, June, September and November. */
  function LastDay(y: int, m: int): int {
    if m == 4 || m == 6 || m == 9 || m == 11 then 30
    else if m != 2 then 31
    else if y % 400 == 0 then 29
    else if y % 100 == 0 then 28
    else if y % 4 == 0 then 29
    else 28
  }

  /** The next day of the month, the first of the next month, or the first of the next year. */
  function DayAfter(d: Date): Date {
    if d.day < LastDay(d.year, d.month) then Date(d.year, d.month, d.day + 1)
    else if d.month < 12 then Date(d.year, d.month + 1, 1)
    else Date(d.year + 1, 1, 1)
  }

  lemma DayAfterIsNext(d: Date)
    requires IsDate(d)
    ensures IsDate(DayAfter(d)) && DayNumber(DayAfter(d)) == DayNumber(d) + 1
  {
    hide YearStart;
    assert LastDay(d.year, d.month) == MonthLength(d.year, d.month) by {
      CenturyIsFour(d.year);
      FourCenturiesAreOne(d.year);
    }
    hide LastDay;
    YearStartNext(d.year);
    MonthsFillTheYear(d.year);
  }

  /** The calendar is pinned down by where it starts, and by what comes after each day. */
  lemma CalendarGoesOn(day: nat)
    ensures DateOf(day + 1) == DayAfter(DateOf(day))
  {
    hide YearStart, DayNumber, DateOf, DayAfter;
    DayAfterIsNext(DateOf(day));
    DatesDiffer(DateOf(day + 1), DayAfter(DateOf(day)));
  }

  lemma CalendarStarts()
    ensures DateOf(0) == Date(1970, 1, 1)
  {
    hide DateOf;
    YearStartNext(1970);
    DatesDiffer(DateOf(0), Date(1970, 1, 1));
  }

  /** It started on a Thursday, and Sunday is 0. */
  lemma WeekGoesOn(day: nat)
    ensures WeekdayOf(0) == 4 && WeekdayOf(day + 1) == if WeekdayOf(day) == 6 then 0 else WeekdayOf(day) + 1
  {
  }
}
