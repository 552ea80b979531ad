/** From which minutes on an expression that only a 29 February can match is not found, in terms of dates. */
module CronLeap {
  import opened Outcome
  import opened Calendar
  import opened Cron
  import opened CronSearch

  // ---------- the next 29 February ----------

  /** The first multiple of four from y on. */
  function NextFourth(y: int): int {
    4 * ((y + 3) / 4)
  }

  /** The first leap year from y on: a multiple of four, and the one after it where a century has no leap day. */
  function NextLeapYear(y: int): int {
    if IsLeap(NextFourth(y)) then NextFourth(y) else NextFourth(y) + 4
  }

  lemma NextFourthIsNext(y: int)
    ensures NextFourth(y) % 4 == 0 && y <= NextFourth(y) <= y + 3
  {
  }

  lemma FourthsApart(y: int, x: int)
    requires y <= x && x % 4 == 0
    ensures x == NextFourth(y) || NextFourth(y) + 4 <= x
  {
    var a, b := x / 4, (y + 3) / 4;
    assert x == 4 * a;
  }

  lemma NextLeapYearIsNext(y: int)
    ensures IsLeap(NextLeapYear(y)) && y <= NextLeapYear(y) <= y + 7
    ensures forall x :: y <= x && IsLeap(x) ==> NextLeapYear(y) <= x
  {
    hide IsLeap, NextFourth;
    NextFourthIsNext(y);
    if !IsLeap(NextFourth(y)) { AfterCentury(NextFourth(y)); }
    forall x | y <= x && IsLeap(x) ensures NextLeapYear(y) <= x {
      LeapIsFourth(x);
      FourthsApart(y, x);
    }
  }

  lemma LeapIsFourth(x: int)
    requires IsLeap(x)
    ensures x % 4 == 0
  {
    CenturyIsFour(x);
    FourCenturiesAreOne(x);
  }

  lemma AfterCentury(z: int)
    requires z % 4 == 0 && !IsLeap(z)
    ensures IsLeap(z + 4)
  {
    assert z % 100 == 0;
    assert (z + 4) % 100 == 4;
  }

  /** The first 29 February after a day. */
  function NextLeapDay(day: nat): int {
    var d := DateOf(day);
    var y := NextLeapYear(if d.month == 1 || (d.month == 2 && d.day < 29) then d.year else d.year + 1);
    DayNumber(Date(y, 2, 29))
  }

  lemma LeapDayOrder(y: int, z: int)
    requires 1970 <= y < z && IsLeap(y) && IsLeap(z)
    ensures DayNumber(Date(y, 2, 29)) < DayNumber(Date(z, 2, 29))
  {
    hide YearStart, DayNumber, IsLeap;
    DateIsInItsYear(Date(y, 2, 29));
    DateIsInItsYear(Date(z, 2, 29));
    if y + 1 < z { YearStartOrder(y + 1, z); }
  }

  /** Within its year a date is before 29 February exactly if it is in January or earlier in February. */
  lemma BeforeLeapDay(d: Date)
    requires IsDate(d) && IsLeap(d.year)
    ensures DayNumber(d) < DayNumber(Date(d.year, 2, 29)) <==> d.month == 1 || (d.month == 2 && d.day < 29)
  {
    hide YearStart, MonthStart;
    if d.month < 2 {
      MonthStartOrder(d.year, d.month, 2);
    } else if d.month > 2 {
      MonthStartOrder(d.year, 2, d.month);
    }
  }

  lemma EarlierYear(d: Date, e: Date)
    requires IsDate(d) && IsDate(e) && d.year < e.year
    ensures DayNumber(d) < DayNumber(e)
  {
    hide YearStart, DayNumber;
    DateIsInItsYear(d);
    DateIsInItsYear(e);
    if d.year + 1 < e.year { YearStartOrder(d.year + 1, e.year); }
  }

  /** A leap day after a day is not before the next one. */
  lemma NoLeapDayBefore(day: nat, x: nat)
    requires day < x && IsLeapDay(x)
    ensures NextLeapDay(day) <= x
  {
    hide YearStart, DateOf, DayNumber, IsLeap, NextLeapYear;
    var d, l := DateOf(day), DateOf(x);
    assert IsLeap(l.year) by { LeapDayIsLeap(l); }
    var from := if d.month == 1 || (d.month == 2 && d.day < 29) then d.year else d.year + 1;
    if l.year < d.year {
      EarlierYear(l, d);
    } else if l.year == d.year {
      BeforeLeapDay(d);
    }
    NextLeapYearIsNext(from);
    var y := NextLeapYear(from);
    if y < l.year { LeapDayOrder(y, l.year); }
  }

  lemma LeapDayIsLeap(d: Date)
    requires IsDate(d) && d.month == 2 && d.day == 29
    ensures IsLeap(d.year)
  {
  }

  lemma NextLeapDayIsNext(day: nat)
    ensures day < NextLeapDay(day) && IsLeapDay(NextLeapDay(day))
  {
    hide YearStart, DateOf, DayNumber, IsLeap, NextLeapYear;
    var d := DateOf(day);
    var early := d.month == 1 || (d.month == 2 && d.day < 29);
    var from := if early then d.year else d.year + 1;
    var y := NextLeapYear(from);
    NextLeapYearIsNext(from);
    var l := Date(y, 2, 29);
    assert IsDate(l) by { assert MonthLength(y, 2) == 29; }
    DateOfDayNumber(l);
    if d.year < y {
      EarlierYear(d, l);
    } else {
      BeforeLeapDay(d);
    }
  }

  // ---------- the selected times of a day ----------

  predicate Selected(c: Expression, m: int) {
    0 <= m < MINUTES_PER_DAY && m / 60 in c.hours && m % 60 in c.minutes
  }

  /** The first selected minute of a day from m on. */
  function FirstTime(c: Expression, m: nat): int
    decreases MINUTES_PER_DAY - m
  {
    if m >= MINUTES_PER_DAY || Selected(c, m) then m else FirstTime(c, m + 1)
  }

  /** The last selected minute of a day up to m, or -1. */
  function LastTime(c: Expression, m: int): int
    requires m >= -1
    decreases m
  {
    if m < 0 || Selected(c, m) then m else LastTime(c, m - 1)
  }

  lemma {:induction false} FirstTimeIsFirst(c: Expression, m: nat, x: int)
    requires m <= x && Selected(c, x)
    ensures Selected(c, FirstTime(c, m)) && m <= FirstTime(c, m) <= x
    decreases x - m
  {
    if !Selected(c, m) { FirstTimeIsFirst(c, m + 1, x); }
  }

  lemma {:induction false} LastTimeIsLast(c: Expression, m: int, x: int)
    requires x <= m && Selected(c, x)
    ensures Selected(c, LastTime(c, m)) && x <= LastTime(c, m) <= m
    decreases m - x
  {
    if !Selected(c, m) { LastTimeIsLast(c, m - 1, x); }
  }

  function First(c: Expression): int { FirstTime(c, 0) }

  function Last(c: Expression): int { LastTime(c, MINUTES_PER_DAY - 1) }

  lemma SomeTime(c: Expression)
    requires Valid(c)
    ensures Selected(c, First(c)) && Selected(c, Last(c))
  {
    var h := Pick(c.hours, 0, 23);
    var m := Pick(c.minutes, 0, 59);
    var x := h * 60 + m;
    assert x / 60 == h && x % 60 == m;
    FirstTimeIsFirst(c, 0, x);
    LastTimeIsLast(c, MINUTES_PER_DAY - 1, x);
  }

  lemma TimeIsSelected(c: Expression, day: nat, m: int)
    requires 0 <= m < MINUTES_PER_DAY
    ensures var t := day * MINUTES_PER_DAY + m;
            t / MINUTES_PER_DAY == day && t % MINUTES_PER_DAY == m && (TimeMatches(c, t) <==> Selected(c, m))
  {
    MinuteOf(day, m / 60, m % 60);
  }

  // ---------- exactly when the search throws ----------

  /** Only a 29 February can match it. */
  ghost predicate LeapOnly(c: Expression) {
    Valid(c) && c.dayOfMonthRestricted && !c.dayOfWeekRestricted && !SelectsCommonDate(c) && SelectsLeapDay(c)
  }

  /** The search starts after the last selected minute of its day, if that is a 29 February at all. */
  predicate TodayIsOver(c: Expression, start: nat) {
    !(IsLeapDay(start / MINUTES_PER_DAY) && start % MINUTES_PER_DAY <= Last(c))
  }

  lemma LeapMinuteMatches(c: Expression, day: nat, m: int)
    requires LeapOnly(c) && IsLeapDay(day) && Selected(c, m)
    ensures Matches(c, day * MINUTES_PER_DAY + m)
  {
    hide Matches, IsLeapDay, TimeMatches, Selected;
    assert 0 <= m < MINUTES_PER_DAY by { SelectedIsTime(c, m); }
    TimeIsSelected(c, day, m);
    OnlyLeapDaysMatch(c, day * MINUTES_PER_DAY + m);
  }

  lemma SelectedIsTime(c: Expression, m: int)
    requires Selected(c, m)
    ensures 0 <= m < MINUTES_PER_DAY
  {
  }

  /** No match before the next leap day's first selected minute, once today is over. */
  lemma NextMatchIsNextLeapDay(c: Expression, start: nat, t: nat)
    requires LeapOnly(c) && TodayIsOver(c, start) && start <= t && Matches(c, t)
    ensures NextLeapDay(start / MINUTES_PER_DAY) * MINUTES_PER_DAY + First(c) <= t
  {
    hide Matches, IsLeapDay, TimeMatches, Selected, NextLeapDay, FirstTime, LastTime;
    var day, x, m := start / MINUTES_PER_DAY, t / MINUTES_PER_DAY, t % MINUTES_PER_DAY;
    OnlyLeapDaysMatch(c, t);
    assert t == x * MINUTES_PER_DAY + m;
    TimeIsSelected(c, x, m);
    FirstTimeIsFirst(c, 0, m);
    LastTimeIsLast(c, MINUTES_PER_DAY - 1, m);
    SameDayLater(start, t);
    NoLeapDayBefore(day, x);
    var n := NextLeapDay(day);
    assert n * MINUTES_PER_DAY <= x * MINUTES_PER_DAY;
  }

  lemma SameDayLater(start: nat, t: nat)
    requires start <= t
    ensures start / MINUTES_PER_DAY <= t / MINUTES_PER_DAY
    ensures start / MINUTES_PER_DAY == t / MINUTES_PER_DAY ==> start % MINUTES_PER_DAY <= t % MINUTES_PER_DAY
  {
  }

  /**
   * Exactly when an expression that only a 29 February can match throws: from after the last selected minute of a
   * 29 February, until fewer minutes than are scanned remain to the first selected minute of the next one.
   */
  lemma LeapDayThrows(c: Expression, start: nat)
    requires LeapOnly(c)
    ensures NoMatchWithin(c, start, MAX_MINUTES_TO_SCAN) <==>
              && TodayIsOver(c, start)
              && start + MAX_MINUTES_TO_SCAN <= NextLeapDay(start / MINUTES_PER_DAY) * MINUTES_PER_DAY + First(c)
  {
    hide Matches, IsLeapDay, Selected, NextLeapDay, FirstTime, LastTime;
    var day := start / MINUTES_PER_DAY;
    var n := NextLeapDay(day);
    NextLeapDayIsNext(day);
    SomeTime(c);
    SelectedIsTime(c, First(c));
    SelectedIsTime(c, Last(c));
    LeapMinuteMatches(c, n, First(c));
    if !TodayIsOver(c, start) {
      LeapMinuteMatches(c, day, Last(c));
      assert start <= day * MINUTES_PER_DAY + Last(c) < start + MAX_MINUTES_TO_SCAN;
    } else {
      assert start <= n * MINUTES_PER_DAY + First(c);
      forall t: nat | start <= t && Matches(c, t) ensures n * MINUTES_PER_DAY + First(c) <= t {
        NextMatchIsNextLeapDay(c, start, t);
      }
    }
  }

  /** So it throws only in the eight years around a century without a leap day: four years of days always find one. */
  lemma FoundWithinFourYears(c: Expression, start: nat)
    requires LeapOnly(c) && NextLeapDay(start / MINUTES_PER_DAY) < start / MINUTES_PER_DAY + 4 * 366
    ensures !NoMatchWithin(c, start, MAX_MINUTES_TO_SCAN)
  {
    hide NextLeapDay, NoMatchWithin, FirstTime, LastTime, Selected, TodayIsOver;
    LeapDayThrows(c, start);
    SomeTime(c);
    SelectedIsTime(c, First(c));
  }

  /** Between two leap days four years apart it is found from everywhere. */
  lemma FoundBetween(c: Expression, start: nat, y: int)
    requires LeapOnly(c) && 1970 <= y && IsLeap(y) && IsLeap(y + 4)
    requires DayNumber(Date(y, 2, 29)) <= start / MINUTES_PER_DAY < DayNumber(Date(y + 4, 2, 29))
    ensures !NoMatchWithin(c, start, MAX_MINUTES_TO_SCAN)
  {
    hide NextLeapDay, NoMatchWithin, DayNumber, IsLeap, DateOf, YearStart;
    var l := Date(y + 4, 2, 29);
    assert IsDate(l) by { assert MonthLength(y + 4, 2) == 29; }
    DateOfDayNumber(l);
    NoLeapDayBefore(start / MINUTES_PER_DAY, DayNumber(l));
    FourYearsApart(y);
    FoundWithinFourYears(c, start);
  }

  lemma FourYearsApart(y: int)
    requires IsLeap(y) && IsLeap(y + 4)
    ensures DayNumber(Date(y + 4, 2, 29)) == DayNumber(Date(y, 2, 29)) + 4 * 365 + 1
  {
    hide YearStart;
    LeapIsFourth(y);
    YearStartNext(y);
    YearStartNext(y + 1);
    YearStartNext(y + 2);
    YearStartNext(y + 3);
  }

  /** Between those of 2096 and 2104 the starts that throw are exactly these. */
  lemma GapOf2100(c: Expression, start: nat)
    requires LeapOnly(c)
    requires DayNumber(Date(2096, 2, 29)) <= start / MINUTES_PER_DAY < DayNumber(Date(2104, 2, 29))
    ensures NoMatchWithin(c, start, MAX_MINUTES_TO_SCAN) <==>
              && TodayIsOver(c, start)
              && start + MAX_MINUTES_TO_SCAN <= DayNumber(Date(2104, 2, 29)) * MINUTES_PER_DAY + First(c)
  {
    hide NextLeapDay, NoMatchWithin, FirstTime, LastTime, Selected, TodayIsOver, DayNumber, DateOf, YearStart;
    NextIs2104(start / MINUTES_PER_DAY);
    LeapDayThrows(c, start);
  }

  lemma NextIs2104(day: nat)
    requires DayNumber(Date(2096, 2, 29)) <= day < DayNumber(Date(2104, 2, 29))
    ensures NextLeapDay(day) == DayNumber(Date(2104, 2, 29))
  {
    hide NextLeapDay, DayNumber, DateOf, YearStart;
    var n, l := NextLeapDay(day), Date(2104, 2, 29);
    NextLeapDayIsNext(day);
    DateOfDayNumber(l);
    NoLeapDayBefore(day, DayNumber(l));
    var d := DateOf(n);
    LeapDayIsLeap(d);
    LeapIsFourth(d.year);
    if d.year < 2096 {
      LeapDayOrder(d.year, 2096);
    } else if d.year > 2104 {
      LeapDayOrder(2104, d.year);
    }
  }
}
