/** When the search of a cron expression comes up empty, and when it never does. */
module CronSearch {
  import opened Outcome
  import opened Calendar
  import opened Cron

  /**
   * The expression selects a day that every such month has, leap year or not. 1970 stands for any year that is none.
   */
  ghost predicate SelectsCommonDate(c: Expression) {
    exists m, d :: m in c.months && d in c.daysOfMonth && 1 <= m <= 12 && d <= MonthLength(1970, m)
  }

  predicate SelectsLeapDay(c: Expression) {
    2 in c.months && 29 in c.daysOfMonth
  }

  predicate IsLeapDay(day: nat) {
    DateOf(day).month == 2 && DateOf(day).day == 29
  }

  predicate TimeMatches(c: Expression, t: nat) {
    (t / 60) % 24 in c.hours && t % 60 in c.minutes
  }

  // ---------- building a match ----------

  lemma Pick(values: set<int>, min: int, max: int) returns (v: int)
    requires Within(values, min, max)
    ensures v in values && min <= v <= max
  {
    v := Any(values);
  }

  lemma Any<T>(values: set<T>) returns (v: T)
    requires values != {}
    ensures v in values
  {
    v :| v in values;
  }

  lemma MinuteOf(day: nat, hour: int, minute: int)
    requires 0 <= hour <= 23 && 0 <= minute <= 59
    ensures var t := day * MINUTES_PER_DAY + hour * 60 + minute;
            t >= 0 && t / MINUTES_PER_DAY == day && (t / 60) % 24 == hour && t % 60 == minute
  {
    var t := day * MINUTES_PER_DAY + hour * 60 + minute;
    assert t == 60 * (day * 24 + hour) + minute;
    assert t / 60 == day * 24 + hour;
  }

  /** A matching day after the one the search starts on, and within the days it looks at, is found. */
  lemma LaterDayIsFound(c: Expression, start: nat, d: Date)
    requires Valid(c) && IsDate(d) && d.month in c.months
    requires start / MINUTES_PER_DAY < DayNumber(d) < start / MINUTES_PER_DAY + 4 * 366 && DayMatches(c, DayNumber(d))
    ensures !NoMatchWithin(c, start, MAX_MINUTES_TO_SCAN)
  {
    hide YearStart, DateOf, DayNumber, DayMatches;
    var day := DayNumber(d);
    var h := Pick(c.hours, 0, 23);
    var mi := Pick(c.minutes, 0, 59);
    var t := day * MINUTES_PER_DAY + h * 60 + mi;
    MinuteOf(day, h, mi);
    DateOfDayNumber(d);
    assert Matches(c, t);
    assert start <= t < start + MAX_MINUTES_TO_SCAN;
  }

  /** Every day of the three years after a day's own is within four years of 366 days. */
  lemma WithinFourYears(day: nat, d: Date)
    requires IsDate(d) && DateOf(day).year < d.year <= DateOf(day).year + 3
    ensures day < DayNumber(d) < day + 4 * 366
  {
    hide YearStart, DateOf, DayNumber;
    var y := DateOf(day).year;
    DateIsInItsYear(DateOf(day));
    DateIsInItsYear(d);
    if y + 1 < d.year { YearStartOrder(y + 1, d.year); }
    if d.year + 1 < y + 4 { YearStartOrder(d.year + 1, y + 4); }
    YearStartNext(y);
    YearStartNext(y + 1);
    YearStartNext(y + 2);
    YearStartNext(y + 3);
  }

  lemma SoonIsFound(c: Expression, start: nat, d: Date)
    requires Valid(c) && IsDate(d) && d.month in c.months
    requires var y := DateOf(start / MINUTES_PER_DAY).year; y < d.year <= y + 3
    requires DayNumber(d) >= 0 && DayMatches(c, DayNumber(d))
    ensures !NoMatchWithin(c, start, MAX_MINUTES_TO_SCAN)
  {
    hide YearStart, DateOf, DayNumber, DayMatches, NoMatchWithin;
    WithinFourYears(start / MINUTES_PER_DAY, d);
    LaterDayIsFound(c, start, d);
  }

  // ---------- when the search succeeds ----------

  lemma WeekdayInFirstWeek(y: int, m: int, w: int) returns (d: Date)
    requires y >= 1970 && 1 <= m <= 12 && 0 <= w <= 6
    ensures IsDate(d) && d.year == y && d.month == m && DayNumber(d) >= 0 && WeekdayOf(DayNumber(d)) == w
  {
    var base := DayNumber(Date(y, m, 1));
    DayNumberIsNat(Date(y, m, 1));
    hide YearStart, MonthStart;
    var k := DaysUntil(base, w);
    d := Date(y, m, 1 + k);
    assert DayNumber(d) == base + k;
  }

  lemma DaysUntil(day: int, w: int) returns (k: int)
    requires 0 <= w <= 6
    ensures 0 <= k <= 6 && (day + k + 4) % 7 == w
  {
    k := (w - (day + 4) % 7 + 7) % 7;
    assert day + 4 == 7 * ((day + 4) / 7) + (day + 4) % 7;
  }

  /**
   * It throws only if the day of the month is restricted, the weekday is not, and no selected date is in every year.
   */
  lemma ThrowsOnlyIf(c: Expression, start: nat)
    requires Valid(c) && NoMatchWithin(c, start, MAX_MINUTES_TO_SCAN)
    ensures c.dayOfMonthRestricted && !c.dayOfWeekRestricted && !SelectsCommonDate(c)
  {
    hide NoMatchWithin, YearStart, MonthStart, DateOf, DayNumber;
    var y := DateOf(start / MINUTES_PER_DAY).year + 1;
    var m := Pick(c.months, 1, 12);
    if c.dayOfWeekRestricted {
      var w := Pick(c.daysOfWeek, 0, 6);
      var d := WeekdayInFirstWeek(y, m, w);
      SoonIsFound(c, start, d);
    } else if !c.dayOfMonthRestricted {
      var d := Date(y, m, 1);
      DayNumberIsNat(d);
      SoonIsFound(c, start, d);
    } else if SelectsCommonDate(c) {
      var m, dd :| m in c.months && dd in c.daysOfMonth && 1 <= m <= 12 && dd <= MonthLength(1970, m);
      var d := Date(y, m, dd);
      DateOfDayNumber(d);
      SoonIsFound(c, start, d);
    }
  }

  // ---------- when it fails ----------

  /** Then only a leap day can match. */
  lemma OnlyLeapDaysMatch(c: Expression, t: nat)
    requires Valid(c) && c.dayOfMonthRestricted && !c.dayOfWeekRestricted && !SelectsCommonDate(c)
    ensures Matches(c, t) <==> SelectsLeapDay(c) && IsLeapDay(t / MINUTES_PER_DAY) && TimeMatches(c, t)
  {
    hide YearStart, MonthStart, DateOf, DayNumber;
    var d := DateOf(t / MINUTES_PER_DAY);
    if Matches(c, t) {
      assert IsDate(d) && d.month in c.months && d.day in c.daysOfMonth;
      assert d.day > MonthLength(1970, d.month);
    }
  }

  /**
   * Exactly when the search throws: day of the month restricted, weekday not, every selected date impossible but for
   * 29 February, and no 29 February with a selected time in the four years it looks at.
   */
  lemma ThrowsExactlyIf(c: Expression, start: nat)
    requires Valid(c)
    ensures NoMatchWithin(c, start, MAX_MINUTES_TO_SCAN) <==>
            && c.dayOfMonthRestricted && !c.dayOfWeekRestricted && !SelectsCommonDate(c)
            && (SelectsLeapDay(c) ==>
                  forall t: nat :: start <= t < start + MAX_MINUTES_TO_SCAN ==>
                    !(IsLeapDay(t / MINUTES_PER_DAY) && TimeMatches(c, t)))
  {
    if NoMatchWithin(c, start, MAX_MINUTES_TO_SCAN) {
      ThrowsOnlyIf(c, start);
    }
    if c.dayOfMonthRestricted && !c.dayOfWeekRestricted && !SelectsCommonDate(c) {
      forall t: nat
        ensures Matches(c, t) <==> SelectsLeapDay(c) && IsLeapDay(t / MINUTES_PER_DAY) && TimeMatches(c, t)
      {
        OnlyLeapDaysMatch(c, t);
      }
      hide Matches, IsLeapDay, TimeMatches, SelectsCommonDate;
    }
  }

  /** With no selected date in any year, not even a leap year, it always throws. */
  lemma ImpossibleDatesThrow(c: Expression, start: nat)
    requires Valid(c) && c.dayOfMonthRestricted && !c.dayOfWeekRestricted && !SelectsCommonDate(c) && !SelectsLeapDay(c)
    ensures NoMatchWithin(c, start, MAX_MINUTES_TO_SCAN)
  {
    ThrowsExactlyIf(c, start);
  }
}
