/**
 * Cron expressions (core/src/CronExpression.cpp): what the parts of a field select, and the search for the next
 * minute that all fields select. Minutes are counted from the epoch, UTC.
 */
module Cron {
  import opened Outcome
  import opened Calendar

  const TICKS_PER_MINUTE := 60_000_000_000
  const MINUTES_PER_DAY := 24 * 60
  const MAX_MINUTES_TO_SCAN := 4 * 366 * 24 * 60

  // ---------- fields ----------

  /** One comma-separated part of a field: a range, or None for a star, with or without a step. */
  datatype Part = Part(range: Option<(int, int)>, step: Option<int>)

  type Field = seq<Part>

  function First(p: Part, min: int): int { if p.range.Some? then p.range.value.0 else min }
  function Last(p: Part, max: int): int { if p.range.Some? then p.range.value.1 else max }
  function StepOf(p: Part): int { if p.step.Some? then p.step.value else 1 }

  predicate PartOk(p: Part, min: int, max: int) {
    StepOf(p) > 0 && min <= First(p, min) <= Last(p, max) <= max
  }

  /** What a part selects: every step-th value of its range. */
  predicate Selects(p: Part, min: int, max: int, v: int)
    requires StepOf(p) > 0
  {
    First(p, min) <= v <= Last(p, max) && (v - First(p, min)) % StepOf(p) == 0
  }

  predicate FieldOk(field: Field, min: int, max: int) {
    field != [] && forall i :: 0 <= i < |field| ==> PartOk(field[i], min, max)
  }

  /** The values that some part of the field selects. */
  ghost predicate Denotes(field: Field, min: int, max: int, values: set<int>)
    requires FieldOk(field, min, max)
  {
    forall v :: v in values <==> exists i :: 0 <= i < |field| && Selects(field[i], min, max, v)
  }

  predicate Within(values: set<int>, min: int, max: int) {
    values != {} && forall v :: v in values ==> min <= v <= max
  }

  /** Refused unless every part is within the field's bounds and has a positive step. */
  method ParseField(field: Field, min: int, max: int) returns (r: Result<set<int>>)
    ensures r.Ok? <==> FieldOk(field, min, max)
    ensures r.Ok? ==> Denotes(field, min, max, r.value) && Within(r.value, min, max)
    ensures r.Ok? <==> field != [] && forall i :: 0 <= i < |field| ==>
              && (field[i].step.Some? ==> field[i].step.value > 0)
              && (field[i].range.Some? ==> min <= field[i].range.value.0 <= field[i].range.value.1 <= max)
              && (field[i].range.None? ==> min <= max)
  {
    var result: set<int> := {};
    for k := 0 to |field|
      invariant forall i :: 0 <= i < k ==> PartOk(field[i], min, max)
      invariant forall v :: v in result <==> exists i :: 0 <= i < k && Selects(field[i], min, max, v)
      invariant k > 0 ==> result != {}
    {
      var p := field[k];
      if StepOf(p) <= 0 {
        return Error("Invalid cron step in field");
      }
      if First(p, min) < min || Last(p, max) > max || First(p, min) > Last(p, max) {
        return Error("Invalid cron field");
      }
      var values := ExpandPart(p, min, max);
      result := result + values;
    }
    if result == {} {
      return Error("Invalid cron field");
    }
    return Ok(result);
  }

  /** In numbers: every step-th value, counted from the start of the range, or of the field for a star. */
  lemma SelectsMeans(p: Part, min: int, max: int, v: int)
    requires PartOk(p, min, max)
    ensures p.range.Some? && p.step.Some? ==>
              (Selects(p, min, max, v) <==>
                 p.range.value.0 <= v <= p.range.value.1 && (v - p.range.value.0) % p.step.value == 0)
    ensures p.range.None? && p.step.Some? ==>
              (Selects(p, min, max, v) <==> min <= v <= max && (v - min) % p.step.value == 0)
    ensures p.range.Some? && p.step.None? ==> (Selects(p, min, max, v) <==> p.range.value.0 <= v <= p.range.value.1)
    ensures p.range.None? && p.step.None? ==> (Selects(p, min, max, v) <==> min <= v <= max)
  {
  }

  method ExpandPart(p: Part, min: int, max: int) returns (values: set<int>)
    requires PartOk(p, min, max)
    ensures forall v :: v in values <==> Selects(p, min, max, v)
    ensures values != {}
  {
    values := {};
    var v := First(p, min);
    ghost var n := 0;
    while v <= Last(p, max)
      invariant v == First(p, min) + n * StepOf(p) && n >= 0
      invariant forall x :: x in values <==> Selects(p, min, max, x) && x < v
      invariant n > 0 ==> values != {}
      decreases Last(p, max) - v
    {
      NextMultiple(StepOf(p), n);
      values := values + {v};
      v := v + StepOf(p);
      n := n + 1;
    }
  }

  lemma StepsGrow(a: int, b: int, step: int)
    requires a <= b && step > 0
    ensures a * step <= b * step
  {
  }

  lemma IsMultiple(n: int, step: int)
    requires step > 0
    ensures (n * step) % step == 0
  {
    var q := n * step / step;
    var r := n * step % step;
    assert n * step == step * q + r;
    if q < n {
      StepsGrow(q + 1, n, step);
    } else if n < q {
      StepsGrow(n + 1, q, step);
    }
  }

  /** Between two multiples of a step there is no other. */
  lemma NextMultiple(step: int, n: int)
    requires step > 0
    ensures (n * step) % step == 0
    ensures forall d :: n * step < d < n * step + step ==> d % step != 0
  {
    IsMultiple(n, step);
    forall d | n * step < d < n * step + step ensures d % step != 0 {
      var q := d / step;
      assert d == step * q + d % step;
      if q <= n { StepsGrow(q, n, step); } else { StepsGrow(n + 1, q, step); }
    }
  }

  // ---------- expressions ----------

  datatype Expression = Expression(
    minutes: set<int>,
    hours: set<int>,
    daysOfMonth: set<int>,
    months: set<int>,
    daysOfWeek: set<int>,
    dayOfMonthRestricted: bool,
    dayOfWeekRestricted: bool)

  predicate Valid(c: Expression) {
    && Within(c.minutes, 0, 59) && Within(c.hours, 0, 23) && Within(c.daysOfMonth, 1, 31)
    && Within(c.months, 1, 12) && Within(c.daysOfWeek, 0, 6)
  }

  const STAR: Field := [Part(None, None)]

  function FoldSunday(days: set<int>): set<int> {
    if 7 in days then days - {7} + {0} else days
  }

  /** Sunday may be 0 or 7, and is 0 from then on. */
  lemma SundayMeans(days: set<int>, d: int)
    requires Within(days, 0, 7)
    ensures d in FoldSunday(days) <==> if d == 0 then 0 in days || 7 in days else d in days && d != 7
  {
  }

  /** The five fields of an expression: 7 is Sunday too, and only a bare star leaves a day field unrestricted. */
  method ParseExpression(fields: seq<Field>) returns (r: Result<Expression>)
    ensures r.Ok? <==>
              && |fields| == 5 && FieldOk(fields[0], 0, 59) && FieldOk(fields[1], 0, 23) && FieldOk(fields[2], 1, 31)
              && FieldOk(fields[3], 1, 12) && FieldOk(fields[4], 0, 7)
    ensures r.Ok? ==>
              var c := r.value;
              && Valid(c)
              && Denotes(fields[0], 0, 59, c.minutes) && Denotes(fields[1], 0, 23, c.hours)
              && Denotes(fields[2], 1, 31, c.daysOfMonth) && Denotes(fields[3], 1, 12, c.months)
              && (exists days :: Denotes(fields[4], 0, 7, days) && c.daysOfWeek == FoldSunday(days))
              && c.dayOfMonthRestricted == (fields[2] != [Part(None, None)])
              && c.dayOfWeekRestricted == (fields[4] != [Part(None, None)])
  {
    hide Denotes, FieldOk;
    if |fields| != 5 {
      return Error("Cron expression must have 5 fields");
    }
    var minutes := ParseField(fields[0], 0, 59);
    if minutes.Error? { return Error(minutes.reason); }
    var hours := ParseField(fields[1], 0, 23);
    if hours.Error? { return Error(hours.reason); }
    var daysOfMonth := ParseField(fields[2], 1, 31);
    if daysOfMonth.Error? { return Error(daysOfMonth.reason); }
    var months := ParseField(fields[3], 1, 12);
    if months.Error? { return Error(months.reason); }
    var daysOfWeek := ParseField(fields[4], 0, 7);
    if daysOfWeek.Error? { return Error(daysOfWeek.reason); }
    return Ok(Expression(minutes.value, hours.value, daysOfMonth.value, months.value, FoldSunday(daysOfWeek.value),
                         fields[2] != STAR, fields[4] != STAR));
  }

  // ---------- matching ----------

  /** Both day fields restricted: either will do. */
  predicate DayMatches(c: Expression, day: nat) {
    if c.dayOfMonthRestricted && c.dayOfWeekRestricted then
      DateOf(day).day in c.daysOfMonth || WeekdayOf(day) in c.daysOfWeek
    else if c.dayOfMonthRestricted then DateOf(day).day in c.daysOfMonth
    else if c.dayOfWeekRestricted then WeekdayOf(day) in c.daysOfWeek
    else true
  }

  predicate Matches(c: Expression, t: nat) {
    var day := t / MINUTES_PER_DAY;
    && DateOf(day).month in c.months && DayMatches(c, day)
    && (t / 60) % 24 in c.hours && t % 60 in c.minutes
  }

  /**
   * A minute matches if its minute, hour and month are selected and so is its day: by date, counting from 1 January
   * 1970, or by weekday, counting from the first Sunday, 4 January; by either if both fields are restricted.
   */
  lemma MatchMeans(c: Expression, t: nat)
    ensures Matches(c, t) <==>
              var day := t / 1440;
              var byDate, byWeekday := DateOf(day).day in c.daysOfMonth, (day - 3) % 7 in c.daysOfWeek;
              && t % 60 in c.minutes && t / 60 % 24 in c.hours && DateOf(day).month in c.months
              && (if c.dayOfMonthRestricted && c.dayOfWeekRestricted then byDate || byWeekday
                  else (c.dayOfMonthRestricted ==> byDate) && (c.dayOfWeekRestricted ==> byWeekday))
  {
    hide DateOf;
    var day := t / 1440;
    assert (day + 4) % 7 == (day - 3) % 7;
  }

  /** The first whole minute after an instant. */
  function MinuteAfter(from: nat): nat {
    from / TICKS_PER_MINUTE + 1
  }

  /**
   * The earliest minute strictly after `from` that matches, if there is one in the next four years of 366 days;
   * otherwise None, for which the source throws.
   */
  method Next(c: Expression, from: nat) returns (r: Option<nat>)
    ensures r.Some? ==> Matches(c, r.value) && r.value * TICKS_PER_MINUTE > from
    ensures r.Some? ==>
              && r.value * 60_000_000_000 > from && r.value % 60 in c.minutes && r.value / 60 % 24 in c.hours
              && DateOf(r.value / 1440).month in c.months
    ensures r.Some? && c.dayOfWeekRestricted && !c.dayOfMonthRestricted ==> (r.value / 1440 - 3) % 7 in c.daysOfWeek
    ensures r.Some? && c.dayOfMonthRestricted && !c.dayOfWeekRestricted ==> DateOf(r.value / 1440).day in c.daysOfMonth
    ensures r.Some? ==> forall t: nat :: t * TICKS_PER_MINUTE > from && t < r.value ==> !Matches(c, t)
    ensures r.None? <==> NoMatchWithin(c, MinuteAfter(from), MAX_MINUTES_TO_SCAN)
    ensures r.None? <==>
              forall t: nat :: from / 60_000_000_000 < t <= from / 60_000_000_000 + 2108160 ==> !Matches(c, t)
  {
    hide Matches, NoMatchWithin, DateOf;
    ghost var start := MinuteAfter(from);
    ScanMeans(c, from);
    ScanStarts(c, start);
    var candidate := from / TICKS_PER_MINUTE + 1;
    for i := 0 to MAX_MINUTES_TO_SCAN
      invariant candidate == start + i && NoMatchWithin(c, start, i)
    {
      ScanGoesOn(c, start, i);
      if Matches(c, candidate) {
        FoundMeans(c, candidate);
        EarliestMeans(c, from, i);
        return Some(candidate);
      }
      candidate := candidate + 1;
    }
    return None;
  }

  lemma ScanStarts(c: Expression, start: nat)
    ensures NoMatchWithin(c, start, 0)
  {
  }

  lemma ScanGoesOn(c: Expression, start: nat, i: nat)
    requires NoMatchWithin(c, start, i)
    ensures NoMatchWithin(c, start, i + 1) <==> !Matches(c, start + i)
    ensures Matches(c, start + i) ==> forall n: nat :: n > i ==> !NoMatchWithin(c, start, n)
  {
    hide Matches;
  }

  /** What a match has in common with its expression. */
  lemma FoundMeans(c: Expression, t: nat)
    requires Matches(c, t)
    ensures t % 60 in c.minutes && t / 60 % 24 in c.hours && DateOf(t / 1440).month in c.months
    ensures c.dayOfWeekRestricted && !c.dayOfMonthRestricted ==> (t / 1440 - 3) % 7 in c.daysOfWeek
    ensures c.dayOfMonthRestricted && !c.dayOfWeekRestricted ==> DateOf(t / 1440).day in c.daysOfMonth
  {
    MatchMeans(c, t);
  }

  /** The first minutes without a match behind an instant, and the one after them. */
  lemma EarliestMeans(c: Expression, from: nat, n: nat)
    requires NoMatchWithin(c, MinuteAfter(from), n)
    ensures (MinuteAfter(from) + n) * 60_000_000_000 > from
    ensures forall t: nat :: t * 60_000_000_000 > from && t < MinuteAfter(from) + n ==> !Matches(c, t)
  {
    hide Matches;
  }

  lemma ScanMeans(c: Expression, from: nat)
    ensures NoMatchWithin(c, MinuteAfter(from), MAX_MINUTES_TO_SCAN) <==>
              forall t: nat :: from / 60_000_000_000 < t <= from / 60_000_000_000 + 2108160 ==> !Matches(c, t)
  {
    hide Matches;
  }

  ghost predicate NoMatchWithin(c: Expression, start: nat, length: nat) {
    forall t: nat :: start <= t < start + length ==> !Matches(c, t)
  }
}
