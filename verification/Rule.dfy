/**
  * Rules and the time of their next execution (common/rule.h, Rule::GetExecutionTime).
  * The clock is a parameter: `zone` is the time of some local Sunday midnight, and every
  * day has 86400 seconds.
  */
module Rules {
  const SECS_IN_DAY: int := 86400
  const MAX_TIMET: int := 0x7FFF_FFFF_FFFF_FFFF

  datatype Rule = Rule(
    enabled: bool,
    address: string,
    execTime: int,        // seconds after midnight
    period: int,          // weekdays, bit 0 for Sunday
    actionType: int,
    action: string,
    repeatTimes: int,
    repeatPeriodMn: int)

  // ---------------------------------------------------------------- the local clock

  function DayOf(zone: int, t: int): int { (t - zone) / SECS_IN_DAY }

  function SecondsOf(zone: int, t: int): int { (t - zone) % SECS_IN_DAY }

  function WeekdayOf(day: int): nat { day % 7 }

  lemma ClockReads(zone: int, t: int, day: int, seconds: int)
    requires t == zone + day * SECS_IN_DAY + seconds && 0 <= seconds < SECS_IN_DAY
    ensures DayOf(zone, t) == day && SecondsOf(zone, t) == seconds
  {
  }

  // ---------------------------------------------------------------- when a rule occurs

  /** The bit of a weekday in the period. */
  predicate Bit(period: int, weekday: nat) {
    match weekday
    case 0 => period % 2 == 1
    case 1 => period / 2 % 2 == 1
    case 2 => period / 4 % 2 == 1
    case 3 => period / 8 % 2 == 1
    case 4 => period / 16 % 2 == 1
    case 5 => period / 32 % 2 == 1
    case 6 => period / 64 % 2 == 1
    case _ => false
  }

  predicate DueOn(period: int, day: int) { Bit(period, WeekdayOf(day)) }

  function Pow2(n: nat): (p: nat)
    ensures p > 0
  {
    if n == 0 then 1 else 2 * Pow2(n - 1)
  }

  lemma Pow2Table()
    ensures Pow2(0) == 1 && Pow2(1) == 2 && Pow2(2) == 4 && Pow2(3) == 8
    ensures Pow2(4) == 16 && Pow2(5) == 32 && Pow2(6) == 64
  {
    assert Pow2(1) == 2 && Pow2(2) == 4 && Pow2(3) == 8;
    assert Pow2(4) == 16 && Pow2(5) == 32;
  }

  /** A rule is due on the days whose place in the week, counted from Sunday, is a binary digit
      of its period. */
  lemma DueOnIsBinaryDigit(period: int, day: int)
    ensures DueOn(period, day) <==> period / Pow2(day % 7) % 2 == 1
  {
    Pow2Table();
  }

  lemma WeekdayAdds(day: int, i: int)
    ensures (WeekdayOf(day) + i) % 7 == WeekdayOf(day + i)
  {
    var q := day / 7;
    assert day + i == 7 * q + (WeekdayOf(day) + i);
  }

  function Step(rule: Rule): int { 60 * rule.repeatPeriodMn }

  /** The execution number `repeat` of the rule on a day. */
  function Occurrence(rule: Rule, zone: int, day: int, repeat: int): int {
    zone + day * SECS_IN_DAY + rule.execTime + repeat * Step(rule)
  }

  predicate Occurs(rule: Rule, day: int, repeat: int) {
    DueOn(rule.period, day) && 0 <= repeat <= rule.repeatTimes
  }

  /** Still to come at `t`: strictly later, or the first execution of a day, exactly now. */
  predicate ToCome(rule: Rule, zone: int, t: int, day: int, repeat: int) {
    Occurs(rule, day, repeat) &&
    (t < Occurrence(rule, zone, day, repeat) || (t == Occurrence(rule, zone, day, repeat) && repeat == 0))
  }

  /** The earliest execution to come. */
  ghost predicate IsNext(rule: Rule, zone: int, t: int, next: int) {
    && (exists day, repeat :: ToCome(rule, zone, t, day, repeat) && Occurrence(rule, zone, day, repeat) == next)
    && (forall day, repeat :: ToCome(rule, zone, t, day, repeat) ==> next <= Occurrence(rule, zone, day, repeat))
  }

  /** A time of day, and a number of repeats. */
  predicate Timed(rule: Rule) {
    0 <= rule.execTime < SECS_IN_DAY && 0 <= rule.repeatTimes && 0 <= rule.repeatPeriodMn
  }

  /** The repeats of a day end by its midnight. */
  predicate ByMidnight(rule: Rule) {
    Timed(rule) && rule.execTime + rule.repeatTimes * Step(rule) <= SECS_IN_DAY
  }

  predicate TwoDaysOff(period: int, day: int) { !DueOn(period, day) && !DueOn(period, day + 1) }

  /** No two days in a row without the rule. */
  predicate AlternateDays(period: int) { forall w: nat :: w < 7 ==> !TwoDaysOff(period, w) }

  /** Not two weekdays. */
  predicate OneDay(period: int) {
    forall v: nat, w: nat :: v < 7 && w < 7 && Bit(period, v) && Bit(period, w) ==> v == w
  }

  /** Every day, repeated at a fraction of a day: the repeats of a day run into the next day's. */
  predicate OnDailyGrid(rule: Rule) {
    rule.period == 127 && 0 < Step(rule) <= SECS_IN_DAY && SECS_IN_DAY % Step(rule) == 0 && rule.execTime <= Step(rule)
  }

  /** At midnight, and at the midnights after it. */
  predicate AtMidnights(rule: Rule) {
    rule.execTime == 0 && Step(rule) == SECS_IN_DAY && AlternateDays(rule.period)
  }

  /** Once a week, repeated every week. */
  predicate Weekly(rule: Rule) { OneDay(rule.period) && Step(rule) == 7 * SECS_IN_DAY }

  /** In the last second of the day, the repeats falling on days the rule is due anyway. */
  predicate AtLastSecond(rule: Rule) {
    && rule.execTime == SECS_IN_DAY - 1
    && 0 < Step(rule) && Step(rule) % SECS_IN_DAY == 0
    && (rule.period == 127 || Step(rule) % (7 * SECS_IN_DAY) == 0)
  }

  /** Days and times for which looking at today's repeats and then at first executions is
      enough: the repeats end by midnight, or those past midnight fall where they are found. */
  predicate Scheduled(rule: Rule) {
    && Timed(rule) && 1 <= rule.period <= 127
    && (ByMidnight(rule) || OnDailyGrid(rule) || AtMidnights(rule) || Weekly(rule) || AtLastSecond(rule))
  }

  // ---------------------------------------------------------------- GetExecutionTime

  /** The first of the days `k`, `k + 1`, ... 6 after `day` on which the rule is due, or 7. */
  function DaysAhead(period: int, day: int, k: nat): (r: nat)
    requires k <= 7
    ensures k <= r <= 7
    ensures r < 7 ==> DueOn(period, day + r)
    ensures forall d :: day + k <= d < day + r ==> !DueOn(period, d)
    decreases 7 - k
  {
    if k == 7 || DueOn(period, day + k) then k else DaysAhead(period, day, k + 1)
  }

  /** The number of the repeat that follows `past` seconds after the first execution. */
  function Required(rule: Rule, past: int): int {
    if rule.repeatPeriodMn != 0 then 1 + past / Step(rule) else rule.repeatTimes + 1
  }

  /** The day and repeat GetExecutionTime settles on. */
  function NextDayAndRepeat(rule: Rule, day: int, seconds: int): (int, int) {
    if DueOn(rule.period, day) && rule.execTime >= seconds then (day, 0)
    else if DueOn(rule.period, day) && Required(rule, seconds - rule.execTime) <= rule.repeatTimes
    then (day, Required(rule, seconds - rule.execTime))
    else (day + DaysAhead(rule.period, day, 1), 0)
  }

  function ExecutionTime(rule: Rule, zone: int, t: int): int {
    if !rule.enabled || rule.period == 0 then MAX_TIMET
    else
      var (day, repeat) := NextDayAndRepeat(rule, DayOf(zone, t), SecondsOf(zone, t));
      Occurrence(rule, zone, day, repeat)
  }

  // ---------------------------------------------------------------- least next occurrence

  lemma MulGrows(a: int, b: int, step: int)
    requires a <= b && 0 <= step
    ensures a * step <= b * step
  {
  }

  /** Executions of a day fall within that day, its midnight included. */
  lemma OccurrenceInDay(rule: Rule, zone: int, day: int, repeat: int)
    requires ByMidnight(rule) && 0 <= repeat <= rule.repeatTimes
    ensures rule.execTime <= rule.execTime + repeat * Step(rule) <= SECS_IN_DAY
    ensures zone + day * SECS_IN_DAY <= Occurrence(rule, zone, day, repeat) <= zone + (day + 1) * SECS_IN_DAY
    ensures repeat == 0 ==> Occurrence(rule, zone, day, repeat) < zone + (day + 1) * SECS_IN_DAY
  {
    MulGrows(0, repeat, Step(rule));
    MulGrows(repeat, rule.repeatTimes, Step(rule));
  }

  /** A nonempty selection of weekdays has one among any seven days. */
  lemma SomeDay(period: int)
    requires 1 <= period <= 127
    ensures exists w: nat :: w < 7 && Bit(period, w)
  {
    if !Bit(period, 0) && !Bit(period, 1) && !Bit(period, 2) && !Bit(period, 3) &&
       !Bit(period, 4) && !Bit(period, 5) {
      assert Bit(period, 6);
    }
  }

  /** Every weekday comes within seven days. */
  lemma WeekdayComes(day: int, u: nat) returns (i: nat)
    requires u < 7
    ensures i < 7 && WeekdayOf(day + i) == u
  {
    i := (u - day) % 7;
    assert day + i == u - 7 * ((u - day) / 7);
  }

  /** The search always ends on a day the rule is due. */
  lemma NextDayIsDue(period: int, day: int)
    requires 1 <= period <= 127
    ensures DueOn(period, day + DaysAhead(period, day, 1))
  {
    var k := DaysAhead(period, day, 1);
    if k == 7 {
      WeekComesRound(period, day);
    }
  }

  /** A day with no due day among the next six is due itself, and a week later. */
  lemma WeekComesRound(period: int, day: int)
    requires 1 <= period <= 127 && forall d :: day + 1 <= d < day + 7 ==> !DueOn(period, d)
    ensures DueOn(period, day + 7)
  {
    SomeDay(period);
    var u: nat :| u < 7 && Bit(period, u);
    var i := WeekdayComes(day, u);
    assert DueOn(period, day + i);
    assert i == 0;
    WeekdayAdds(day, 7);
    assert WeekdayOf(day + 7) == u;
  }

  /** The number of the first repeat after `past` seconds. */
  lemma FirstRepeat(past: int, step: int, repeat: int)
    requires 0 <= past && 0 < step
    ensures (past / step) * step <= past < (1 + past / step) * step
    ensures repeat <= past / step ==> repeat * step <= past
    ensures repeat > past / step ==> (1 + past / step) * step <= repeat * step
  {
    if repeat <= past / step { MulGrows(repeat, past / step, step); }
    else { MulGrows(1 + past / step, repeat, step); }
  }

  lemma ExecutionTimeIsToCome(rule: Rule, zone: int, t: int)
    requires rule.enabled && Timed(rule) && 1 <= rule.period <= 127
    ensures var (day, repeat) := NextDayAndRepeat(rule, DayOf(zone, t), SecondsOf(zone, t));
            ToCome(rule, zone, t, day, repeat)
  {
    NextIsToCome(rule, zone, t, DayOf(zone, t), SecondsOf(zone, t));
  }

  lemma NextIsToCome(rule: Rule, zone: int, t: int, day: int, seconds: int)
    requires Timed(rule) && 1 <= rule.period <= 127
    requires t == zone + day * SECS_IN_DAY + seconds && 0 <= seconds < SECS_IN_DAY
    ensures var (d, repeat) := NextDayAndRepeat(rule, day, seconds); ToCome(rule, zone, t, d, repeat)
  {
    NextDayIsDue(rule.period, day);
    if rule.repeatPeriodMn != 0 && rule.execTime < seconds {
      FirstRepeat(seconds - rule.execTime, Step(rule), 0);
    }
  }

  /** The day of the first execution to come that is not a repeat. */
  function FirstDay(rule: Rule, day: int, seconds: int): int {
    if DueOn(rule.period, day) && rule.execTime >= seconds then day
    else day + DaysAhead(rule.period, day, 1)
  }

  lemma FirstDayIsToCome(rule: Rule, zone: int, t: int)
    requires Timed(rule) && 1 <= rule.period <= 127
    ensures ToCome(rule, zone, t, FirstDay(rule, DayOf(zone, t), SecondsOf(zone, t)), 0)
    ensures Occurrence(rule, zone, FirstDay(rule, DayOf(zone, t), SecondsOf(zone, t)), 0) < t + 7 * SECS_IN_DAY
  {
    var today := DayOf(zone, t);
    NextDayIsDue(rule.period, today);
    WeekdayAdds(today, 7);
  }

  lemma FirstDayIsLeast(rule: Rule, zone: int, t: int, day: int)
    requires Timed(rule) && DueOn(rule.period, day) && t <= Occurrence(rule, zone, day, 0)
    ensures FirstDay(rule, DayOf(zone, t), SecondsOf(zone, t)) <= day
  {
    assert DayOf(zone, t) <= day;
  }

  // Executions to come are not before the answer, for each kind of scheduled rule.

  lemma LeastToday(rule: Rule, zone: int, t: int, repeat: int)
    requires rule.enabled && 1 <= rule.period <= 127 && Timed(rule)
    requires ToCome(rule, zone, t, DayOf(zone, t), repeat)
    ensures ExecutionTime(rule, zone, t) <= Occurrence(rule, zone, DayOf(zone, t), repeat)
  {
    var past := SecondsOf(zone, t) - rule.execTime;
    if rule.repeatPeriodMn != 0 && past > 0 { FirstRepeat(past, Step(rule), repeat); }
    MulGrows(0, repeat, Step(rule));
  }

  lemma LeastByMidnight(rule: Rule, zone: int, t: int, day: int, repeat: int)
    requires rule.enabled && 1 <= rule.period <= 127 && ByMidnight(rule) && ToCome(rule, zone, t, day, repeat)
    ensures ExecutionTime(rule, zone, t) <= Occurrence(rule, zone, day, repeat)
  {
    var today := DayOf(zone, t);
    var (d, r) := NextDayAndRepeat(rule, today, SecondsOf(zone, t));
    OccurrenceInDay(rule, zone, day, repeat);
    assert day >= today;
    if day == today {
      LeastToday(rule, zone, t, repeat);
    } else if d < day {
      ExecutionTimeIsToCome(rule, zone, t);
      OccurrenceInDay(rule, zone, d, r);
    }
  }

  lemma EveryDayIsDue(day: int)
    ensures DueOn(127, day)
  {
    var w := WeekdayOf(day);
    assert w == 0 || w == 1 || w == 2 || w == 3 || w == 4 || w == 5 || w == 6;
  }

  /** A day of the grid counted in steps. */
  lemma GridPlace(rule: Rule, days: int, repeat: int) returns (m: int, k: int)
    requires OnDailyGrid(rule)
    ensures m > 0 && SECS_IN_DAY == m * Step(rule)
    ensures k == days * m + repeat
    ensures days * SECS_IN_DAY + repeat * Step(rule) == k * Step(rule)
  {
    var step := Step(rule);
    m := SECS_IN_DAY / step;
    assert SECS_IN_DAY == m * step;
    k := days * m + repeat;
    assert days * SECS_IN_DAY == (days * m) * step;
    assert k * step == (days * m) * step + repeat * step;
  }

  /** On the grid, before the first execution of the day. */
  lemma GridBefore(exec: int, step: int, seconds: int, k: int)
    requires 0 <= seconds <= exec <= step && 0 < step
    requires seconds < exec + k * step || (seconds == exec + k * step && exec < step)
    ensures exec <= exec + k * step
  {
    if k < 0 { MulGrows(k, -1, step); } else { MulGrows(0, k, step); }
  }

  /** On the grid, when the repeats of the day are over. */
  lemma GridAfter(exec: int, step: int, past: int, repeats: int, m: int, k: int)
    requires 0 < past && 0 < step && past < k * step && exec <= step
    requires 1 + past / step > repeats && exec + repeats * step > m * step
    ensures m * step <= k * step
  {
    FirstRepeat(past, step, k);
    assert (repeats + 1) * step == repeats * step + step;
    if repeats + 1 <= m { MulGrows(repeats + 1, m, step); }
    MulGrows(m, k, step);
  }

  /** How far after today's first execution the answer of a daily rule lies. */
  function DailyAnswer(rule: Rule, seconds: int): int {
    if seconds <= rule.execTime then 0
    else if Required(rule, seconds - rule.execTime) <= rule.repeatTimes
    then Required(rule, seconds - rule.execTime) * Step(rule)
    else SECS_IN_DAY
  }

  lemma AnswerIsDaily(rule: Rule, zone: int, t: int)
    requires rule.enabled && rule.period == 127
    ensures ExecutionTime(rule, zone, t) ==
            zone + DayOf(zone, t) * SECS_IN_DAY + rule.execTime + DailyAnswer(rule, SecondsOf(zone, t))
  {
    EveryDayIsDue(DayOf(zone, t));
    EveryDayIsDue(DayOf(zone, t) + 1);
  }

  lemma DailyAnswerIsLeast(rule: Rule, seconds: int, m: int, k: int)
    requires Timed(rule) && !ByMidnight(rule) && 0 <= seconds < SECS_IN_DAY
    requires 0 < Step(rule) && rule.execTime <= Step(rule) && SECS_IN_DAY == m * Step(rule)
    requires seconds < rule.execTime + k * Step(rule)
    ensures DailyAnswer(rule, seconds) <= k * Step(rule)
  {
    var past, step := seconds - rule.execTime, Step(rule);
    if past <= 0 {
      GridBefore(rule.execTime, step, seconds, k);
    } else {
      FirstRepeat(past, step, k);
      if Required(rule, past) > rule.repeatTimes {
        GridAfter(rule.execTime, step, past, rule.repeatTimes, m, k);
      }
    }
  }

  /** A first execution of today is answered in its own second. */
  lemma AnswerIsNow(rule: Rule, zone: int, day: int)
    requires rule.enabled && rule.period == 127 && 0 <= rule.execTime < SECS_IN_DAY
    ensures var t := zone + day * SECS_IN_DAY + rule.execTime; ExecutionTime(rule, zone, t) == t
  {
    ClockReads(zone, zone + day * SECS_IN_DAY + rule.execTime, day, rule.execTime);
    AnswerIsDaily(rule, zone, zone + day * SECS_IN_DAY + rule.execTime);
  }

  /** The place of an execution relative to today's first one. */
  lemma PlaceFromToday(rule: Rule, zone: int, today: int, day: int, repeat: int)
    ensures zone + today * SECS_IN_DAY + rule.execTime + (day - today) * SECS_IN_DAY + repeat * Step(rule) ==
            Occurrence(rule, zone, day, repeat)
  {
  }

  lemma LeastOnDailyGrid(rule: Rule, zone: int, t: int, day: int, repeat: int)
    requires rule.enabled && Timed(rule) && !ByMidnight(rule) && OnDailyGrid(rule)
    requires ToCome(rule, zone, t, day, repeat)
    ensures ExecutionTime(rule, zone, t) <= Occurrence(rule, zone, day, repeat)
  {
    if t == Occurrence(rule, zone, day, repeat) {
      AnswerIsNow(rule, zone, day);
    } else {
      var today, seconds := DayOf(zone, t), SecondsOf(zone, t);
      var m, k := GridPlace(rule, day - today, repeat);
      PlaceFromToday(rule, zone, today, day, repeat);
      LaterOnDailyGrid(rule, zone, t, today, seconds, m, k);
    }
  }

  lemma LaterOnDailyGrid(rule: Rule, zone: int, t: int, today: int, seconds: int, m: int, k: int)
    requires rule.enabled && rule.period == 127 && Timed(rule) && !ByMidnight(rule)
    requires 0 < Step(rule) && rule.execTime <= Step(rule) && SECS_IN_DAY == m * Step(rule)
    requires today == DayOf(zone, t) && seconds == SecondsOf(zone, t)
    requires t < zone + today * SECS_IN_DAY + rule.execTime + k * Step(rule)
    ensures ExecutionTime(rule, zone, t) <= zone + today * SECS_IN_DAY + rule.execTime + k * Step(rule)
  {
    AnswerIsDaily(rule, zone, t);
    DailyAnswerIsLeast(rule, seconds, m, k);
  }

  lemma NoTwoDaysOff(period: int, day: int)
    requires AlternateDays(period)
    ensures !TwoDaysOff(period, day)
  {
    WeekdayAdds(day, 1);
    assert !TwoDaysOff(period, WeekdayOf(day));
  }

  /** Answers at midnights: now, or the coming midnight. */
  lemma MidnightAnswer(rule: Rule, zone: int, t: int)
    requires rule.enabled && 1 <= rule.period && Timed(rule) && 1 <= rule.repeatTimes && AtMidnights(rule)
    ensures var today := DayOf(zone, t);
            ExecutionTime(rule, zone, t) ==
            if DueOn(rule.period, today) && SecondsOf(zone, t) == 0 then t else zone + today * SECS_IN_DAY + SECS_IN_DAY
  {
    var today, seconds := DayOf(zone, t), SecondsOf(zone, t);
    if DueOn(rule.period, today) {
      if seconds > 0 { assert Required(rule, seconds) == 1; }
    } else {
      NoTwoDaysOff(rule.period, today);
      assert DaysAhead(rule.period, today, 1) == 1;
    }
  }

  lemma LeastAtMidnights(rule: Rule, zone: int, t: int, day: int, repeat: int)
    requires rule.enabled && 1 <= rule.period && Timed(rule) && !ByMidnight(rule) && AtMidnights(rule)
    requires ToCome(rule, zone, t, day, repeat)
    ensures ExecutionTime(rule, zone, t) <= Occurrence(rule, zone, day, repeat)
  {
    assert Occurrence(rule, zone, day, repeat) == zone + (day + repeat) * SECS_IN_DAY;
    MidnightAnswer(rule, zone, t);
  }

  lemma SameWeekday(period: int, day: int, other: int)
    requires OneDay(period) && DueOn(period, day) && DueOn(period, other)
    ensures (other - day) % 7 == 0
  {
    assert WeekdayOf(day) == WeekdayOf(other);
  }

  lemma WeekLater(period: int, day: int, weeks: int)
    requires DueOn(period, day)
    ensures DueOn(period, day + 7 * weeks)
  {
    assert WeekdayOf(day + 7 * weeks) == WeekdayOf(day);
  }

  /** The only weekday comes back after a week. */
  lemma WeekAhead(period: int, day: int)
    requires OneDay(period) && DueOn(period, day)
    ensures DaysAhead(period, day, 1) == 7
  {
    var ahead := DaysAhead(period, day, 1);
    if ahead < 7 { SameWeekday(period, day, day + ahead); }
  }

  /** A weekly repeat is a first execution too, and today's repeat is next week's. */
  lemma WeeklyAnswer(rule: Rule, zone: int, t: int)
    requires rule.enabled && 1 <= rule.period && Timed(rule) && Weekly(rule) && 1 <= rule.repeatTimes
    ensures var today := FirstDay(rule, DayOf(zone, t), SecondsOf(zone, t));
            ExecutionTime(rule, zone, t) == zone + today * SECS_IN_DAY + rule.execTime
  {
    var today, seconds := DayOf(zone, t), SecondsOf(zone, t);
    if DueOn(rule.period, today) && rule.execTime < seconds {
      WeekAhead(rule.period, today);
      assert Required(rule, seconds - rule.execTime) == 1;
    }
  }

  /** A weekly repeat falls on a first execution some weeks later. */
  lemma WeeklyPlace(rule: Rule, zone: int, day: int, repeat: int, first: int)
    requires Step(rule) == 7 * SECS_IN_DAY && first == day + 7 * repeat
    ensures Occurrence(rule, zone, day, repeat) == Occurrence(rule, zone, first, 0)
  {
    assert repeat * Step(rule) == 7 * repeat * SECS_IN_DAY;
  }

  lemma LeastWeekly(rule: Rule, zone: int, t: int, day: int, repeat: int)
    requires rule.enabled && 1 <= rule.period && Timed(rule) && !ByMidnight(rule) && Weekly(rule)
    requires ToCome(rule, zone, t, day, repeat)
    ensures ExecutionTime(rule, zone, t) <= Occurrence(rule, zone, day, repeat)
  {
    WeekLater(rule.period, day, repeat);
    WeeklyPlace(rule, zone, day, repeat, day + 7 * repeat);
    LeastFirst(rule, zone, t, day + 7 * repeat);
  }

  /** No first execution to come is before the answer. */
  lemma LeastFirst(rule: Rule, zone: int, t: int, first: int)
    requires rule.enabled && 1 <= rule.period && Timed(rule) && Weekly(rule) && 1 <= rule.repeatTimes
    requires DueOn(rule.period, first) && t <= Occurrence(rule, zone, first, 0)
    ensures ExecutionTime(rule, zone, t) <= Occurrence(rule, zone, first, 0)
  {
    WeeklyAnswer(rule, zone, t);
    FirstDayIsLeast(rule, zone, t, first);
  }

  lemma LeastAtLastSecond(rule: Rule, zone: int, t: int, day: int, repeat: int)
    requires rule.enabled && 1 <= rule.period && Timed(rule) && AtLastSecond(rule)
    requires ToCome(rule, zone, t, day, repeat)
    ensures ExecutionTime(rule, zone, t) <= Occurrence(rule, zone, day, repeat)
  {
    var m := Step(rule) / SECS_IN_DAY;
    assert Step(rule) == m * SECS_IN_DAY;
    assert repeat * Step(rule) == (repeat * m) * SECS_IN_DAY;
    if rule.period == 127 {
      EveryDayIsDue(day + repeat * m);
    } else {
      var n := Step(rule) / (7 * SECS_IN_DAY);
      assert Step(rule) == n * (7 * SECS_IN_DAY);
      assert m == 7 * n;
      assert repeat * m == 7 * (repeat * n);
      WeekLater(rule.period, day, repeat * n);
    }
    FirstDayIsLeast(rule, zone, t, day + repeat * m);
  }

  lemma ExecutionTimeIsLeast(rule: Rule, zone: int, t: int, day: int, repeat: int)
    requires rule.enabled && Scheduled(rule) && ToCome(rule, zone, t, day, repeat)
    ensures ExecutionTime(rule, zone, t) <= Occurrence(rule, zone, day, repeat)
  {
    if ByMidnight(rule) { LeastByMidnight(rule, zone, t, day, repeat); }
    else if OnDailyGrid(rule) { LeastOnDailyGrid(rule, zone, t, day, repeat); }
    else if AtMidnights(rule) { LeastAtMidnights(rule, zone, t, day, repeat); }
    else if Weekly(rule) { LeastWeekly(rule, zone, t, day, repeat); }
    else { LeastAtLastSecond(rule, zone, t, day, repeat); }
  }

  /** The computed time is the earliest execution to come, over all days and repeats. */
  lemma ExecutionTimeIsNext(rule: Rule, zone: int, t: int)
    requires rule.enabled && Scheduled(rule)
    ensures IsNext(rule, zone, t, ExecutionTime(rule, zone, t))
  {
    ExecutionTimeIsToCome(rule, zone, t);
    forall day, repeat | ToCome(rule, zone, t, day, repeat)
      ensures ExecutionTime(rule, zone, t) <= Occurrence(rule, zone, day, repeat)
    {
      ExecutionTimeIsLeast(rule, zone, t, day, repeat);
    }
  }

  /** An execution in plain numbers: `d` days after a Sunday midnight whose weekday's binary
      digit is set in the period, `r` repeats after the time of day. */
  ghost predicate IsExecution(rule: Rule, zone: int, d: int, r: int, time: int) {
    && rule.period / Pow2(d % 7) % 2 == 1
    && 0 <= r <= rule.repeatTimes
    && time == zone + 86400 * d + rule.execTime + 60 * rule.repeatPeriodMn * r
  }

  lemma ExecutionsAreOccurrences(rule: Rule, zone: int, d: int, r: int, time: int)
    ensures IsExecution(rule, zone, d, r, time) <==> Occurs(rule, d, r) && Occurrence(rule, zone, d, r) == time
  {
    DueOnIsBinaryDigit(rule.period, d);
  }

  /** Whatever the period and the repeats, the answer is an execution, now or later. */
  lemma AnswerIsExecution(rule: Rule, zone: int, now: int)
    requires rule.enabled && Timed(rule) && 1 <= rule.period <= 127
    ensures now <= ExecutionTime(rule, zone, now)
    ensures exists d, r :: IsExecution(rule, zone, d, r, ExecutionTime(rule, zone, now))
  {
    ExecutionTimeIsToCome(rule, zone, now);
    var (d, r) := NextDayAndRepeat(rule, DayOf(zone, now), SecondsOf(zone, now));
    ExecutionsAreOccurrences(rule, zone, d, r, ExecutionTime(rule, zone, now));
  }

  /** For a scheduled rule no execution to come is before the answer. */
  lemma AnswerIsFirst(rule: Rule, zone: int, now: int)
    requires rule.enabled && Scheduled(rule)
    ensures IsNext(rule, zone, now, ExecutionTime(rule, zone, now))
    ensures forall d, r, other :: IsExecution(rule, zone, d, r, other) && (now < other || (now == other && r == 0)) ==>
                                    ExecutionTime(rule, zone, now) <= other
  {
    ExecutionTimeIsNext(rule, zone, now);
    forall d, r, other | IsExecution(rule, zone, d, r, other) && (now < other || (now == other && r == 0))
      ensures ExecutionTime(rule, zone, now) <= other
    {
      ExecutionsAreOccurrences(rule, zone, d, r, other);
      ExecutionTimeIsLeast(rule, zone, now, d, r);
    }
  }

  /** A rule for one weekday, asked on the Sunday midnight: that many days later. */
  lemma OneWeekdayAnswer(rule: Rule, zone: int, weekday: nat)
    requires weekday < 7 && rule.enabled && rule.period == Pow2(weekday)
    requires 0 <= rule.execTime < 86400 && rule.repeatTimes == 0 && rule.repeatPeriodMn >= 0
    ensures ExecutionTime(rule, zone, zone) == zone + 86400 * weekday + rule.execTime
  {
    OneWeekdayIsScheduled(rule, weekday);
    ExecutionTimeIsToCome(rule, zone, zone);
    WeekdayIsToCome(rule, zone, weekday);
    ExecutionTimeIsLeast(rule, zone, zone, weekday, 0);
    var (d, r) := NextDayAndRepeat(rule, DayOf(zone, zone), SecondsOf(zone, zone));
    OneWeekdayIs(rule, zone, weekday, d, ExecutionTime(rule, zone, zone));
  }

  lemma WeekdayIsToCome(rule: Rule, zone: int, weekday: nat)
    requires weekday < 7 && rule.period == Pow2(weekday) && 0 <= rule.execTime && rule.repeatTimes == 0
    ensures ToCome(rule, zone, zone, weekday, 0)
    ensures Occurrence(rule, zone, weekday, 0) == zone + 86400 * weekday + rule.execTime
  {
    OnlyBit(weekday, weekday);
  }

  lemma OneWeekdayIsScheduled(rule: Rule, weekday: nat)
    requires weekday < 7 && rule.period == Pow2(weekday)
    requires 0 <= rule.execTime < 86400 && rule.repeatTimes == 0 && rule.repeatPeriodMn >= 0
    ensures Scheduled(rule)
  {
    Pow2Table();
  }

  lemma OneWeekdayIs(rule: Rule, zone: int, weekday: nat, d: int, time: int)
    requires weekday < 7 && rule.period == Pow2(weekday) && DueOn(rule.period, d)
    requires 0 <= rule.execTime < 86400 && time == zone + 86400 * d + rule.execTime
    requires zone <= time <= zone + 86400 * weekday + rule.execTime
    ensures time == zone + 86400 * weekday + rule.execTime
  {
    OnlyBit(weekday, WeekdayOf(d));
  }

  lemma OnlyBit(weekday: nat, other: nat)
    requires weekday < 7 && other < 7
    ensures Bit(Pow2(weekday), other) <==> other == weekday
  {
    Pow2Table();
  }

  /** GetExecutionTime, with its search loop over the days of the week. */
  method GetExecutionTime(rule: Rule, zone: int, now: int) returns (time: int)
    ensures time == ExecutionTime(rule, zone, now)
    ensures !rule.enabled || rule.period == 0 ==> time == 9223372036854775807
    ensures rule.enabled && Scheduled(rule) ==> IsNext(rule, zone, now, time)
    ensures rule.enabled && Timed(rule) && 1 <= rule.period <= 127 ==>
              now <= time && exists d, r :: IsExecution(rule, zone, d, r, time)
    ensures rule.enabled && Scheduled(rule) ==>
              forall d, r, other :: IsExecution(rule, zone, d, r, other) && (now < other || (now == other && r == 0)) ==>
                                      time <= other
  {
    if rule.enabled && Timed(rule) && 1 <= rule.period <= 127 { AnswerIsExecution(rule, zone, now); }
    if rule.enabled && Scheduled(rule) { AnswerIsFirst(rule, zone, now); }
    if !rule.enabled || rule.period == 0 {
      return MAX_TIMET;
    }
    var wday := WeekdayOf(DayOf(zone, now));
    var nbSecsToday := SecondsOf(zone, now);
    var finalExecTime := now + rule.execTime - nbSecsToday;
    if Bit(rule.period, wday) {
      if rule.execTime < nbSecsToday {
        var nbRepeatsRequired := if rule.repeatPeriodMn != 0
        then 1 + (nbSecsToday - rule.execTime) / (60 * rule.repeatPeriodMn)
        else rule.repeatTimes + 1;
        if nbRepeatsRequired <= rule.repeatTimes {
          return finalExecTime + nbRepeatsRequired * (60 * rule.repeatPeriodMn);
        }
      } else {
        return finalExecTime;
      }
    }
    var inNbDays := DaysUntilDue(rule.period, DayOf(zone, now));
    return finalExecTime + inNbDays * SECS_IN_DAY;
  }

  lemma SearchStep(period: int, day: int, wday: nat, i: nat, ahead: nat) returns (due: bool)
    requires i < 7 && wday == WeekdayOf(day) && ahead == DaysAhead(period, day, i)
    ensures due == Bit(period, (wday + i) % 7)
    ensures due ==> ahead == i
    ensures !due ==> ahead == DaysAhead(period, day, i + 1)
  {
    WeekdayAdds(day, i);
    due := Bit(period, (wday + i) % 7);
  }

  /** The search for the next valid day, a week at most. */
  method DaysUntilDue(period: int, day: int) returns (inNbDays: nat)
    ensures inNbDays == DaysAhead(period, day, 1)
  {
    var wday := WeekdayOf(day);
    ghost var ahead := DaysAhead(period, day, 1);
    inNbDays := 1;
    while inNbDays < 7
      invariant 1 <= inNbDays <= 7
      invariant ahead == DaysAhead(period, day, inNbDays)
    {
      ghost var due := SearchStep(period, day, wday, inNbDays, ahead);
      if Bit(period, (wday + inNbDays) % 7) {
        break;
      }
      inNbDays := inNbDays + 1;
    }
  }

  // ---------------------------------------------------------------- the deadline, and enumeration

  /** The first execution of a day is due exactly now. */
  predicate DueNow(rule: Rule, zone: int, t: int) {
    DueOn(rule.period, DayOf(zone, t)) && SecondsOf(zone, t) == rule.execTime
  }

  ghost predicate Upcoming(rule: Rule, zone: int, t: int, time: int) {
    exists day, repeat :: ToCome(rule, zone, t, day, repeat) && Occurrence(rule, zone, day, repeat) == time
  }

  lemma NextIsSoon(rule: Rule, zone: int, t: int)
    requires rule.enabled && Scheduled(rule)
    ensures t <= ExecutionTime(rule, zone, t) < t + 7 * SECS_IN_DAY
    ensures ExecutionTime(rule, zone, t) == t <==> DueNow(rule, zone, t)
  {
    ExecutionTimeIsToCome(rule, zone, t);
    FirstDayIsToCome(rule, zone, t);
    ExecutionTimeIsLeast(rule, zone, t, FirstDay(rule, DayOf(zone, t), SecondsOf(zone, t)), 0);
  }

  /** What is to come after an answer is to come one second after it. */
  lemma StillUpcoming(rule: Rule, zone: int, t: int, time: int)
    requires rule.enabled && Scheduled(rule)
    requires Upcoming(rule, zone, t, time) && ExecutionTime(rule, zone, t) < time
    ensures Upcoming(rule, zone, ExecutionTime(rule, zone, t) + 1, time)
  {
    ExecutionTimeIsToCome(rule, zone, t);
    var (d, r) := NextDayAndRepeat(rule, DayOf(zone, t), SecondsOf(zone, t));
    StillUpcomingAfter(rule, zone, t, d, r, time);
  }

  lemma StillUpcomingAfter(rule: Rule, zone: int, t: int, d: int, r: int, time: int)
    requires Occurs(rule, d, r) && Upcoming(rule, zone, t, time)
    requires Occurrence(rule, zone, d, r) < time
    ensures Upcoming(rule, zone, Occurrence(rule, zone, d, r) + 1, time)
  {
    var e := Occurrence(rule, zone, d, r);
    var day, repeat :| ToCome(rule, zone, t, day, repeat) && Occurrence(rule, zone, day, repeat) == time;
    MinutesApart(rule, zone, d, r, day, repeat);
    assert ToCome(rule, zone, e + 1, day, repeat);
  }

  /** Executions of a rule lie whole minutes apart. */
  lemma MinutesApart(rule: Rule, zone: int, d: int, r: int, day: int, repeat: int)
    ensures (Occurrence(rule, zone, day, repeat) - Occurrence(rule, zone, d, r)) % 60 == 0
  {
    var minutes := (day - d) * 1440 + (repeat - r) * rule.repeatPeriodMn;
    assert (repeat - r) * Step(rule) == 60 * ((repeat - r) * rule.repeatPeriodMn);
    assert (repeat - r) * Step(rule) == repeat * Step(rule) - r * Step(rule);
    assert Occurrence(rule, zone, day, repeat) - Occurrence(rule, zone, d, r) == 60 * minutes;
  }

  /** The answers obtained by asking again one second after each answer. */
  function Listing(rule: Rule, zone: int, t: int, n: nat): seq<int>
    decreases n
  {
    if n == 0 then []
    else
      var e := ExecutionTime(rule, zone, t);
      [e] + Listing(rule, zone, e + 1, n - 1)
  }

  /** `n` executions to come, in ascending order. */
  ghost predicate Ascends(rule: Rule, zone: int, t: int, l: seq<int>, n: nat) {
    && |l| == n
    && (forall i :: 0 <= i < n ==> t <= l[i] && Upcoming(rule, zone, t, l[i]))
    && (forall i, j :: 0 <= i < j < n ==> l[i] < l[j])
  }

  /** The listing goes on strictly upwards through executions to come. */
  lemma {:induction false} ListingAscends(rule: Rule, zone: int, t: int, n: nat)
    requires rule.enabled && Scheduled(rule)
    ensures Ascends(rule, zone, t, Listing(rule, zone, t, n), n)
    decreases n
  {
    if n > 0 {
      NextIsSoon(rule, zone, t);
      NextIsUpcoming(rule, zone, t);
      ListingAscends(rule, zone, ExecutionTime(rule, zone, t) + 1, n - 1);
      ListingStep(rule, zone, t, n);
    }
  }

  lemma NextIsUpcoming(rule: Rule, zone: int, t: int)
    requires rule.enabled && Scheduled(rule)
    ensures Upcoming(rule, zone, t, ExecutionTime(rule, zone, t))
    ensures forall time :: Upcoming(rule, zone, t, time) ==> ExecutionTime(rule, zone, t) <= time
  {
    ExecutionTimeIsNext(rule, zone, t);
  }

  lemma ListingStep(rule: Rule, zone: int, t: int, n: nat)
    requires n > 0 && t <= ExecutionTime(rule, zone, t) && Upcoming(rule, zone, t, ExecutionTime(rule, zone, t))
    requires var e := ExecutionTime(rule, zone, t);
             Ascends(rule, zone, e + 1, Listing(rule, zone, e + 1, n - 1), n - 1)
    ensures Ascends(rule, zone, t, Listing(rule, zone, t, n), n)
  {
    var e := ExecutionTime(rule, zone, t);
    var rest := Listing(rule, zone, e + 1, n - 1);
    assert Listing(rule, zone, t, n) == [e] + rest;
    forall i | 0 <= i < n - 1
      ensures Upcoming(rule, zone, t, rest[i])
    {
      EarlierUpcoming(rule, zone, t, e + 1, rest[i]);
    }
  }

  lemma EarlierUpcoming(rule: Rule, zone: int, t: int, later: int, time: int)
    requires t < later && Upcoming(rule, zone, later, time)
    ensures Upcoming(rule, zone, t, time)
  {
    var day, repeat :| ToCome(rule, zone, later, day, repeat) && Occurrence(rule, zone, day, repeat) == time;
    assert ToCome(rule, zone, t, day, repeat);
  }

  /** Nothing is skipped: every execution to come is listed, sooner or later, and every one
      up to the last answer already is. */
  lemma {:induction false} ListingIsComplete(rule: Rule, zone: int, t: int, time: int) returns (n: nat)
    requires rule.enabled && Scheduled(rule) && Upcoming(rule, zone, t, time)
    ensures n > 0 && |Listing(rule, zone, t, n)| == n && Listing(rule, zone, t, n)[n - 1] == time
    decreases time - t, 1
  {
    NextIsUpcoming(rule, zone, t);
    NextIsSoon(rule, zone, t);
    var e := ExecutionTime(rule, zone, t);
    n := ListingOnwards(rule, zone, t, e, time);
  }

  lemma {:induction false} ListingOnwards(rule: Rule, zone: int, t: int, e: int, time: int) returns (n: nat)
    requires rule.enabled && Scheduled(rule) && Upcoming(rule, zone, t, time)
    requires e == ExecutionTime(rule, zone, t) && t <= e <= time
    ensures n > 0 && |Listing(rule, zone, t, n)| == n && Listing(rule, zone, t, n)[n - 1] == time
    decreases time - t, 0
  {
    if e == time {
      n := 1;
      assert Listing(rule, zone, t, 1) == [e] + Listing(rule, zone, e + 1, 0);
    } else {
      StillUpcoming(rule, zone, t, time);
      var m := ListingIsComplete(rule, zone, e + 1, time);
      n := m + 1;
      assert Listing(rule, zone, t, n) == [e] + Listing(rule, zone, e + 1, m);
    }
  }

  lemma ListingSkipsNothing(rule: Rule, zone: int, t: int, time: int, n: nat)
    requires rule.enabled && Scheduled(rule) && Upcoming(rule, zone, t, time)
    ensures var l := Listing(rule, zone, t, n);
            time in l || forall i :: 0 <= i < |l| ==> l[i] < time
  {
    var m := ListingIsComplete(rule, zone, t, time);
    ListingPrefix(rule, zone, t, m, n);
    ListingPrefix(rule, zone, t, n, m);
    ListingAscends(rule, zone, t, m);
    var l := Listing(rule, zone, t, n);
    if m <= n {
      assert l[m - 1] == time;
    } else {
      assert l == Listing(rule, zone, t, m)[..n];
    }
  }

  lemma {:induction false} ListingPrefix(rule: Rule, zone: int, t: int, m: nat, n: nat)
    ensures |Listing(rule, zone, t, m)| == m && |Listing(rule, zone, t, n)| == n
    ensures m <= n ==> Listing(rule, zone, t, m) == Listing(rule, zone, t, n)[..m]
    decreases m + n
  {
    if m > 0 && n > 0 {
      ListingPrefix(rule, zone, ExecutionTime(rule, zone, t) + 1, m - 1, n - 1);
    } else if m > 0 {
      ListingPrefix(rule, zone, ExecutionTime(rule, zone, t) + 1, m - 1, 0);
    } else if n > 0 {
      ListingPrefix(rule, zone, ExecutionTime(rule, zone, t) + 1, 0, n - 1);
    }
  }
}
