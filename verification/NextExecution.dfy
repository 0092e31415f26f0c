/**
  * Which rules Rule::GetExecutionTime answers correctly at every moment: exactly the scheduled
  * ones. Every other enabled rule is given a moment at which an execution is skipped.
  */
module NextExecutions {
  import opened Rules

  /** At `t` the answer is not the next execution. */
  ghost predicate Fails(rule: Rule, t: int) { !IsNext(rule, 0, t, ExecutionTime(rule, 0, t)) }

  /** An execution to come before the answer is skipped. */
  lemma SkippedFails(rule: Rule, t: int, day: int, repeat: int)
    requires ToCome(rule, 0, t, day, repeat)
    requires Occurrence(rule, 0, day, repeat) < ExecutionTime(rule, 0, t)
    ensures Fails(rule, t)
  {
  }

  /** Answers only ever fail by skipping. */
  lemma FailsExactly(rule: Rule, zone: int, t: int)
    requires rule.enabled && Timed(rule) && 1 <= rule.period <= 127
    ensures !IsNext(rule, zone, t, ExecutionTime(rule, zone, t)) <==>
            exists day, repeat :: ToCome(rule, zone, t, day, repeat) &&
                                  Occurrence(rule, zone, day, repeat) < ExecutionTime(rule, zone, t)
  {
    ExecutionTimeIsToCome(rule, zone, t);
  }

  // ---------------------------------------------------------------- the days of the week

  lemma AllDaysDue(period: int)
    requires 0 <= period < 128
    requires Bit(period, 0) && Bit(period, 1) && Bit(period, 2) && Bit(period, 3)
    requires Bit(period, 4) && Bit(period, 5) && Bit(period, 6)
    ensures period == 127
  {
  }

  /** A day the rule is due is followed by another one `m` days later. */
  predicate Again(period: int, m: int, day: int) {
    DueOn(period, day) ==> DueOn(period, day + m)
  }

  lemma {:induction false} AgainAndAgain(period: int, m: int, day: int, k: nat)
    requires DueOn(period, day) && forall d :: Again(period, m, d)
    ensures DueOn(period, day + k * m)
  {
    if k > 0 {
      AgainAndAgain(period, m, day, k - 1);
      assert Again(period, m, day + (k - 1) * m);
      assert day + k * m == day + (k - 1) * m + m;
    }
  }

  lemma Strides(k: int, r: int, q: int, c: int)
    requires k * r == 1 + 7 * c
    ensures k * (r + 7 * q) == 1 + 7 * (c + k * q)
  {
  }

  /** Some number of strides of `m` days is one day more than a number of weeks. */
  lemma Inverse(m: int) returns (k: nat, weeks: int)
    requires m % 7 != 0
    ensures k * m == 1 + 7 * weeks
  {
    var r, q := m % 7, m / 7;
    var c: int;
    k, c := if r == 1 then 1 else if r == 2 then 4 else if r == 3 then 5
      else if r == 4 then 2 else if r == 5 then 3 else 6,
      if r == 1 then 0 else if r == 2 then 1 else if r == 3 then 2
      else if r == 4 then 1 else if r == 5 then 2 else 5;
    Strides(k, r, q, c);
    weeks := c + k * q;
  }

  lemma Tomorrow(period: int, m: int, day: int)
    requires DueOn(period, day) && m % 7 != 0 && forall d :: Again(period, m, d)
    ensures DueOn(period, day + 1)
  {
    var k, weeks := Inverse(m);
    AgainAndAgain(period, m, day, k);
    WeekLater(period, day + k * m, -weeks);
    assert day + k * m + 7 * (-weeks) == day + 1;
  }

  /** From a due day all weekdays are reached day by day. */
  lemma EveryWeekday(period: int, day: int, v: nat)
    requires DueOn(period, day) && v < 7 && forall d :: Again(period, 1, d)
    ensures Bit(period, v)
  {
    var i := WeekdayComes(day, v);
    AgainAndAgain(period, 1, day, i);
  }

  lemma AgainTomorrow(period: int, m: int)
    requires m % 7 != 0 && forall d :: Again(period, m, d)
    ensures forall d :: Again(period, 1, d)
  {
    forall d ensures Again(period, 1, d) {
      if DueOn(period, d) { Tomorrow(period, m, d); }
    }
  }

  /** Days due again `m` days later, `m` no number of weeks, are all days. */
  lemma ClosedIsAll(period: int, m: int)
    requires 1 <= period <= 127 && m % 7 != 0 && forall d :: Again(period, m, d)
    ensures period == 127
  {
    var day := SomeDueDay(period);
    AgainTomorrow(period, m);
    forall v: nat | v < 7
      ensures Bit(period, v)
    {
      EveryWeekday(period, day, v);
    }
    AllDaysDue(period);
  }

  /** Some due day has no due day `m` days later. */
  lemma LeavesTheRule(period: int, m: int) returns (day: int)
    requires 1 <= period < 127 && m % 7 != 0
    ensures DueOn(period, day) && !DueOn(period, day + m)
  {
    assert exists d :: !Again(period, m, d) by {
      if forall d :: Again(period, m, d) { ClosedIsAll(period, m); }
    }
    day :| !Again(period, m, day);
  }

  lemma SomeDueDay(period: int) returns (day: int)
    requires 1 <= period <= 127
    ensures 0 <= day < 7 && DueOn(period, day)
  {
    SomeDay(period);
    var u: nat :| u < 7 && Bit(period, u);
    day := u;
  }

  /** Some due day is followed by two days off, if any two days off follow each other. */
  lemma BeforeTwoDaysOff(period: int) returns (day: int)
    requires 1 <= period <= 127 && !AlternateDays(period)
    ensures DueOn(period, day) && TwoDaysOff(period, day + 1)
  {
    var v: nat :| v < 7 && TwoDaysOff(period, v);
    var u := SomeDueDay(period);
    WeekLater(period, u, -1);
    day := LastDueBefore(period, v, v - (u - 7));
  }

  lemma {:induction false} LastDueBefore(period: int, v: int, n: nat) returns (day: int)
    requires TwoDaysOff(period, v) && DueOn(period, v - n)
    ensures DueOn(period, day) && TwoDaysOff(period, day + 1)
    decreases n
  {
    if DueOn(period, v - 1) { day := v - 1; } else { day := LastDueBefore(period, v - 1, n - 1); }
  }

  // ---------------------------------------------------------------- repeats less than a day apart

  /** The first repeat past midnight of a rule that does not end by midnight. */
  lemma FirstLateRepeat(rule: Rule) returns (j: nat)
    requires Timed(rule) && !ByMidnight(rule) && Step(rule) < SECS_IN_DAY
    ensures 1 <= j <= rule.repeatTimes && 0 < Step(rule)
    ensures SECS_IN_DAY < rule.execTime + j * Step(rule) <= SECS_IN_DAY + Step(rule)
  {
    var left, step := SECS_IN_DAY - rule.execTime, Step(rule);
    FirstRepeat(left, step, rule.repeatTimes);
    j := 1 + left / step;
    assert j * step == (left / step) * step + step;
  }

  /** On a day that is not due, the answer lies on a later day. */
  lemma AnswerOnDayOff(rule: Rule, t: int, day: int, seconds: int)
    requires rule.enabled && 1 <= rule.period && !DueOn(rule.period, day)
    requires t == day * SECS_IN_DAY + seconds && 0 <= seconds < SECS_IN_DAY
    ensures ExecutionTime(rule, 0, t) >= (day + 1) * SECS_IN_DAY + rule.execTime
    ensures !DueOn(rule.period, day + 1) ==> ExecutionTime(rule, 0, t) >= (day + 2) * SECS_IN_DAY + rule.execTime
  {
    ClockReads(0, t, day, seconds);
  }

  /** In the second after a first execution whose repeats are a day or more apart, the answer
      is the repeat. */
  lemma AnswerOnceDue(rule: Rule, t: int, day: int, seconds: int)
    requires rule.enabled && 1 <= rule.period && DueOn(rule.period, day) && 1 <= rule.repeatTimes
    requires t == day * SECS_IN_DAY + seconds && 0 <= seconds < SECS_IN_DAY
    requires rule.execTime < seconds < rule.execTime + Step(rule)
    ensures ExecutionTime(rule, 0, t) == Occurrence(rule, 0, day, 1)
  {
    ClockReads(0, t, day, seconds);
    SmallQuotient(seconds - rule.execTime, Step(rule));
  }

  lemma SmallQuotient(past: int, step: int)
    requires 0 <= past < step
    ensures past / step == 0
  {
    FirstRepeat(past, step, 1);
    FirstRepeat(past, step, 0);
  }

  /** A repeat past midnight is missed on the day after, when that day is not due. */
  lemma LateRepeatIsMissed(rule: Rule) returns (t: int)
    requires rule.enabled && Timed(rule) && !ByMidnight(rule)
    requires 1 <= rule.period < 127 && Step(rule) < SECS_IN_DAY
    ensures Fails(rule, t)
  {
    var w := LeavesTheRule(rule.period, 1);
    var j := FirstLateRepeat(rule);
    t := Occurrence(rule, 0, w, j) - 1;
    AnswerOnDayOff(rule, t, w + 1, rule.execTime + j * Step(rule) - SECS_IN_DAY - 1);
    SkippedFails(rule, t, w, j);
  }

  lemma Divides(k: int, step: int)
    requires 0 < step
    ensures (k * step) % step == 0
  {
    var q, r := (k * step) / step, (k * step) % step;
    assert k * step == q * step + r;
    if k > q { MulGrows(q + 1, k, step); }
    if k < q { MulGrows(k + 1, q, step); }
  }

  /** Off the grid, the late repeat meets neither the first execution of the day it falls on
      nor, at the end of a step, the repeat after it, and is never one second after it. */
  lemma OffGrid(exec: int, step: int, j: int, minutes: int)
    requires 0 <= exec && 0 < step == 60 * minutes < SECS_IN_DAY
    requires SECS_IN_DAY < exec + j * step <= SECS_IN_DAY + step
    requires SECS_IN_DAY % step != 0 || exec > step
    ensures j * step != SECS_IN_DAY
    ensures j * step != SECS_IN_DAY + 1
    ensures exec == 0 ==> j * step != SECS_IN_DAY + step
  {
    var n := j * minutes;
    assert j * step == 60 * n;
    if j * step == SECS_IN_DAY { Divides(j, step); }
    if exec == 0 && j * step == SECS_IN_DAY + step {
      assert (j - 1) * step == j * step - step;
      Divides(j - 1, step);
    }
  }

  /** The repeats of a daily rule that are off the grid miss one after midnight. */
  lemma OffGridIsMissed(rule: Rule) returns (t: int)
    requires rule.enabled && Timed(rule) && !ByMidnight(rule)
    requires rule.period == 127 && Step(rule) < SECS_IN_DAY && !OnDailyGrid(rule)
    ensures Fails(rule, t)
  {
    var j := FirstLateRepeat(rule);
    var exec, step := rule.execTime, Step(rule);
    var r := exec + j * step - SECS_IN_DAY;
    t := Occurrence(rule, 0, 0, j) - 1;
    EveryDayIsDue(0);
    EveryDayIsDue(1);
    OffGrid(exec, step, j, rule.repeatPeriodMn);
    if exec < r - 1 {
      AnswerOnceDue(rule, t, 1, r - 1);
    } else {
      ClockReads(0, t, 1, r - 1);
    }
    SkippedFails(rule, t, 0, j);
  }

  // ---------------------------------------------------------------- repeats a day or more apart

  /** A rule due in the last second of the day is never answered with a repeat. */
  lemma AnswerAtLastSecond(rule: Rule, t: int) returns (d: int)
    requires rule.enabled && Timed(rule) && 1 <= rule.period && rule.execTime == SECS_IN_DAY - 1
    ensures ExecutionTime(rule, 0, t) == Occurrence(rule, 0, d, 0)
    ensures t <= Occurrence(rule, 0, d, 0)
  {
    d := FirstDay(rule, DayOf(0, t), SecondsOf(0, t));
  }

  /** A repeat off the last second of a day is never an answer. */
  lemma OffSecondIsMissed(rule: Rule) returns (t: int)
    requires rule.enabled && Timed(rule) && !ByMidnight(rule) && 1 <= rule.period <= 127
    requires rule.execTime == SECS_IN_DAY - 1 && Step(rule) % SECS_IN_DAY != 0
    ensures Fails(rule, t)
  {
    var w := SomeDueDay(rule.period);
    t := Occurrence(rule, 0, w, 1) - 1;
    var d := AnswerAtLastSecond(rule, t);
    MinutesApart(rule, 0, d, 0, w, 1);
    if Occurrence(rule, 0, d, 0) == Occurrence(rule, 0, w, 1) {
      assert false;
    }
    SkippedFails(rule, t, w, 1);
  }

  /** A repeat on the last second of a day that is not due is missed. */
  lemma OffDayIsMissed(rule: Rule, m: int) returns (t: int)
    requires rule.enabled && Timed(rule) && !ByMidnight(rule) && 1 <= rule.period < 127
    requires rule.execTime == SECS_IN_DAY - 1 && Step(rule) == m * SECS_IN_DAY && m % 7 != 0
    ensures Fails(rule, t)
  {
    var w := LeavesTheRule(rule.period, m);
    t := Occurrence(rule, 0, w, 1) - 1;
    AnswerOnDayOff(rule, t, w + m, SECS_IN_DAY - 2);
    SkippedFails(rule, t, w, 1);
  }

  /** A repeat on the second midnight of two days off is missed. */
  lemma SecondMidnightIsMissed(rule: Rule) returns (t: int)
    requires rule.enabled && Timed(rule) && !ByMidnight(rule) && 1 <= rule.period <= 127
    requires rule.execTime == 0 && Step(rule) == SECS_IN_DAY && !AlternateDays(rule.period)
    ensures Fails(rule, t)
  {
    var w := BeforeTwoDaysOff(rule.period);
    t := Occurrence(rule, 0, w, 2) - 1;
    AnswerOnDayOff(rule, t, w + 1, SECS_IN_DAY - 1);
    SkippedFails(rule, t, w, 2);
  }

  /** A gap that is no week, and no day of an everyday rule, is not the gap after every day. */
  lemma OtherGap(period: int, gap: nat) returns (other: int)
    requires 1 <= period < 127 && 1 <= gap < 7
    ensures DueOn(period, other) && DaysAhead(period, other, 1) != gap
  {
    other := LeavesTheRule(period, gap);
  }

  /** Some due day is followed by the next one at another distance than the repeat. */
  lemma UnequalGap(period: int, step: int) returns (day: int)
    requires 1 <= period <= 127
    requires !(period == 127 && step == SECS_IN_DAY) && !(OneDay(period) && step == 7 * SECS_IN_DAY)
    ensures DueOn(period, day) && DaysAhead(period, day, 1) * SECS_IN_DAY != step
  {
    day := SomeDueDay(period);
    var gap := DaysAhead(period, day, 1);
    if gap * SECS_IN_DAY == step {
      if gap == 7 {
        OnlyDay(period, day);
      } else if period == 127 {
        EveryGap(day);
      } else {
        day := OtherGap(period, gap);
      }
    }
  }

  lemma EveryGap(day: int)
    ensures DaysAhead(127, day, 1) == 1
  {
    EveryDayIsDue(day + 1);
  }

  lemma OnlyDay(period: int, day: int)
    requires DueOn(period, day) && DaysAhead(period, day, 1) == 7
    ensures OneDay(period)
  {
    forall v: nat | v < 7 && Bit(period, v)
      ensures v == WeekdayOf(day)
    {
      var i := WeekdayComes(day, v);
      assert DueOn(period, day + i);
    }
  }

  /** A repeat later than the next first execution hides it. */
  lemma RepeatHides(rule: Rule, day: int, gap: nat) returns (t: int)
    requires rule.enabled && 1 <= rule.period && 1 <= rule.repeatTimes
    requires 0 <= rule.execTime < SECS_IN_DAY - 1
    requires DueOn(rule.period, day) && DueOn(rule.period, day + gap)
    requires 1 <= gap && gap * SECS_IN_DAY < Step(rule)
    ensures Fails(rule, t)
  {
    t := Occurrence(rule, 0, day, 0) + 1;
    AnswerOnceDue(rule, t, day, rule.execTime + 1);
    SkippedFails(rule, t, day + gap, 0);
  }

  /** A repeat past midnight but before the next first execution is forgotten at midnight. */
  lemma RepeatIsForgotten(rule: Rule, day: int, gap: nat) returns (t: int)
    requires rule.enabled && Timed(rule) && 1 <= rule.period && 1 <= rule.repeatTimes
    requires SECS_IN_DAY < rule.execTime + Step(rule)
    requires DueOn(rule.period, day) && gap == DaysAhead(rule.period, day, 1)
    requires gap * SECS_IN_DAY > Step(rule)
    ensures Fails(rule, t)
  {
    t := (day + 1) * SECS_IN_DAY;
    ClockReads(0, t, day + 1, 0);
    SkippedFails(rule, t, day, 1);
  }

  lemma SlowRepeatFails(rule: Rule) returns (t: int)
    requires rule.enabled && Timed(rule) && !ByMidnight(rule) && 1 <= rule.period <= 127
    requires Step(rule) >= SECS_IN_DAY && rule.execTime < SECS_IN_DAY - 1
    requires rule.execTime + Step(rule) > SECS_IN_DAY
    requires !OnDailyGrid(rule) && !Weekly(rule)
    ensures Fails(rule, t)
  {
    var w := UnequalGap(rule.period, Step(rule));
    var gap := DaysAhead(rule.period, w, 1);
    NextDayIsDue(rule.period, w);
    if Step(rule) > gap * SECS_IN_DAY {
      t := RepeatHides(rule, w, gap);
    } else {
      t := RepeatIsForgotten(rule, w, gap);
    }
  }

  // ---------------------------------------------------------------- exactness

  /** A rule that is not scheduled skips an execution at some moment. */
  lemma UnscheduledFails(rule: Rule) returns (t: int)
    requires rule.enabled && Timed(rule) && 1 <= rule.period <= 127 && !Scheduled(rule)
    ensures Fails(rule, t)
  {
    if Step(rule) < SECS_IN_DAY {
      if rule.period < 127 { t := LateRepeatIsMissed(rule); } else { t := OffGridIsMissed(rule); }
    } else if rule.execTime == SECS_IN_DAY - 1 {
      t := LastSecondFails(rule);
    } else if rule.execTime == 0 && Step(rule) == SECS_IN_DAY {
      t := SecondMidnightIsMissed(rule);
    } else {
      t := SlowRepeatFails(rule);
    }
  }

  lemma LastSecondFails(rule: Rule) returns (t: int)
    requires rule.enabled && Timed(rule) && !ByMidnight(rule) && 1 <= rule.period <= 127
    requires rule.execTime == SECS_IN_DAY - 1 && Step(rule) >= SECS_IN_DAY && !AtLastSecond(rule)
    ensures Fails(rule, t)
  {
    if Step(rule) % SECS_IN_DAY != 0 {
      t := OffSecondIsMissed(rule);
    } else {
      var m := Step(rule) / SECS_IN_DAY;
      assert Step(rule) == m * SECS_IN_DAY;
      if m % 7 == 0 {
        assert Step(rule) == (m / 7) * (7 * SECS_IN_DAY);
        Divides(m / 7, 7 * SECS_IN_DAY);
      }
      t := OffDayIsMissed(rule, m);
    }
  }

  /** Every answer is the next execution exactly for the scheduled rules: repeats that end by
      midnight, or that fall past it on one of the four grids where they are found. */
  lemma ScheduledIsExact(rule: Rule)
    requires rule.enabled && Timed(rule) && 1 <= rule.period <= 127
    ensures (forall zone, t :: IsNext(rule, zone, t, ExecutionTime(rule, zone, t))) <==> Scheduled(rule)
  {
    if Scheduled(rule) {
      forall zone, t ensures IsNext(rule, zone, t, ExecutionTime(rule, zone, t)) {
        ExecutionTimeIsNext(rule, zone, t);
      }
    } else {
      var t := UnscheduledFails(rule);
      assert !IsNext(rule, 0, t, ExecutionTime(rule, 0, t));
    }
  }

  /** A daily rule repeated within the day: the repeats end by midnight, or divide the day
      and start within one step of midnight. */
  lemma DailyIsExact(rule: Rule)
    requires rule.enabled && Timed(rule) && rule.period == 127 && Step(rule) < SECS_IN_DAY
    ensures (forall zone, t :: IsNext(rule, zone, t, ExecutionTime(rule, zone, t))) <==>
            ByMidnight(rule) ||
            (0 < Step(rule) && SECS_IN_DAY % Step(rule) == 0 && rule.execTime <= Step(rule))
  {
    ScheduledIsExact(rule);
  }

  /** Any other selection of weekdays, repeated within the day: the repeats end by midnight. */
  lemma ByMidnightIsExact(rule: Rule)
    requires rule.enabled && Timed(rule) && 1 <= rule.period < 127 && Step(rule) < SECS_IN_DAY
    ensures (forall zone, t :: IsNext(rule, zone, t, ExecutionTime(rule, zone, t))) <==> ByMidnight(rule)
  {
    ScheduledIsExact(rule);
  }

  /** Repeats past midnight can hide executions as well as be forgotten: a repeat two days
      away hides tomorrow's first execution. */
  lemma SlowRepeatHidesNextDay(slow: Rule)
    requires slow == Rule(true, "E1", 0, 127, 0, "", 1, 2880)
    ensures Timed(slow) && !Scheduled(slow)
    ensures !IsNext(slow, 0, 1, ExecutionTime(slow, 0, 1))
  {
    EveryDayIsDue(0);
    EveryDayIsDue(1);
    AnswerOnceDue(slow, 1, 0, 1);
    SkippedFails(slow, 1, 1, 0);
  }

  // ---------------------------------------------------------------- complete listings

  lemma NotBeforeNow(rule: Rule, zone: int, t: int)
    requires rule.enabled && Timed(rule) && 1 <= rule.period <= 127
    ensures t <= ExecutionTime(rule, zone, t)
  {
    ExecutionTimeIsToCome(rule, zone, t);
  }

  /** What comes before the first answer is in no listing. */
  lemma {:induction false} NotBeforeFirst(rule: Rule, zone: int, t: int, n: nat)
    requires rule.enabled && Timed(rule) && 1 <= rule.period <= 127
    ensures forall x :: x in Listing(rule, zone, t, n) ==> ExecutionTime(rule, zone, t) <= x
    decreases n
  {
    if n > 0 {
      var e := ExecutionTime(rule, zone, t);
      NotBeforeNow(rule, zone, e + 1);
      NotBeforeFirst(rule, zone, e + 1, n - 1);
    }
  }

  /** Every execution to come is listed in the end. */
  ghost predicate ListsAll(rule: Rule, zone: int, t: int) {
    forall time :: Upcoming(rule, zone, t, time) ==> exists n :: time in Listing(rule, zone, t, n)
  }

  /** Listings from every moment are complete exactly for the scheduled rules. */
  lemma ListingIsCompleteExactly(rule: Rule)
    requires rule.enabled && Timed(rule) && 1 <= rule.period <= 127
    ensures (forall zone, t :: ListsAll(rule, zone, t)) <==> Scheduled(rule)
  {
    if Scheduled(rule) {
      forall zone, t, time | Upcoming(rule, zone, t, time)
        ensures exists n :: time in Listing(rule, zone, t, n)
      {
        var n := ListingIsComplete(rule, zone, t, time);
        assert time in Listing(rule, zone, t, n);
      }
    } else {
      var t := UnscheduledFails(rule);
      FailsExactly(rule, 0, t);
      var day, repeat :| ToCome(rule, 0, t, day, repeat) && Occurrence(rule, 0, day, repeat) < ExecutionTime(rule, 0, t);
      Unlisted(rule, t, day, repeat);
    }
  }

  lemma Unlisted(rule: Rule, t: int, day: int, repeat: int)
    requires rule.enabled && Timed(rule) && 1 <= rule.period <= 127
    requires ToCome(rule, 0, t, day, repeat) && Occurrence(rule, 0, day, repeat) < ExecutionTime(rule, 0, t)
    ensures !ListsAll(rule, 0, t)
  {
    var time := Occurrence(rule, 0, day, repeat);
    assert Upcoming(rule, 0, t, time);
    forall n: nat ensures time !in Listing(rule, 0, t, n) {
      NotBeforeFirst(rule, 0, t, n);
    }
  }
}
