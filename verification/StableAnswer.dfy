/**
  * How long an answer of Rule::GetExecutionTime stays the answer: until its deadline for
  * exactly the steady rules, which are more than those always answered correctly.
  */
module StableAnswers {
  import opened Rules
  import opened NextExecutions

  /** A repeat falls on the midnight after the first execution. */
  predicate MeetsMidnight(rule: Rule) {
    0 < Step(rule) && (SECS_IN_DAY - rule.execTime) % Step(rule) == 0
  }

  /** No answer is revised at a midnight: the repeats of a day end by it, or one falls on it, or
      the first one past it is the next first execution, or no repeat is ever looked for. */
  predicate Steady(rule: Rule) {
    && Timed(rule) && 1 <= rule.period <= 127
    && (ByMidnight(rule) || MeetsMidnight(rule) || OnDailyGrid(rule) || Weekly(rule) || rule.execTime == SECS_IN_DAY - 1)
  }

  lemma ScheduledIsSteady(rule: Rule)
    requires Scheduled(rule)
    ensures Steady(rule)
  {
  }

  // ---------------------------------------------------------------- from second to second

  /** A repeat of the day is still to come. */
  predicate InRepeats(rule: Rule, day: int, seconds: int) {
    DueOn(rule.period, day) && rule.execTime < seconds && Required(rule, seconds - rule.execTime) <= rule.repeatTimes
  }

  lemma AnswerAt(rule: Rule, zone: int, t: int, day: int, seconds: int)
    requires rule.enabled && 1 <= rule.period && 0 <= seconds < SECS_IN_DAY
    requires t == zone + day * SECS_IN_DAY + seconds
    ensures ExecutionTime(rule, zone, t) ==
            if InRepeats(rule, day, seconds)
            then zone + day * SECS_IN_DAY + rule.execTime + Required(rule, seconds - rule.execTime) * Step(rule)
            else zone + FirstDay(rule, day, seconds) * SECS_IN_DAY + rule.execTime
  {
    ClockReads(zone, t, day, seconds);
  }

  /** One second further the quotient stays, or the second completes a step. */
  lemma NextQuotient(past: int, step: int)
    requires 0 <= past && 0 < step
    ensures (past + 1) / step == past / step ||
            ((past + 1) / step == past / step + 1 && past + 1 == (1 + past / step) * step)
  {
    FirstRepeat(past, step, (past + 1) / step);
    FirstRepeat(past + 1, step, past / step);
    FirstRepeat(past + 1, step, past / step + 1);
    FirstRepeat(past, step, (past + 1) / step - 1);
  }

  /** One second further the same repeat is looked for, or that second is its time. */
  lemma NextRequired(rule: Rule, seconds: int)
    requires 0 <= rule.execTime < seconds && 0 <= rule.repeatPeriodMn
    ensures var n, m := Required(rule, seconds - rule.execTime), Required(rule, seconds + 1 - rule.execTime);
            n <= m && (n < m ==> seconds + 1 == rule.execTime + n * Step(rule))
  {
    if rule.repeatPeriodMn != 0 { NextQuotient(seconds - rule.execTime, Step(rule)); }
  }

  /** Among the repeats: the same one a second later, or now is its second. */
  lemma AmongRepeats(rule: Rule, day: int, seconds: int)
    requires Timed(rule) && InRepeats(rule, day, seconds)
    ensures var n := Required(rule, seconds - rule.execTime);
            seconds + 1 == rule.execTime + n * Step(rule) ||
            (InRepeats(rule, day, seconds + 1) && Required(rule, seconds + 1 - rule.execTime) == n)
  {
    NextRequired(rule, seconds);
  }

  /** Before and after the repeats: a second later there are none still, and the same day comes
      next, unless the first execution is now. */
  lemma OutsideRepeats(rule: Rule, day: int, seconds: int)
    requires Timed(rule) && !InRepeats(rule, day, seconds)
    requires !(DueOn(rule.period, day) && rule.execTime == seconds)
    ensures !InRepeats(rule, day, seconds + 1)
    ensures FirstDay(rule, day, seconds + 1) == FirstDay(rule, day, seconds)
  {
    if DueOn(rule.period, day) && rule.execTime < seconds { NextRequired(rule, seconds); }
  }

  /** Within a day an answer is revised only at its deadline. */
  lemma WithinTheDay(rule: Rule, zone: int, t: int, day: int, seconds: int)
    requires rule.enabled && Timed(rule) && 1 <= rule.period && 0 <= seconds < SECS_IN_DAY - 1
    requires t == zone + day * SECS_IN_DAY + seconds && t + 1 < ExecutionTime(rule, zone, t)
    ensures ExecutionTime(rule, zone, t + 1) == ExecutionTime(rule, zone, t)
  {
    AnswerAt(rule, zone, t, day, seconds);
    AnswerAt(rule, zone, t + 1, day, seconds + 1);
    if InRepeats(rule, day, seconds) { AmongRepeats(rule, day, seconds); } else { OutsideRepeats(rule, day, seconds); }
  }

  /** The first due day after a day, seen from the day itself and from the morning after. */
  lemma SameFirstDay(rule: Rule, day: int, morning: int)
    requires Timed(rule) && 1 <= rule.period <= 127 && morning == day + 1
    ensures FirstDay(rule, morning, 0) == day + DaysAhead(rule.period, day, 1)
  {
    var k := DaysAhead(rule.period, day, 1);
    NextDayIsDue(rule.period, day);
    if !DueOn(rule.period, morning) {
      var r := DaysAhead(rule.period, morning, 1);
      assert DueOn(rule.period, morning + (k - 1));
      assert r < 7 ==> DueOn(rule.period, morning + r);
    }
  }

  /** The first repeat not before midnight. */
  lemma LastRequired(rule: Rule)
    requires Timed(rule) && 0 < Step(rule) && rule.execTime < SECS_IN_DAY - 1
    ensures var n := Required(rule, SECS_IN_DAY - 1 - rule.execTime);
            && 1 <= n && (n - 1) * Step(rule) < SECS_IN_DAY - rule.execTime <= n * Step(rule)
            && (MeetsMidnight(rule) ==> n * Step(rule) == SECS_IN_DAY - rule.execTime)
  {
    var left, step := SECS_IN_DAY - rule.execTime, Step(rule);
    FirstRepeat(left - 1, step, 0);
    var n := Required(rule, left - 1);
    assert n == 1 + (left - 1) / step;
    assert n * step == (left - 1) / step * step + step;
    if MeetsMidnight(rule) {
      var k := left / step;
      assert left == k * step;
      if n < k { MulGrows(n, k - 1, step); }
      if n > k { MulGrows(k, n - 1, step); }
      assert (k - 1) * step == k * step - step && (n - 1) * step == n * step - step;
    }
  }

  /** On the daily grid the first repeat past midnight is the first execution of the morning,
      unless one falls on midnight. */
  lemma GridRequired(rule: Rule)
    requires Timed(rule) && OnDailyGrid(rule) && rule.execTime < SECS_IN_DAY - 1
    ensures var n := Required(rule, SECS_IN_DAY - 1 - rule.execTime);
            n * Step(rule) == SECS_IN_DAY || n * Step(rule) == SECS_IN_DAY - rule.execTime
  {
    LastRequired(rule);
    var n, step := Required(rule, SECS_IN_DAY - 1 - rule.execTime), Step(rule);
    var m := SECS_IN_DAY / step;
    assert SECS_IN_DAY == m * step;
    assert (n - 1) * step == n * step - step;
    if n > m { MulGrows(m, n - 1, step); }
    if n < m {
      MulGrows(n, m - 1, step);
      assert (m - 1) * step == SECS_IN_DAY - step;
    }
  }

  lemma MorningAnswer(rule: Rule, zone: int, t: int, day: int)
    requires rule.enabled && Timed(rule) && 1 <= rule.period <= 127
    requires t == zone + day * SECS_IN_DAY + SECS_IN_DAY
    ensures ExecutionTime(rule, zone, t) ==
            zone + (day + DaysAhead(rule.period, day, 1)) * SECS_IN_DAY + rule.execTime
  {
    AnswerAt(rule, zone, t, day + 1, 0);
    SameFirstDay(rule, day, day + 1);
  }

  lemma EveningAnswer(rule: Rule, zone: int, t: int, day: int)
    requires rule.enabled && Timed(rule) && 1 <= rule.period <= 127
    requires DueOn(rule.period, day) ==> rule.execTime < SECS_IN_DAY - 1
    requires t == zone + day * SECS_IN_DAY + SECS_IN_DAY - 1
    ensures ExecutionTime(rule, zone, t) ==
            if InRepeats(rule, day, SECS_IN_DAY - 1)
            then zone + day * SECS_IN_DAY + rule.execTime + Required(rule, SECS_IN_DAY - 1 - rule.execTime) * Step(rule)
            else zone + (day + DaysAhead(rule.period, day, 1)) * SECS_IN_DAY + rule.execTime
  {
    AnswerAt(rule, zone, t, day, SECS_IN_DAY - 1);
  }

  /** The repeat a steady rule looks forward to at the end of a day comes by midnight, or with
      the next first execution. */
  lemma RepeatsMeet(rule: Rule, day: int)
    requires Steady(rule) && InRepeats(rule, day, SECS_IN_DAY - 1)
    ensures var n := Required(rule, SECS_IN_DAY - 1 - rule.execTime);
            rule.execTime + n * Step(rule) <= SECS_IN_DAY ||
            n * Step(rule) == DaysAhead(rule.period, day, 1) * SECS_IN_DAY
  {
    var n := Required(rule, SECS_IN_DAY - 1 - rule.execTime);
    LastRequired(rule);
    if ByMidnight(rule) {
      MulGrows(n, rule.repeatTimes, Step(rule));
    } else if MeetsMidnight(rule) {
    } else if OnDailyGrid(rule) {
      GridRequired(rule);
      EveryDayIsDue(day + 1);
    } else {
      WeekAhead(rule.period, day);
      if n > 1 { MulGrows(1, n - 1, Step(rule)); }
    }
  }

  lemma NotInLastSecond(rule: Rule, zone: int, t: int, day: int)
    requires rule.enabled && Timed(rule) && 1 <= rule.period <= 127
    requires t == zone + day * SECS_IN_DAY + SECS_IN_DAY - 1 && t + 1 < ExecutionTime(rule, zone, t)
    ensures DueOn(rule.period, day) ==> rule.execTime < SECS_IN_DAY - 1
  {
    AnswerAt(rule, zone, t, day, SECS_IN_DAY - 1);
  }

  /** At midnight an answer is not revised before its deadline, if the repeat looked forward to
      comes by then or with the next first execution. */
  lemma AcrossMidnight(rule: Rule, zone: int, t: int, next: int, day: int)
    requires rule.enabled && Timed(rule) && 1 <= rule.period <= 127
    requires InRepeats(rule, day, SECS_IN_DAY - 1) ==>
               var late := Required(rule, SECS_IN_DAY - 1 - rule.execTime) * Step(rule);
               rule.execTime + late <= SECS_IN_DAY || late == DaysAhead(rule.period, day, 1) * SECS_IN_DAY
    requires t == zone + day * SECS_IN_DAY + SECS_IN_DAY - 1 && next == t + 1 < ExecutionTime(rule, zone, t)
    ensures ExecutionTime(rule, zone, next) == ExecutionTime(rule, zone, t)
  {
    NotInLastSecond(rule, zone, t, day);
    MorningAnswer(rule, zone, next, day);
    EveningAnswer(rule, zone, t, day);
  }

  lemma NextSecond(rule: Rule, zone: int, t: int)
    requires rule.enabled && Steady(rule) && t + 1 < ExecutionTime(rule, zone, t)
    ensures ExecutionTime(rule, zone, t + 1) == ExecutionTime(rule, zone, t)
  {
    var day, seconds := DayOf(zone, t), SecondsOf(zone, t);
    assert t == zone + day * SECS_IN_DAY + seconds;
    if seconds < SECS_IN_DAY - 1 {
      WithinTheDay(rule, zone, t, day, seconds);
    } else {
      if InRepeats(rule, day, SECS_IN_DAY - 1) { RepeatsMeet(rule, day); }
      AcrossMidnight(rule, zone, t, t + 1, day);
    }
  }

  lemma {:induction false} StaysUntil(rule: Rule, zone: int, t: int, later: int)
    requires rule.enabled && Steady(rule) && t <= later < ExecutionTime(rule, zone, t)
    ensures ExecutionTime(rule, zone, later) == ExecutionTime(rule, zone, t)
    decreases later - t
  {
    if t < later {
      NextSecond(rule, zone, t);
      StaysUntil(rule, zone, t + 1, later);
    }
  }

  // ---------------------------------------------------------------- stability

  /** An answer is now exactly for a first execution due now, and never past. */
  lemma NowOrLater(rule: Rule, zone: int, t: int)
    requires rule.enabled && Timed(rule) && 1 <= rule.period <= 127
    ensures t <= ExecutionTime(rule, zone, t)
    ensures ExecutionTime(rule, zone, t) == t <==> DueNow(rule, zone, t)
  {
    ExecutionTimeIsToCome(rule, zone, t);
  }

  /** The answer stays the same until its deadline; at the deadline it stays exactly for a
      first execution, and moves on after a repeat. */
  lemma NextIsStable(rule: Rule, zone: int, t: int, later: int)
    requires rule.enabled && Steady(rule)
    requires t <= later <= ExecutionTime(rule, zone, t)
    ensures later <= ExecutionTime(rule, zone, later)
    ensures ExecutionTime(rule, zone, t) <= ExecutionTime(rule, zone, later)
    ensures ExecutionTime(rule, zone, later) == ExecutionTime(rule, zone, t) <==>
            later < ExecutionTime(rule, zone, t) || DueNow(rule, zone, later)
  {
    NowOrLater(rule, zone, later);
    if later < ExecutionTime(rule, zone, t) { StaysUntil(rule, zone, t, later); }
  }

  // ---------------------------------------------------------------- every other rule revises an answer

  /** The answer at `t` is revised in the next second, before its deadline. */
  ghost predicate Revised(rule: Rule, t: int) {
    && t + 1 < ExecutionTime(rule, 0, t)
    && ExecutionTime(rule, 0, t + 1) != ExecutionTime(rule, 0, t)
  }

  /** The first repeat past midnight is no gap of the daily grid, and no week. */
  lemma UnsteadyRepeat(rule: Rule)
    requires Timed(rule) && 1 <= rule.period <= 127 && !Steady(rule)
    ensures var n := Required(rule, SECS_IN_DAY - 1 - rule.execTime);
            && n <= rule.repeatTimes
            && SECS_IN_DAY < rule.execTime + n * Step(rule) <= SECS_IN_DAY + Step(rule)
            && !(rule.period == 127 && n * Step(rule) == SECS_IN_DAY)
            && !(OneDay(rule.period) && n * Step(rule) == 7 * SECS_IN_DAY)
  {
    var n, step := Required(rule, SECS_IN_DAY - 1 - rule.execTime), Step(rule);
    LastRequired(rule);
    assert (n - 1) * step == n * step - step;
    if n > rule.repeatTimes { MulGrows(rule.repeatTimes, n - 1, step); }
    if rule.execTime + n * step == SECS_IN_DAY { Divides(n, step); }
    if n * step == SECS_IN_DAY { Divides(n, step); }
    if n * step == 7 * SECS_IN_DAY && n > 1 { MulGrows(1, n - 1, step); }
  }

  /** A due day whose last second looks forward to a repeat other than the morning's answer. */
  lemma UnsteadyDay(rule: Rule) returns (day: int, late: int, gap: int)
    requires Timed(rule) && 1 <= rule.period <= 127 && !Steady(rule)
    ensures rule.execTime < SECS_IN_DAY - 1 && InRepeats(rule, day, SECS_IN_DAY - 1)
    ensures late == Required(rule, SECS_IN_DAY - 1 - rule.execTime) * Step(rule)
    ensures gap == DaysAhead(rule.period, day, 1)
    ensures SECS_IN_DAY < rule.execTime + late <= SECS_IN_DAY + Step(rule) && late != gap * SECS_IN_DAY
  {
    late := Required(rule, SECS_IN_DAY - 1 - rule.execTime) * Step(rule);
    UnsteadyRepeat(rule);
    day := UnequalGap(rule.period, late);
    gap := DaysAhead(rule.period, day, 1);
  }

  lemma RevisedAtMidnight(rule: Rule, t: int, next: int, day: int, late: int, gap: int)
    requires rule.enabled && Timed(rule) && 1 <= rule.period <= 127
    requires rule.execTime < SECS_IN_DAY - 1 && InRepeats(rule, day, SECS_IN_DAY - 1)
    requires late == Required(rule, SECS_IN_DAY - 1 - rule.execTime) * Step(rule)
    requires gap == DaysAhead(rule.period, day, 1)
    requires t == day * SECS_IN_DAY + SECS_IN_DAY - 1 && next == t + 1
    ensures ExecutionTime(rule, 0, t) == day * SECS_IN_DAY + rule.execTime + late
    ensures ExecutionTime(rule, 0, next) == (day + gap) * SECS_IN_DAY + rule.execTime
  {
    EveningAnswer(rule, 0, t, day);
    MorningAnswer(rule, 0, next, day);
  }

  lemma UnsteadyRevises(rule: Rule) returns (t: int)
    requires rule.enabled && Timed(rule) && 1 <= rule.period <= 127 && !Steady(rule)
    ensures Revised(rule, t) && ExecutionTime(rule, 0, t) <= t + 1 + Step(rule)
  {
    var day, late, gap := UnsteadyDay(rule);
    t := day * SECS_IN_DAY + SECS_IN_DAY - 1;
    RevisedAtMidnight(rule, t, t + 1, day, late, gap);
  }

  /** Answers stay the answers until their deadlines exactly for the steady rules. */
  lemma SteadyIsExact(rule: Rule)
    requires rule.enabled && Timed(rule) && 1 <= rule.period <= 127
    ensures (forall zone, t, later :: t <= later < ExecutionTime(rule, zone, t) ==>
                                        ExecutionTime(rule, zone, later) == ExecutionTime(rule, zone, t)) <==>
            Steady(rule)
  {
    if Steady(rule) {
      forall zone, t, later | t <= later < ExecutionTime(rule, zone, t)
        ensures ExecutionTime(rule, zone, later) == ExecutionTime(rule, zone, t)
      {
        StaysUntil(rule, zone, t, later);
      }
    } else {
      var t := UnsteadyRevises(rule);
      assert t <= t + 1 < ExecutionTime(rule, 0, t);
    }
  }

  /** A rule a second before midnight, repeated an hour later, skips its repeat but never
      revises an answer. */
  lemma SteadyIsMore(rule: Rule)
    requires rule == Rule(true, "E1", 86399, 127, 0, "", 1, 60)
    ensures Steady(rule) && !Scheduled(rule)
  {
    assert Step(rule) == 3600;
  }
}
