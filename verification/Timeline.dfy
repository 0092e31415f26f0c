/**
  * The rule manager left to its timer, from a refresh until it goes silent: its firings are
  * the calendar of the rules, read second by second, up to the first moment at which some rule
  * has its first execution of the day.
  */
module Timelines {
  import opened Rules
  import opened RuleManagers

  /** A time, and the rules executed then. */
  type Firing = (int, seq<Rule>)

  // ---------------------------------------------------------------- the calendar of the rules

  /** The rule has an execution, first or repeated, at `time`. */
  ghost predicate ExecutesAt(rule: Rule, zone: int, time: int) {
    exists day, repeat :: Occurs(rule, day, repeat) && Occurrence(rule, zone, day, repeat) == time
  }

  /** The enabled rules with an execution at `time`, in list order. */
  ghost function RulesAt(rules: seq<Rule>, zone: int, time: int): seq<Rule> {
    if rules == [] then []
    else
      var last := |rules| - 1;
      RulesAt(rules[..last], zone, time) +
      (if rules[last].enabled && ExecutesAt(rules[last], zone, time) then [rules[last]] else [])
  }

  /** The firings for a second with executions: on time, and a second early as well when it
      comes one second over whole half hours after the firing at `last`. */
  function Firings(last: int, time: int, fired: seq<Rule>): seq<Firing> {
    (if time - last > 1 && (time - last) % 1800 == 1 then [(time - 1, fired)] else []) + [(time, fired)]
  }

  /** From `time` to `end`, every second that has executions, with its firings. */
  ghost function Timeline(rules: seq<Rule>, zone: int, last: int, time: int, end: int): seq<Firing>
    decreases end - time
  {
    if time > end then []
    else if RulesAt(rules, zone, time) == [] then Timeline(rules, zone, last, time + 1, end)
    else
      Firings(last, time, RulesAt(rules, zone, time)) + Timeline(rules, zone, time, time + 1, end)
  }

  /** The firings of the manager, one timer after the other, until none runs or the horizon is
      passed. */
  function FireAll(s: Schedule, zone: int, t: int, horizon: int): seq<Firing>
    decreases horizon - t
  {
    if !Waiting(s, t) || t >= horizon then []
    else
      var (after, when, fired) := RunTimer(s, zone, t);
      [(when, fired)] + FireAll(after, zone, when, horizon)
  }

  // ---------------------------------------------------------------- the cached rules are those of the calendar

  /** Between now and a rule's answer it has no execution; at the answer it has one. */
  lemma AnswerIsNextExecution(rule: Rule, zone: int, t: int, time: int)
    requires rule.enabled && (Scheduled(rule) || rule.period == 0)
    requires t < time <= ExecutionTime(rule, zone, t) && time < MAX_TIMET
    ensures ExecutesAt(rule, zone, time) <==> ExecutionTime(rule, zone, t) == time
  {
    if rule.period == 0 {
      NeverDue(rule, zone, time);
    } else {
      ExecutionTimeIsToCome(rule, zone, t);
      if ExecutesAt(rule, zone, time) {
        var day, repeat :| Occurs(rule, day, repeat) && Occurrence(rule, zone, day, repeat) == time;
        ExecutionTimeIsLeast(rule, zone, t, day, repeat);
      }
    }
  }

  lemma NeverDue(rule: Rule, zone: int, time: int)
    requires rule.period == 0
    ensures !ExecutesAt(rule, zone, time)
  {
    assert forall day :: !DueOn(0, day);
  }

  lemma {:induction false} FiredConcat(rules: seq<Rule>, a: seq<nat>, b: seq<nat>)
    requires forall i :: 0 <= i < |a| ==> a[i] < |rules|
    requires forall i :: 0 <= i < |b| ==> b[i] < |rules|
    ensures Fired(rules, a + b) == Fired(rules, a) + Fired(rules, b)
  {
    if a == [] {
      assert a + b == b && Fired(rules, a) == [];
    } else {
      var k, rest := a[0], a[1..];
      FiredConcat(rules, rest, b);
      FiredFirst(rules, k, rest);
      FiredFirst(rules, k, rest + b);
      assert a == [k] + rest && a + b == [k] + (rest + b);
    }
  }

  lemma FiredInPrefix(rules: seq<Rule>, k: nat, next: seq<nat>)
    requires k <= |rules| && forall i :: 0 <= i < |next| ==> next[i] < k
    ensures Fired(rules, next) == Fired(rules[..k], next)
  {
    if next != [] { FiredInPrefix(rules, k, next[1..]); }
  }

  /** Answers of all enabled rules are at `time` or later. */
  ghost predicate NoneBefore(rules: seq<Rule>, zone: int, t: int, time: int) {
    forall i :: 0 <= i < |rules| && rules[i].enabled ==> time <= ExecutionTime(rules[i], zone, t)
  }

  lemma FiredOnly(rules: seq<Rule>, k: nat)
    requires k < |rules| && rules[k].enabled
    ensures Fired(rules, [k]) == [rules[k]]
  {
    assert [k][1..] == [];
  }

  /** One more rule fires. */
  lemma FiredOneMore(rules: seq<Rule>, last: nat, before: seq<nat>, more: seq<nat>, fired: seq<Rule>)
    requires last == |rules| - 1 && rules[last].enabled && more == before + [last]
    requires forall i :: 0 <= i < |before| ==> before[i] < last
    requires fired == Fired(rules[..last], before)
    ensures forall i :: 0 <= i < |more| ==> more[i] < |rules|
    ensures Fired(rules, more) == fired + [rules[last]]
  {
    FiredInPrefix(rules, last, before);
    FiredConcat(rules, before, [last]);
    FiredOnly(rules, last);
  }

  lemma NoneBeforeInFront(rules: seq<Rule>, zone: int, t: int, time: int, last: nat)
    requires last == |rules| - 1 && Sound(rules) && NoneBefore(rules, zone, t, time)
    ensures Sound(rules[..last]) && NoneBefore(rules[..last], zone, t, time)
    ensures rules[last].enabled ==>
              time <= ExecutionTime(rules[last], zone, t) && (Scheduled(rules[last]) || rules[last].period == 0)
  {
    assert forall i :: 0 <= i < last ==> rules[..last][i] == rules[i];
  }

  /** The cached rules are the rules executed at that time. */
  lemma {:induction false} CachedAreRulesAt(rules: seq<Rule>, zone: int, t: int, time: int)
    requires Sound(rules) && t < time < MAX_TIMET && NoneBefore(rules, zone, t, time)
    ensures InBounds(Schedule(rules, time, NextSet(rules, zone, t, time), Text.None))
    ensures Fired(rules, NextSet(rules, zone, t, time)) == RulesAt(rules, zone, time)
  {
    NextSetIsExact(rules, zone, t, time);
    if rules != [] {
      var last := |rules| - 1;
      NoneBeforeInFront(rules, zone, t, time, last);
      CachedAreRulesAt(rules[..last], zone, t, time);
      NextSetIsExact(rules[..last], zone, t, time);
      LastOfRulesAt(rules, zone, t, time, last, NextSet(rules[..last], zone, t, time), RulesAt(rules[..last], zone, time));
    }
  }

  lemma LastOfRulesAt(rules: seq<Rule>, zone: int, t: int, time: int, last: nat, before: seq<nat>, at: seq<Rule>)
    requires last == |rules| - 1 && t < time < MAX_TIMET
    requires rules[last].enabled ==>
               time <= ExecutionTime(rules[last], zone, t) && (Scheduled(rules[last]) || rules[last].period == 0)
    requires before == NextSet(rules[..last], zone, t, time) && forall i :: 0 <= i < |before| ==> before[i] < last
    requires at == RulesAt(rules[..last], zone, time) == Fired(rules[..last], before)
    ensures forall i :: 0 <= i < |NextSet(rules, zone, t, time)| ==> NextSet(rules, zone, t, time)[i] < |rules|
    ensures Fired(rules, NextSet(rules, zone, t, time)) == RulesAt(rules, zone, time)
  {
    var yes := rules[last].enabled && ExecutionTime(rules[last], zone, t) == time;
    if rules[last].enabled { AnswerIsNextExecution(rules[last], zone, t, time); }
    if yes {
      FiredOneMore(rules, last, before, before + [last], at);
      assert NextSet(rules, zone, t, time) == before + [last];
    } else {
      FiredInPrefix(rules, last, before);
      assert NextSet(rules, zone, t, time) == before + [] == before;
      assert at + [] == at;
    }
  }

  /** Between now and the cached deadline the calendar is empty. */
  lemma QuietUntilLowest(rules: seq<Rule>, zone: int, t: int, time: int)
    requires Sound(rules) && t < time < Lowest(rules, zone, t) && time < MAX_TIMET
    ensures RulesAt(rules, zone, time) == []
  {
    LowestIsLowest(rules, zone, t);
    CachedAreRulesAt(rules, zone, t, time);
    NextSetEmpty(rules, zone, t, time);
  }

  /** Seconds without executions leave no trace. */
  lemma {:induction false} SkipQuiet(rules: seq<Rule>, zone: int, last: int, from: int, time: int, end: int)
    requires from <= time <= end
    requires forall u :: from <= u < time ==> RulesAt(rules, zone, u) == []
    ensures Timeline(rules, zone, last, from, end) == Timeline(rules, zone, last, time, end)
    decreases time - from
  {
    if from < time {
      assert RulesAt(rules, zone, from) == [];
      SkipQuiet(rules, zone, last, from + 1, time, end);
    }
  }

  lemma QuietBefore(rules: seq<Rule>, zone: int, t: int, lowest: int)
    requires Sound(rules) && lowest == Lowest(rules, zone, t) && lowest < MAX_TIMET
    ensures forall u :: t + 1 <= u < lowest ==> RulesAt(rules, zone, u) == []
  {
    forall u | t + 1 <= u < lowest
      ensures RulesAt(rules, zone, u) == []
    {
      QuietUntilLowest(rules, zone, t, u);
    }
  }

  /** The calendar from now on starts with the deadline. */
  lemma CalendarFromDeadline(rules: seq<Rule>, zone: int, t: int, lowest: int, end: int)
    requires Sound(rules) && lowest == Lowest(rules, zone, t) && t < lowest <= end < MAX_TIMET
    ensures Timeline(rules, zone, t, t + 1, end) == Timeline(rules, zone, t, lowest, end)
  {
    QuietBefore(rules, zone, t, lowest);
    SkipQuiet(rules, zone, t, t + 1, lowest, end);
  }

  /** The deadline is a second of the calendar, and its rules are the cached ones. */
  lemma DeadlineIsInCalendar(rules: seq<Rule>, zone: int, t: int)
    requires Sound(rules) && t < Lowest(rules, zone, t) < MAX_TIMET
    ensures var s := Refresh(rules, zone, t);
            InBounds(s) && Fired(rules, s.next) == RulesAt(rules, zone, s.lowest) != []
  {
    var s := Refresh(rules, zone, t);
    LowestIsLowest(rules, zone, t);
    CachedAreRulesAt(rules, zone, t, s.lowest);
    FiredIsCached(s, zone, t);
    NextSetIsExact(rules, zone, t, s.lowest);
    var k :| 0 <= k < |rules| && rules[k].enabled && ExecutionTime(rules[k], zone, t) == s.lowest;
    assert k in s.next;
  }

  // ---------------------------------------------------------------- until silence

  /** The first moment after `t` at which some rule has its first execution of the day. */
  ghost predicate EndsAt(rules: seq<Rule>, zone: int, t: int, end: int) {
    t < end && SomeDueNow(rules, zone, end) && forall u :: t <= u < end ==> !SomeDueNow(rules, zone, u)
  }

  /** The deadline comes no later than the end. */
  lemma DeadlineBeforeEnd(rules: seq<Rule>, zone: int, t: int, end: int)
    requires Sound(rules) && EndsAt(rules, zone, t, end) && SoonerThanMax(end)
    ensures t < Lowest(rules, zone, t) <= end
  {
    LowestIsSoon(rules, zone, t);
    LowestIsLowest(rules, zone, t);
    assert !SomeDueNow(rules, zone, t);
    var i :| 0 <= i < |rules| && rules[i].enabled && rules[i].period != 0 && DueNow(rules[i], zone, end);
    assert ToCome(rules[i], zone, t, DayOf(zone, end), 0);
    ExecutionTimeIsLeast(rules[i], zone, t, DayOf(zone, end), 0);
  }

  lemma FireOnce(s: Schedule, zone: int, t: int, horizon: int)
    requires Waiting(s, t) && t < horizon
    ensures var when := FiringTime(t, s.lowest);
            FireAll(s, zone, t, horizon) ==
            [(when, Fired(s.rules, s.next))] + FireAll(Refresh(s.rules, zone, when), zone, when, horizon)
  {
    FiresAt(s, zone, t);
  }

  lemma FireOnTime(s: Schedule, zone: int, t: int, horizon: int)
    requires Waiting(s, t) && t < horizon && FiringTime(t, s.lowest) == s.lowest
    ensures FireAll(s, zone, t, horizon) ==
            [(s.lowest, Fired(s.rules, s.next))] + FireAll(Refresh(s.rules, zone, s.lowest), zone, s.lowest, horizon)
  {
    FireOnce(s, zone, t, horizon);
  }

  lemma FireEarly(s: Schedule, again: Schedule, zone: int, t: int, horizon: int)
    requires Waiting(s, t) && t < horizon && FiringTime(t, s.lowest) == s.lowest - 1
    requires again == s.(timer := Text.Some(1000)) && Refresh(s.rules, zone, s.lowest - 1) == again
    ensures FireAll(s, zone, t, horizon) ==
            [(s.lowest - 1, Fired(s.rules, s.next))] + FireAll(again, zone, s.lowest - 1, horizon)
  {
    FireOnce(s, zone, t, horizon);
  }

  lemma OnTimeFirings(last: int, time: int, fired: seq<Rule>, all: seq<Firing>, rest: seq<Firing>)
    requires last < time && FiringTime(last, time) == time && all == [(time, fired)] + rest
    ensures all == Firings(last, time, fired) + rest
  {
    assert [] + [(time, fired)] == [(time, fired)];
  }

  lemma EarlyFirings(last: int, time: int, fired: seq<Rule>, all: seq<Firing>, again: seq<Firing>, rest: seq<Firing>)
    requires last < time && FiringTime(last, time) < time
    requires all == [(time - 1, fired)] + again && again == [(time, fired)] + rest
    ensures all == Firings(last, time, fired) + rest
  {
    assert [(time - 1, fired)] + ([(time, fired)] + rest) == [(time - 1, fired)] + [(time, fired)] + rest;
  }

  /** Both firings for a deadline, when the refresh after an early one keeps the cache. */
  lemma FireSchedule(s: Schedule, again: Schedule, zone: int, t: int, horizon: int)
    requires Waiting(s, t) && s.lowest <= horizon && again == s.(timer := Text.Some(1000))
    requires FiringTime(t, s.lowest) < s.lowest ==> Refresh(s.rules, zone, s.lowest - 1) == again
    ensures FireAll(s, zone, t, horizon) ==
            Firings(t, s.lowest, Fired(s.rules, s.next)) +
            FireAll(Refresh(s.rules, zone, s.lowest), zone, s.lowest, horizon)
  {
    if FiringTime(t, s.lowest) < s.lowest {
      FireEarly(s, again, zone, t, horizon);
      FireOnTime(again, zone, s.lowest - 1, horizon);
      EarlyFirings(t, s.lowest, Fired(s.rules, s.next), FireAll(s, zone, t, horizon),
                   FireAll(again, zone, s.lowest - 1, horizon),
                   FireAll(Refresh(s.rules, zone, s.lowest), zone, s.lowest, horizon));
    } else {
      FireOnTime(s, zone, t, horizon);
      OnTimeFirings(t, s.lowest, Fired(s.rules, s.next), FireAll(s, zone, t, horizon),
                    FireAll(Refresh(s.rules, zone, s.lowest), zone, s.lowest, horizon));
    }
  }

  lemma FireDeadline(rules: seq<Rule>, zone: int, t: int, horizon: int)
    requires Sound(rules) && t < Lowest(rules, zone, t) < MAX_TIMET && Lowest(rules, zone, t) <= horizon
    ensures var lowest := Lowest(rules, zone, t);
            FireAll(Refresh(rules, zone, t), zone, t, horizon) ==
            Firings(t, lowest, RulesAt(rules, zone, lowest)) + FireAll(Refresh(rules, zone, lowest), zone, lowest, horizon)
  {
    var s := Refresh(rules, zone, t);
    RefreshWaits(rules, zone, t);
    DeadlineIsInCalendar(rules, zone, t);
    SoundIsSettled(rules);
    if FiringTime(t, s.lowest) < s.lowest { RefreshAgain(s, zone, t); }
    FireSchedule(s, s.(timer := Text.Some(1000)), zone, t, horizon);
  }

  /** At the end no timer is armed: nothing fires any more, however long one waits. */
  lemma SilentAtEnd(rules: seq<Rule>, zone: int, end: int, horizon: int)
    requires Sound(rules) && SoonerThanMax(end) && SomeDueNow(rules, zone, end)
    ensures Refresh(rules, zone, end).timer.None?
    ensures FireAll(Refresh(rules, zone, end), zone, end, horizon) == []
  {
    RefreshArmsExactly(rules, zone, end);
  }

  /** The firings until silence are those of the calendar. */
  ghost predicate Follows(rules: seq<Rule>, zone: int, t: int, end: int, horizon: int) {
    FireAll(Refresh(rules, zone, t), zone, t, horizon) == Timeline(rules, zone, t, t + 1, end)
  }

  /** If the firings from the deadline on follow the calendar, so do those from now on. */
  ghost predicate LeadsTo(rules: seq<Rule>, zone: int, t: int, time: int, end: int, horizon: int) {
    Follows(rules, zone, time, end, horizon) ==> Follows(rules, zone, t, end, horizon)
  }

  lemma FollowsFromDeadline(rules: seq<Rule>, zone: int, t: int, lowest: int, end: int, horizon: int)
    requires lowest <= end && RulesAt(rules, zone, lowest) != []
    requires Timeline(rules, zone, t, t + 1, end) == Timeline(rules, zone, t, lowest, end)
    requires FireAll(Refresh(rules, zone, t), zone, t, horizon) ==
             Firings(t, lowest, RulesAt(rules, zone, lowest)) + FireAll(Refresh(rules, zone, lowest), zone, lowest, horizon)
    ensures LeadsTo(rules, zone, t, lowest, end, horizon)
  {
  }

  /** The next deadline, up to the end. */
  lemma NextDeadline(rules: seq<Rule>, zone: int, t: int, end: int, horizon: int) returns (lowest: int)
    requires Sound(rules) && EndsAt(rules, zone, t, end) && SoonerThanMax(end) && end <= horizon
    ensures t < lowest <= end && LeadsTo(rules, zone, t, lowest, end, horizon)
  {
    lowest := Lowest(rules, zone, t);
    DeadlineBeforeEnd(rules, zone, t, end);
    FireDeadline(rules, zone, t, horizon);
    CalendarFromDeadline(rules, zone, t, lowest, end);
    DeadlineIsInCalendar(rules, zone, t);
    FollowsFromDeadline(rules, zone, t, lowest, end, horizon);
  }

  lemma EndFollows(rules: seq<Rule>, zone: int, end: int, horizon: int)
    requires Sound(rules) && SoonerThanMax(end) && SomeDueNow(rules, zone, end)
    ensures Follows(rules, zone, end, end, horizon)
  {
    SilentAtEnd(rules, zone, end, horizon);
  }

  /**
    * The whole run of the manager after a refresh: every execution of every enabled rule up to
    * the end fires with all rules of that second, in list order, once, or twice when it falls
    * one second over whole half hours after the previous one; and nothing fires after the end.
    */
  lemma {:induction false} RunFollowsCalendar(rules: seq<Rule>, zone: int, t: int, end: int, horizon: int)
    requires Sound(rules) && EndsAt(rules, zone, t, end) && SoonerThanMax(end) && end <= horizon
    ensures Follows(rules, zone, t, end, horizon)
    decreases end - t
  {
    var lowest := NextDeadline(rules, zone, t, end, horizon);
    if lowest < end {
      RunFollowsCalendar(rules, zone, lowest, end, horizon);
    } else {
      EndFollows(rules, zone, end, horizon);
    }
  }

  /** The end comes within a week of any moment, unless no rule can occur at all. */
  lemma EndIsNear(rules: seq<Rule>, zone: int, t: int) returns (end: int)
    requires Sound(rules) && SomeScheduled(rules) && !SomeDueNow(rules, zone, t)
    ensures EndsAt(rules, zone, t, end) && end < t + 7 * SECS_IN_DAY
  {
    var i :| 0 <= i < |rules| && rules[i].enabled && rules[i].period != 0;
    FirstDayIsToCome(rules[i], zone, t);
    var day := FirstDay(rules[i], DayOf(zone, t), SecondsOf(zone, t));
    var due := Occurrence(rules[i], zone, day, 0);
    ClockReads(zone, due, day, rules[i].execTime);
    assert SomeDueNow(rules, zone, due);
    end := t;
    while !SomeDueNow(rules, zone, end)
      invariant t <= end <= due
      invariant forall u :: t <= u < end ==> !SomeDueNow(rules, zone, u)
      decreases due - end
    {
      end := end + 1;
    }
  }

  /** Nothing up to the end is missed. */
  lemma {:induction false} TimelineIsComplete(rules: seq<Rule>, zone: int, last: int, from: int, end: int, time: int)
    requires from <= time <= end && RulesAt(rules, zone, time) != []
    ensures (time, RulesAt(rules, zone, time)) in Timeline(rules, zone, last, from, end)
    decreases end - from
  {
    if from < time {
      TimelineIsComplete(rules, zone, if RulesAt(rules, zone, from) == [] then last else from, from + 1, end, time);
    }
  }

  lemma {:induction false} RuleIsAt(rules: seq<Rule>, zone: int, time: int, i: nat)
    requires i < |rules| && rules[i].enabled && ExecutesAt(rules[i], zone, time)
    ensures rules[i] in RulesAt(rules, zone, time)
  {
    var last := |rules| - 1;
    if i < last {
      assert rules[..last][i] == rules[i];
      RuleIsAt(rules[..last], zone, time, i);
    }
  }

  lemma CalendarFires(rules: seq<Rule>, zone: int, t: int, end: int, i: nat, time: int)
    requires i < |rules| && rules[i].enabled && ExecutesAt(rules[i], zone, time) && t < time <= end
    ensures exists fired :: (time, fired) in Timeline(rules, zone, t, t + 1, end) && rules[i] in fired
  {
    RuleIsAt(rules, zone, time, i);
    TimelineIsComplete(rules, zone, t, t + 1, end, time);
  }

  /** Every execution of an enabled rule between a refresh and the end is fired on time. */
  lemma EveryExecutionFires(rules: seq<Rule>, zone: int, t: int, end: int, horizon: int, i: nat, time: int)
    requires Sound(rules) && EndsAt(rules, zone, t, end) && SoonerThanMax(end) && end <= horizon
    requires i < |rules| && rules[i].enabled && ExecutesAt(rules[i], zone, time) && t < time <= end
    ensures exists fired :: (time, fired) in FireAll(Refresh(rules, zone, t), zone, t, horizon) && rules[i] in fired
  {
    CalendarFires(rules, zone, t, end, i, time);
    RunFollowsCalendar(rules, zone, t, end, horizon);
  }

  lemma OneOClock(one: Rule)
    requires one == Rule(true, "E1", 3600, 127, 0, "", 0, 0)
    ensures Scheduled(one)
    ensures ExecutionTime(one, 0, 1799) == 3600
    ensures DueNow(one, 0, 3600)
  {
    EveryDayIsDue(0);
    ClockReads(0, 1799, 0, 1799);
    ClockReads(0, 3600, 0, 3600);
  }

  lemma OneOClockEnds(one: Rule, horizon: int)
    requires one == Rule(true, "E1", 3600, 127, 0, "", 0, 0)
    ensures FireAll(Refresh([one], 0, 3600), 0, 3600, horizon) == []
  {
    OneOClock(one);
    assert [one][0] == one;
    SilentAtEnd([one], 0, 3600, horizon);
  }

  lemma OneOClockCached(one: Rule)
    requires one == Rule(true, "E1", 3600, 127, 0, "", 0, 0)
    ensures Sound([one]) && Lowest([one], 0, 1799) == 3600 && RulesAt([one], 0, 3600) == [one]
  {
    OneOClock(one);
    OnlyRule(one, 0, 1799);
    DeadlineIsInCalendar([one], 0, 1799);
  }

  /** A rule at one o'clock every day, loaded a second before half past midnight, fires at
      00:59:59 and at 01:00:00, and never again. */
  lemma OneOClockFiresTwice(one: Rule, horizon: int)
    requires one == Rule(true, "E1", 3600, 127, 0, "", 0, 0) && 3600 <= horizon
    ensures FireAll(Refresh([one], 0, 1799), 0, 1799, horizon) == [(3599, [one]), (3600, [one])]
  {
    OneOClockCached(one);
    OneOClockEnds(one, horizon);
    FirstThenLast([one], 0, 1799, 3600, horizon);
  }

  /** A deadline whose rules fire a second early, and silence after it. */
  lemma FirstThenLast(rules: seq<Rule>, zone: int, t: int, time: int, horizon: int)
    requires Sound(rules) && time == Lowest(rules, zone, t) && t + 1 < time < MAX_TIMET && time <= horizon
    requires (time - t) % 1800 == 1 && FireAll(Refresh(rules, zone, time), zone, time, horizon) == []
    ensures FireAll(Refresh(rules, zone, t), zone, t, horizon) ==
            [(time - 1, RulesAt(rules, zone, time)), (time, RulesAt(rules, zone, time))]
  {
    FireDeadline(rules, zone, t, horizon);
  }
}
