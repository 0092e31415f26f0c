/** The rule manager: the cached next execution, and the single-shot timer (rules-manager.cpp). */
module RuleManagers {
  import opened Text
  import opened Rules
  import opened StableAnswers
  import RuleTexts

  const PERIOD_MS: int := 1800000

  /** `next` holds positions in `rules`; `timer` is the armed delay in milliseconds. */
  datatype Schedule = Schedule(rules: seq<Rule>, lowest: int, next: seq<nat>, timer: Option<int>)

  function Min(a: int, b: int): int { if a < b then a else b }

  // ---------------------------------------------------------------- the cache as functions

  /** The least execution time of the enabled rules. */
  function Lowest(rules: seq<Rule>, zone: int, t: int): int {
    if rules == [] then MAX_TIMET
    else
      var r := rules[|rules| - 1];
      var m := Lowest(rules[..|rules| - 1], zone, t);
      if r.enabled then Min(ExecutionTime(r, zone, t), m) else m
  }

  /** The positions of the enabled rules executed at a time, in list order. */
  function NextSet(rules: seq<Rule>, zone: int, t: int, time: int): seq<nat> {
    if rules == [] then []
    else
      var last := |rules| - 1;
      NextSet(rules[..last], zone, t, time) +
      (if rules[last].enabled && ExecutionTime(rules[last], zone, t) == time then [last] else [])
  }

  function Arm(rules: seq<Rule>, lowest: int, next: seq<nat>, t: int): Schedule {
    Schedule(rules, lowest, next,
             if lowest != MAX_TIMET && lowest > t then Some(Min((lowest - t) * 1000, PERIOD_MS)) else None)
  }

  /** updateNextExecution. */
  function Refresh(rules: seq<Rule>, zone: int, t: int): Schedule {
    var lowest := Lowest(rules, zone, t);
    Arm(rules, lowest, NextSet(rules, zone, t, lowest), t)
  }

  predicate InBounds(s: Schedule) { forall i :: 0 <= i < |s.next| ==> s.next[i] < |s.rules| }

  /** The rules executed when the timer ends and the deadline is near. */
  function Fired(rules: seq<Rule>, next: seq<nat>): seq<Rule>
    requires forall i :: 0 <= i < |next| ==> next[i] < |rules|
  {
    if next == [] then []
    else (if rules[next[0]].enabled then [rules[next[0]]] else []) + Fired(rules, next[1..])
  }

  lemma FiredFirst(rules: seq<Rule>, k: nat, rest: seq<nat>)
    requires k < |rules| && forall i :: 0 <= i < |rest| ==> rest[i] < |rules|
    ensures Fired(rules, [k] + rest) == (if rules[k].enabled then [rules[k]] else []) + Fired(rules, rest)
  {
    assert ([k] + rest)[1..] == rest;
  }

  /** One more rule of the set executed. */
  lemma FiredFrom(rules: seq<Rule>, next: seq<nat>, k: nat, rest: seq<nat>, fired: seq<Rule>)
    requires next == [k] + rest && k < |rules| && forall j :: 0 <= j < |rest| ==> rest[j] < |rules|
    ensures fired + Fired(rules, next) == (if rules[k].enabled then fired + [rules[k]] else fired) + Fired(rules, rest)
  {
    FiredFirst(rules, k, rest);
    OneMore(fired, rules[k], Fired(rules, rest));
  }

  lemma OneMore<T>(done: seq<T>, x: T, rest: seq<T>)
    ensures done + ([x] + rest) == (done + [x]) + rest
    ensures done + ([] + rest) == done + rest
  {
  }

  /** onEndTimerRuleNeedExec: wait on, or fire and refresh. */
  function Expire(s: Schedule, zone: int, t: int): (Schedule, seq<Rule>)
    requires InBounds(s)
  {
    if s.lowest - t > 1 then (s.(timer := Some(Min((s.lowest - t) * 1000, PERIOD_MS))), [])
    else (Refresh(s.rules, zone, t), Fired(s.rules, s.next))
  }

  // ---------------------------------------------------------------- facts about the cache

  /** Enabled rules are scheduled, or have no weekday at all. */
  ghost predicate Sound(rules: seq<Rule>) {
    forall i :: 0 <= i < |rules| && rules[i].enabled ==> Scheduled(rules[i]) || rules[i].period == 0
  }

  /** Enabled rules are steady, or have no weekday at all. */
  ghost predicate Settled(rules: seq<Rule>) {
    forall i :: 0 <= i < |rules| && rules[i].enabled ==> Steady(rules[i]) || rules[i].period == 0
  }

  lemma SoundIsSettled(rules: seq<Rule>)
    requires Sound(rules)
    ensures Settled(rules)
  {
    forall i | 0 <= i < |rules| && rules[i].enabled && rules[i].period != 0
      ensures Steady(rules[i])
    {
      ScheduledIsSteady(rules[i]);
    }
  }

  ghost predicate SoonerThanMax(t: int) { t + 7 * SECS_IN_DAY < MAX_TIMET }

  ghost predicate IsLowest(rules: seq<Rule>, zone: int, t: int, lowest: int) {
    && lowest <= MAX_TIMET
    && (forall i :: 0 <= i < |rules| && rules[i].enabled ==> lowest <= ExecutionTime(rules[i], zone, t))
    && (lowest != MAX_TIMET ==>
          exists i :: 0 <= i < |rules| && rules[i].enabled && ExecutionTime(rules[i], zone, t) == lowest)
  }

  lemma {:induction false} LowestIsLowest(rules: seq<Rule>, zone: int, t: int)
    ensures IsLowest(rules, zone, t, Lowest(rules, zone, t))
  {
    if rules != [] {
      var last := |rules| - 1;
      LowestIsLowest(rules[..last], zone, t);
      var m := Lowest(rules[..last], zone, t);
      if m != MAX_TIMET {
        var i :| 0 <= i < last && rules[..last][i].enabled && ExecutionTime(rules[..last][i], zone, t) == m;
        assert rules[i] == rules[..last][i];
      }
      forall i | 0 <= i < last && rules[i].enabled
        ensures m <= ExecutionTime(rules[i], zone, t)
      {
        assert rules[i] == rules[..last][i];
      }
    }
  }

  /** Positions below `n`, ascending, exactly those of the enabled rules executed at a time. */
  ghost predicate Holds(s: seq<nat>, rules: seq<Rule>, n: nat, zone: int, t: int, time: int)
    requires n <= |rules|
  {
    && (forall i :: 0 <= i < |s| ==> s[i] < n)
    && (forall i: nat :: i in s <==> i < n && rules[i].enabled && ExecutionTime(rules[i], zone, t) == time)
    && (forall i, j :: 0 <= i < j < |s| ==> s[i] < s[j])
  }

  lemma HoldsInPrefix(s: seq<nat>, rules: seq<Rule>, n: nat, zone: int, t: int, time: int)
    requires n <= |rules| && Holds(s, rules[..n], n, zone, t, time)
    ensures Holds(s, rules, n, zone, t, time)
  {
    assert forall i :: 0 <= i < n ==> rules[..n][i] == rules[i];
  }

  lemma HoldsOneMore(s: seq<nat>, rules: seq<Rule>, n: nat, zone: int, t: int, time: int, yes: bool)
    requires n < |rules| && Holds(s, rules, n, zone, t, time)
    requires yes == (rules[n].enabled && ExecutionTime(rules[n], zone, t) == time)
    ensures Holds(if yes then s + [n] else s, rules, n + 1, zone, t, time)
  {
    var r := if yes then s + [n] else s;
    forall i: nat
      ensures i in r <==> i < n + 1 && rules[i].enabled && ExecutionTime(rules[i], zone, t) == time
    {
      assert i in r <==> i in s || (yes && i == n);
    }
  }

  lemma {:induction false} NextSetHolds(rules: seq<Rule>, zone: int, t: int, time: int)
    ensures Holds(NextSet(rules, zone, t, time), rules, |rules|, zone, t, time)
  {
    if rules != [] {
      var last := |rules| - 1;
      NextSetHolds(rules[..last], zone, t, time);
      HoldsInPrefix(NextSet(rules[..last], zone, t, time), rules, last, zone, t, time);
      HoldsOneMore(NextSet(rules[..last], zone, t, time), rules, last, zone, t, time,
                   rules[last].enabled && ExecutionTime(rules[last], zone, t) == time);
      assert NextSet(rules[..last], zone, t, time) + [] == NextSet(rules[..last], zone, t, time);
    }
  }

  /** The next set holds exactly the enabled rules executed at that time, once each, in list order. */
  lemma NextSetIsExact(rules: seq<Rule>, zone: int, t: int, time: int)
    ensures var s := NextSet(rules, zone, t, time);
            && (forall i :: 0 <= i < |s| ==> s[i] < |rules|)
            && (forall i: nat :: i in s <==>
                                 i < |rules| && rules[i].enabled && ExecutionTime(rules[i], zone, t) == time)
            && (forall i, j :: 0 <= i < j < |s| ==> s[i] < s[j])
  {
    NextSetHolds(rules, zone, t, time);
  }

  lemma {:induction false} NextSetDependsOn(rules: seq<Rule>, zone: int, t: int, later: int, time: int)
    requires forall i :: 0 <= i < |rules| && rules[i].enabled ==>
                           (ExecutionTime(rules[i], zone, t) == time <==> ExecutionTime(rules[i], zone, later) == time)
    ensures NextSet(rules, zone, t, time) == NextSet(rules, zone, later, time)
  {
    if rules != [] {
      var last := |rules| - 1;
      assert forall i :: 0 <= i < last ==> rules[..last][i] == rules[i];
      NextSetDependsOn(rules[..last], zone, t, later, time);
    }
  }

  lemma LowestIsUnique(rules: seq<Rule>, zone: int, t: int, a: int, b: int)
    requires IsLowest(rules, zone, t, a) && IsLowest(rules, zone, t, b)
    ensures a == b
  {
  }

  /** What a rule answers later, up to the cached deadline. */
  lemma RuleAgrees(rule: Rule, zone: int, t: int, later: int, lowest: int)
    requires rule.enabled && (Steady(rule) || rule.period == 0)
    requires t <= later <= lowest <= ExecutionTime(rule, zone, t)
    ensures lowest <= ExecutionTime(rule, zone, later)
    ensures ExecutionTime(rule, zone, later) == lowest <==>
            ExecutionTime(rule, zone, t) == lowest &&
            (rule.period == 0 || later < lowest || DueNow(rule, zone, lowest))
  {
    if rule.period != 0 { NextIsStable(rule, zone, t, later); }
  }

  /**
    * The cache agrees with a recomputation at any moment up to its deadline: always before
    * the deadline, across midnights and weekdays; at the deadline exactly when each cached
    * rule has its first execution of the day then, rather than a repeat.
    */
  lemma CacheAgrees(rules: seq<Rule>, zone: int, t: int, later: int)
    requires Settled(rules)
    requires Lowest(rules, zone, t) != MAX_TIMET && t <= later <= Lowest(rules, zone, t)
    ensures var lowest := Lowest(rules, zone, t);
            var next := NextSet(rules, zone, t, lowest);
            (Lowest(rules, zone, later) == lowest && NextSet(rules, zone, later, lowest) == next) <==>
            (later < lowest ||
             forall i :: 0 <= i < |rules| && i in next ==> DueNow(rules[i], zone, lowest))
  {
    var lowest := Lowest(rules, zone, t);
    var next := NextSet(rules, zone, t, lowest);
    LowestIsLowest(rules, zone, t);
    LowestIsLowest(rules, zone, later);
    NextSetIsExact(rules, zone, t, lowest);
    NextSetIsExact(rules, zone, later, lowest);
    forall i | 0 <= i < |rules| && rules[i].enabled
      ensures lowest <= ExecutionTime(rules[i], zone, later)
      ensures ExecutionTime(rules[i], zone, later) == lowest <==>
              ExecutionTime(rules[i], zone, t) == lowest && (later < lowest || DueNow(rules[i], zone, lowest))
    {
      RuleAgrees(rules[i], zone, t, later, lowest);
    }
    if later < lowest || forall i :: 0 <= i < |rules| && i in next ==> DueNow(rules[i], zone, lowest) {
      var k :| 0 <= k < |rules| && rules[k].enabled && ExecutionTime(rules[k], zone, t) == lowest;
      assert k in next;
      LowestIsUnique(rules, zone, later, lowest, Lowest(rules, zone, later));
      NextSetDependsOn(rules, zone, t, later, lowest);
    }
  }

  lemma OnlyRule(rule: Rule, zone: int, t: int)
    requires rule.enabled && ExecutionTime(rule, zone, t) < MAX_TIMET
    ensures Lowest([rule], zone, t) == ExecutionTime(rule, zone, t)
    ensures NextSet([rule], zone, t, ExecutionTime(rule, zone, t)) == [0]
    ensures Fired([rule], [0]) == [rule]
  {
    assert [rule][..0] == [];
    assert Lowest([rule][..0], zone, t) == MAX_TIMET;
    assert NextSet([rule][..0], zone, t, ExecutionTime(rule, zone, t)) == [];
  }

  /** The rules see only how far the clock is from their Sunday. */
  lemma ClockShifts(rule: Rule, zone: int, t: int, otherZone: int, other: int)
    requires rule.enabled && rule.period != 0 && other - otherZone == t - zone
    ensures ExecutionTime(rule, otherZone, other) == ExecutionTime(rule, zone, t) + (other - t)
  {
    assert DayOf(otherZone, other) == DayOf(zone, t) && SecondsOf(otherZone, other) == SecondsOf(zone, t);
  }

  /** Before its deadline the cache for one rule can be computed again without a change. */
  ghost predicate CacheStays(rule: Rule, zone: int, t: int, later: int) {
    var lowest := Lowest([rule], zone, t);
    t <= later < lowest < MAX_TIMET ==>
      && Lowest([rule], zone, later) == lowest
      && NextSet([rule], zone, later, lowest) == NextSet([rule], zone, t, lowest)
  }

  /** It can at all moments exactly for a steady rule. */
  lemma CacheStaysExactly(rule: Rule)
    requires rule.enabled && Timed(rule) && 1 <= rule.period <= 127 && rule.repeatPeriodMn <= INT_MAX
    ensures (forall zone, t, later :: CacheStays(rule, zone, t, later)) <==> Steady(rule)
  {
    if Steady(rule) {
      forall zone, t, later ensures CacheStays(rule, zone, t, later) {
        if t <= later < Lowest([rule], zone, t) < MAX_TIMET { CacheAgrees([rule], zone, t, later); }
      }
    } else {
      var t := UnsteadyRevises(rule);
      StaleCache(rule, t);
    }
  }

  lemma StaleCache(rule: Rule, t: int)
    requires rule.enabled && rule.period != 0 && rule.repeatPeriodMn <= INT_MAX
    requires Revised(rule, t) && ExecutionTime(rule, 0, t) <= t + 1 + Step(rule)
    ensures !CacheStays(rule, -t, 0, 1)
  {
    var e, e' := ExecutionTime(rule, 0, t), ExecutionTime(rule, 0, t + 1);
    ClockShifts(rule, 0, t, -t, 0);
    ClockShifts(rule, 0, t + 1, -t, 1);
    LowestOfOne(rule, -t, 0);
    LowestOfOne(rule, -t, 1);
    LowestMoves(rule, -t, 0, 1, e - t, Min(e' - t, MAX_TIMET));
  }

  lemma LowestMoves(rule: Rule, zone: int, t: int, later: int, lowest: int, other: int)
    requires Lowest([rule], zone, t) == lowest && Lowest([rule], zone, later) == other
    requires t <= later < lowest < MAX_TIMET && other != lowest
    ensures !CacheStays(rule, zone, t, later)
  {
  }

  lemma LowestOfOne(rule: Rule, zone: int, t: int)
    requires rule.enabled
    ensures Lowest([rule], zone, t) == Min(ExecutionTime(rule, zone, t), MAX_TIMET)
  {
    assert [rule][..0] == [];
    assert Lowest([rule][..0], zone, t) == MAX_TIMET;
  }

  // ---------------------------------------------------------------- the timer

  /** A rule due, with at least one weekday. */
  ghost predicate SomeScheduled(rules: seq<Rule>) {
    exists i :: 0 <= i < |rules| && rules[i].enabled && rules[i].period != 0
  }

  /** Some rule has its first execution of the day exactly now. */
  ghost predicate SomeDueNow(rules: seq<Rule>, zone: int, t: int) {
    exists i :: 0 <= i < |rules| && rules[i].enabled && rules[i].period != 0 && DueNow(rules[i], zone, t)
  }

  lemma LowestIsSoon(rules: seq<Rule>, zone: int, t: int)
    requires Sound(rules) && SoonerThanMax(t)
    ensures Lowest(rules, zone, t) == MAX_TIMET <==> !SomeScheduled(rules)
    ensures Lowest(rules, zone, t) != MAX_TIMET ==> t <= Lowest(rules, zone, t) < t + 7 * SECS_IN_DAY
    ensures Lowest(rules, zone, t) == t <==> SomeDueNow(rules, zone, t)
  {
    var lowest := Lowest(rules, zone, t);
    LowestIsLowest(rules, zone, t);
    forall i | 0 <= i < |rules| && rules[i].enabled && rules[i].period != 0
      ensures t <= ExecutionTime(rules[i], zone, t) < t + 7 * SECS_IN_DAY
      ensures ExecutionTime(rules[i], zone, t) == t <==> DueNow(rules[i], zone, t)
    {
      NextIsSoon(rules[i], zone, t);
    }
  }

  /** The delay always fits a 32-bit int before it is capped at 30 minutes. */
  lemma DelayFits(rules: seq<Rule>, zone: int, t: int)
    requires Sound(rules) && SoonerThanMax(t) && SomeScheduled(rules)
    ensures 0 <= (Lowest(rules, zone, t) - t) * 1000 <= INT_MAX
  {
    LowestIsSoon(rules, zone, t);
  }

  /** After a refresh the timer runs exactly when some rule can still occur and none has its
      first execution of the day this very second. In that second the manager goes silent. */
  lemma RefreshArmsExactly(rules: seq<Rule>, zone: int, t: int)
    requires Sound(rules) && SoonerThanMax(t)
    ensures Refresh(rules, zone, t).timer.Some? <==>
            SomeScheduled(rules) && !SomeDueNow(rules, zone, t)
  {
    LowestIsSoon(rules, zone, t);
  }

  lemma {:induction false} FiredIfEnabled(rules: seq<Rule>, next: seq<nat>)
    requires forall i :: 0 <= i < |next| ==> next[i] < |rules| && rules[next[i]].enabled
    ensures |Fired(rules, next)| == |next|
    ensures forall i :: 0 <= i < |next| ==> Fired(rules, next)[i] == rules[next[i]]
  {
    if next != [] { FiredIfEnabled(rules, next[1..]); }
  }

  /** All cached rules are enabled, so they all fire, in list order. */
  lemma FiredIsCached(s: Schedule, zone: int, t: int)
    requires s == Refresh(s.rules, zone, t)
    ensures InBounds(s) && |Fired(s.rules, s.next)| == |s.next|
    ensures forall i :: 0 <= i < |s.next| ==> Fired(s.rules, s.next)[i] == s.rules[s.next[i]]
    ensures forall i, j :: 0 <= i < j < |s.next| ==> s.next[i] < s.next[j]
  {
    NextSetIsExact(s.rules, zone, t, s.lowest);
    assert forall i :: 0 <= i < |s.next| ==> s.next[i] in s.next;
    FiredIfEnabled(s.rules, s.next);
  }

  /** The timer was armed at `t` for the cached deadline. */
  predicate Waiting(s: Schedule, t: int) {
    InBounds(s) && t < s.lowest && s.timer == Some(Min((s.lowest - t) * 1000, PERIOD_MS))
  }

  /** Waiting out the armed delays exactly, until the rules fire: the new state, when, and what. */
  function RunTimer(s: Schedule, zone: int, t: int): (r: (Schedule, int, seq<Rule>))
    requires Waiting(s, t)
    ensures t < r.1
    decreases s.lowest - t
  {
    var wake := t + s.timer.value / 1000;
    var (after, fired) := Expire(s, zone, wake);
    if s.lowest - wake > 1 then RunTimer(after, zone, wake) else (after, wake, fired)
  }

  /** The deadline, or a second before it after a wait one second over whole half hours. */
  function FiringTime(t: int, lowest: int): int {
    if lowest - t > 1 && (lowest - t) % 1800 == 1 then lowest - 1 else lowest
  }

  /** One wait: half an hour, or what is left; the firing time does not depend on it. */
  lemma WakeTime(t: int, lowest: int)
    requires t < lowest
    ensures var wake := t + Min((lowest - t) * 1000, PERIOD_MS) / 1000;
            && wake == t + Min(lowest - t, 1800)
            && (if lowest - wake > 1 then FiringTime(wake, lowest) == FiringTime(t, lowest)
                else wake == FiringTime(t, lowest))
  {
  }

  /** The schedule while it waits on from a wake-up. */
  function Rearmed(s: Schedule, wake: int): Schedule {
    s.(timer := Some(Min((s.lowest - wake) * 1000, PERIOD_MS)))
  }

  /** One wake-up: waiting on, or firing. */
  lemma WakeUp(s: Schedule, zone: int, t: int) returns (wake: int)
    requires Waiting(s, t)
    ensures t < wake
    ensures s.lowest - wake > 1 ==>
              && Waiting(Rearmed(s, wake), wake)
              && RunTimer(s, zone, t) == RunTimer(Rearmed(s, wake), zone, wake)
              && FiringTime(wake, s.lowest) == FiringTime(t, s.lowest)
    ensures s.lowest - wake <= 1 ==>
              && wake == FiringTime(t, s.lowest)
              && RunTimer(s, zone, t) == (Refresh(s.rules, zone, wake), wake, Fired(s.rules, s.next))
  {
    WakeTime(t, s.lowest);
    wake := t + s.timer.value / 1000;
  }

  /** With an exact timer the cached rules fire, all of them, at the firing time. */
  lemma {:induction false} FiresAt(s: Schedule, zone: int, t: int)
    requires Waiting(s, t)
    ensures var when := FiringTime(t, s.lowest);
            RunTimer(s, zone, t) == (Refresh(s.rules, zone, when), when, Fired(s.rules, s.next))
    decreases s.lowest - t
  {
    var wake := WakeUp(s, zone, t);
    if s.lowest - wake > 1 { FiresAt(Rearmed(s, wake), zone, wake); }
  }

  lemma RefreshWaits(rules: seq<Rule>, zone: int, t: int)
    ensures InBounds(Refresh(rules, zone, t))
    ensures Refresh(rules, zone, t).timer.Some? ==> Waiting(Refresh(rules, zone, t), t)
  {
    NextSetIsExact(rules, zone, t, Lowest(rules, zone, t));
  }

  /** From any refresh that arms the timer, all rules due next fire, in list order. */
  lemma RefreshFires(rules: seq<Rule>, zone: int, t: int)
    requires Refresh(rules, zone, t).timer.Some?
    ensures var s := Refresh(rules, zone, t);
            var when := FiringTime(t, s.lowest);
            && Waiting(s, t)
            && RunTimer(s, zone, t).0 == Refresh(rules, zone, when)
            && RunTimer(s, zone, t).1 == when
            && |RunTimer(s, zone, t).2| == |s.next|
            && forall i :: 0 <= i < |s.next| ==> RunTimer(s, zone, t).2[i] == rules[s.next[i]]
  {
    var s := Refresh(rules, zone, t);
    RefreshWaits(rules, zone, t);
    FiresAt(s, zone, t);
    FiredIsCached(s, zone, t);
  }

  /** Refreshing a second before the deadline changes nothing but the delay. */
  lemma RefreshAgain(s: Schedule, zone: int, t: int)
    requires Settled(s.rules) && s == Refresh(s.rules, zone, t) && Waiting(s, t) && t < s.lowest - 1
    ensures Refresh(s.rules, zone, s.lowest - 1) == s.(timer := Some(1000))
  {
    CacheAgrees(s.rules, zone, t, s.lowest - 1);
  }

  /** After a wait one second over whole half hours the rules fire a second early, which
      leaves the same cache, armed for one second more. */
  lemma FiresEarly(s: Schedule, zone: int, t: int)
    requires Settled(s.rules) && s == Refresh(s.rules, zone, t) && Waiting(s, t)
    requires FiringTime(t, s.lowest) == s.lowest - 1
    ensures RunTimer(s, zone, t) == (s.(timer := Some(1000)), s.lowest - 1, Fired(s.rules, s.next))
    ensures Waiting(s.(timer := Some(1000)), s.lowest - 1)
  {
    RefreshAgain(s, zone, t);
    FiresAt(s, zone, t);
  }

  /** The cached rules fire a second before the deadline, and again at it. */
  ghost predicate Twice(s: Schedule, zone: int, t: int)
    requires Waiting(s, t)
  {
    var (again, early, fired) := RunTimer(s, zone, t);
    && early == s.lowest - 1
    && Waiting(again, early)
    && RunTimer(again, zone, early).1 == s.lowest
    && RunTimer(again, zone, early).2 == fired == Fired(s.rules, s.next)
  }

  /** So the same rules fire again at the deadline. */
  lemma FiresTwice(s: Schedule, zone: int, t: int)
    requires Settled(s.rules) && s == Refresh(s.rules, zone, t) && Waiting(s, t)
    requires s.lowest - t > 1 && (s.lowest - t) % 1800 == 1
    ensures Twice(s, zone, t)
  {
    FiresEarly(s, zone, t);
    FiresAgain(s, s.(timer := Some(1000)), zone, t);
  }

  lemma FiresAgain(s: Schedule, after: Schedule, zone: int, t: int)
    requires Waiting(s, t) && after.rules == s.rules && after.next == s.next && after.lowest == s.lowest
    requires Waiting(after, s.lowest - 1)
    requires RunTimer(s, zone, t) == (after, s.lowest - 1, Fired(s.rules, s.next))
    ensures Twice(s, zone, t)
  {
    FiresOnTime(after, zone, s.lowest - 1);
  }

  lemma FiresOnTime(s: Schedule, zone: int, t: int)
    requires Waiting(s, t) && t == s.lowest - 1
    ensures RunTimer(s, zone, t).1 == s.lowest && RunTimer(s, zone, t).2 == Fired(s.rules, s.next)
  {
    FiresAt(s, zone, t);
  }

  /** Once the cached rules have fired at their deadline, no timer runs exactly when some rule
      has its first execution of the day then: no rule fires until the rules are loaded anew. */
  lemma SilentAfterFirstExecution(s: Schedule, zone: int, t: int)
    requires Sound(s.rules) && s == Refresh(s.rules, zone, t) && Waiting(s, t)
    requires SoonerThanMax(t) && SoonerThanMax(s.lowest) && FiringTime(t, s.lowest) == s.lowest
    ensures RunTimer(s, zone, t).0.timer.None? <==> SomeDueNow(s.rules, zone, s.lowest)
  {
    FiresAt(s, zone, t);
    LowestIsSoon(s.rules, zone, t);
    RefreshArmsExactly(s.rules, zone, s.lowest);
  }

  // ---------------------------------------------------------------- the manager as an object

  class RuleManager {
    var rules: seq<Rule>
    var lowestTime: int
    var nextRuleSet: seq<nat>
    var timer: Option<int>

    ghost function View(): Schedule
      reads this
    {
      Schedule(rules, lowestTime, nextRuleSet, timer)
    }

    /** The next set never points outside the list of rules. */
    ghost predicate Valid()
      reads this
    {
      InBounds(View())
    }

    constructor ()
      ensures Valid() && View() == Schedule([], MAX_TIMET, [], None)
    {
      rules, lowestTime, nextRuleSet, timer := [], MAX_TIMET, [], None;
    }

    method Clear()
      modifies this
      ensures Valid() && View() == Schedule([], old(lowestTime), [], old(timer))
    {
      rules := [];
      nextRuleSet := [];
    }

    /** New rules from text replace the old ones. */
    method Deserialize(rulesConfig: string, zone: int, now: int)
      modifies this
      ensures Valid()
      ensures View() == Refresh(RuleTexts.ReadAll(SplitSkip(rulesConfig, '|')), zone, now)
    {
      Clear();
      rules := RuleTexts.DeserializeRules(rulesConfig);
      UpdateNextExecution(zone, now);
    }

    /** The scan for the least execution time and the rules that attain it. */
    method Scan(zone: int, now: int)
      modifies this`lowestTime, this`nextRuleSet
      ensures lowestTime == Lowest(rules, zone, now)
      ensures nextRuleSet == NextSet(rules, zone, now, lowestTime)
    {
      nextRuleSet := [];
      lowestTime := MAX_TIMET;
      var i := 0;
      while i < |rules|
        invariant i <= |rules|
        invariant lowestTime == Lowest(rules[..i], zone, now)
        invariant nextRuleSet == NextSet(rules[..i], zone, now, lowestTime)
      {
        ScanStep(rules, zone, now, i);
        if rules[i].enabled {
          var ruleTime := GetExecutionTime(rules[i], zone, now);
          if ruleTime <= lowestTime {
            if ruleTime < lowestTime {
              nextRuleSet := [];
              lowestTime := ruleTime;
            }
            nextRuleSet := nextRuleSet + [i];
          }
        }
        i := i + 1;
      }
      assert rules[..i] == rules;
    }

    /** The scan, and the timer for what it finds. */
    method UpdateNextExecution(zone: int, now: int)
      modifies this
      ensures Valid() && View() == Refresh(old(rules), zone, now)
    {
      timer := None;
      Scan(zone, now);
      RefreshWaits(rules, zone, now);
      if lowestTime != MAX_TIMET {
        var nbSecsNow := lowestTime - now;
        if nbSecsNow > 0 {
          timer := Some(Min(nbSecsNow * 1000, PERIOD_MS));
        }
      }
    }

    /** The enabled rules of the next set, in order. */
    method ExecuteNextSet() returns (fired: seq<Rule>)
      requires Valid()
      ensures fired == Fired(rules, nextRuleSet)
    {
      fired := [];
      var i := 0;
      while i < |nextRuleSet|
        invariant i <= |nextRuleSet|
        invariant Fired(rules, nextRuleSet) == fired + Fired(rules, nextRuleSet[i..])
      {
        FiredFrom(rules, nextRuleSet[i..], nextRuleSet[i], nextRuleSet[i + 1..], fired);
        if rules[nextRuleSet[i]].enabled {
          fired := fired + [rules[nextRuleSet[i]]];
        }
        i := i + 1;
      }
      assert nextRuleSet[i..] == [];
    }

    /** The end of the timer, however late: before the last second in front of the deadline the
        timer is armed again and nothing else happens; from then on every cached rule that is
        enabled is executed, in order, and the cache is computed anew. */
    method OnEndTimerRuleNeedExec(zone: int, now: int) returns (fired: seq<Rule>)
      requires Valid()
      modifies this
      ensures Valid() && (View(), fired) == Expire(old(View()), zone, now)
      ensures rules == old(rules)
      ensures now < old(lowestTime) - 1 ==>
                && fired == []
                && lowestTime == old(lowestTime) && nextRuleSet == old(nextRuleSet)
                && timer == Some(if old(lowestTime) - now < 1800 then (old(lowestTime) - now) * 1000 else 1800000)
      ensures now >= old(lowestTime) - 1 ==>
                && lowestTime == Lowest(rules, zone, now)
                && nextRuleSet == NextSet(rules, zone, now, lowestTime)
                && ((forall i :: 0 <= i < |old(nextRuleSet)| ==> rules[old(nextRuleSet)[i]].enabled) ==>
                      |fired| == |old(nextRuleSet)| &&
                      forall i :: 0 <= i < |fired| ==> fired[i] == rules[old(nextRuleSet)[i]])
    {
      timer := None;
      var nbSecsNow := lowestTime - now;
      if nbSecsNow > 1 {
        timer := Some(Min(nbSecsNow * 1000, PERIOD_MS));
        return [];
      }
      fired := ExecuteNextSet();
      if forall i :: 0 <= i < |nextRuleSet| ==> rules[nextRuleSet[i]].enabled { FiredIfEnabled(rules, nextRuleSet); }
      UpdateNextExecution(zone, now);
    }
  }

  /** One more rule scanned: later than the least time so far, equal to it, or earlier. */
  lemma ScanStep(rules: seq<Rule>, zone: int, t: int, i: nat)
    requires i < |rules|
    ensures var low, time := Lowest(rules[..i], zone, t), ExecutionTime(rules[i], zone, t);
            var set' := NextSet(rules[..i], zone, t, low);
            && low <= MAX_TIMET
            && Lowest(rules[..i + 1], zone, t) == (if rules[i].enabled && time < low then time else low)
            && NextSet(rules[..i + 1], zone, t, Lowest(rules[..i + 1], zone, t)) ==
               if !rules[i].enabled || low < time then set' else if time == low then set' + [i] else [i]
  {
    var before, after := rules[..i], rules[..i + 1];
    assert after[..i] == before && after[i] == rules[i];
    LowestIsLowest(before, zone, t);
    if rules[i].enabled && ExecutionTime(rules[i], zone, t) < Lowest(before, zone, t) {
      NextSetEmpty(before, zone, t, ExecutionTime(rules[i], zone, t));
    }
  }

  lemma NextSetEmpty(rules: seq<Rule>, zone: int, t: int, time: int)
    requires time < Lowest(rules, zone, t)
    ensures NextSet(rules, zone, t, time) == []
  {
    LowestIsLowest(rules, zone, t);
    NextSetIsExact(rules, zone, t, time);
    assert forall i :: 0 <= i < |rules| && rules[i].enabled ==> ExecutionTime(rules[i], zone, t) != time;
  }
}
