/**
  * The rule manager with a timer that may end late, by any delay at any wake-up: a busy event
  * loop, or a machine that slept.
  */
module LateTimers {
  import opened Rules
  import opened RuleManagers

  /** Waiting out the armed delays, wake-up number `k` being `late(k)` seconds late, until the
      rules fire: the new state, when, and what. */
  ghost function RunLate(s: Schedule, zone: int, t: int, late: nat -> nat, k: nat): (Schedule, int, seq<Rule>)
    requires Waiting(s, t)
    decreases s.lowest - t
  {
    var wake := t + s.timer.value / 1000 + late(k);
    var (after, fired) := Expire(s, zone, wake);
    if s.lowest - wake > 1 then RunLate(after, zone, wake, late, k + 1) else (after, wake, fired)
  }

  /** The first wake-up that is not more than a second before the deadline. */
  function FirstWake(t: int, lowest: int, late: nat -> nat, k: nat): int
    requires t < lowest
    decreases lowest - t
  {
    var wake := t + (if lowest - t < 1800 then lowest - t else 1800) + late(k);
    if lowest - wake > 1 then FirstWake(wake, lowest, late, k + 1) else wake
  }

  lemma ArmedDelay(s: Schedule, t: int)
    requires Waiting(s, t)
    ensures s.timer.value / 1000 == if s.lowest - t < 1800 then s.lowest - t else 1800
  {
  }

  /** One wake-up, late or not. */
  lemma LateWakeUp(s: Schedule, zone: int, t: int, late: nat -> nat, k: nat) returns (wake: int)
    requires Waiting(s, t)
    ensures t < wake && wake == t + (if s.lowest - t < 1800 then s.lowest - t else 1800) + late(k)
    ensures s.lowest - wake > 1 ==>
              && Waiting(Rearmed(s, wake), wake)
              && RunLate(s, zone, t, late, k) == RunLate(Rearmed(s, wake), zone, wake, late, k + 1)
    ensures s.lowest - wake <= 1 ==>
              RunLate(s, zone, t, late, k) == (Refresh(s.rules, zone, wake), wake, Fired(s.rules, s.next))
  {
    ArmedDelay(s, t);
    wake := t + s.timer.value / 1000 + late(k);
  }

  lemma NextWake(t: int, lowest: int, late: nat -> nat, k: nat, wake: int)
    requires t < lowest && wake == t + (if lowest - t < 1800 then lowest - t else 1800) + late(k)
    ensures FirstWake(t, lowest, late, k) == if lowest - wake > 1 then FirstWake(wake, lowest, late, k + 1) else wake
  {
  }

  /** However late the timer ends each time, the cached rules fire once, all of them, at the first
      wake-up that is not more than a second before the deadline. */
  lemma {:induction false} FiresAtFirstWake(s: Schedule, zone: int, t: int, late: nat -> nat, k: nat)
    requires Waiting(s, t)
    ensures var when := FirstWake(t, s.lowest, late, k);
            RunLate(s, zone, t, late, k) == (Refresh(s.rules, zone, when), when, Fired(s.rules, s.next))
    decreases s.lowest - t
  {
    var wake := LateWakeUp(s, zone, t, late, k);
    NextWake(t, s.lowest, late, k, wake);
    if s.lowest - wake > 1 { FiresAtFirstWake(Rearmed(s, wake), zone, wake, late, k + 1); }
  }

  /** That wake-up comes no more than a second before the deadline, and after it by no more than
      its own delay. */
  lemma {:induction false} FirstWakeIsNear(t: int, lowest: int, late: nat -> nat, k: nat) returns (j: nat)
    requires t < lowest
    ensures k <= j && lowest - 1 <= FirstWake(t, lowest, late, k) <= lowest + late(j)
    decreases lowest - t
  {
    var wake := t + (if lowest - t < 1800 then lowest - t else 1800) + late(k);
    if lowest - wake > 1 {
      j := FirstWakeIsNear(wake, lowest, late, k + 1);
    } else {
      j := k;
    }
  }

  /** From any update that armed the timer: all cached rules, in list order, however late. */
  lemma RefreshFiresLate(rules: seq<Rule>, zone: int, t: int, late: nat -> nat)
    requires Refresh(rules, zone, t).timer.Some?
    ensures var s := Refresh(rules, zone, t);
            && Waiting(s, t)
            && s.lowest - 1 <= RunLate(s, zone, t, late, 0).1
            && RunLate(s, zone, t, late, 0).0 == Refresh(rules, zone, RunLate(s, zone, t, late, 0).1)
            && |RunLate(s, zone, t, late, 0).2| == |s.next|
            && forall i :: 0 <= i < |s.next| ==> RunLate(s, zone, t, late, 0).2[i] == rules[s.next[i]]
  {
    var s := Refresh(rules, zone, t);
    RefreshWaits(rules, zone, t);
    FiresAtFirstWake(s, zone, t, late, 0);
    var j := FirstWakeIsNear(t, s.lowest, late, 0);
    FiredIsCached(s, zone, t);
  }

  /** A timer that is never late is the exact one. */
  lemma {:induction false} NeverLateIsExact(s: Schedule, zone: int, t: int, late: nat -> nat, k: nat)
    requires Waiting(s, t) && forall i: nat :: late(i) == 0
    ensures RunLate(s, zone, t, late, k) == RunTimer(s, zone, t)
    decreases s.lowest - t
  {
    var wake := LateWakeUp(s, zone, t, late, k);
    var exact := WakeUp(s, zone, t);
    assert late(k) == 0;
    WakeTime(t, s.lowest);
    FiresAt(s, zone, t);
    FiresAtFirstWake(s, zone, t, late, k);
    ExactWake(t, s.lowest, late, k);
  }

  lemma {:induction false} ExactWake(t: int, lowest: int, late: nat -> nat, k: nat)
    requires t < lowest && forall i: nat :: late(i) == 0
    ensures FirstWake(t, lowest, late, k) == FiringTime(t, lowest)
    decreases lowest - t
  {
    var wake := t + (if lowest - t < 1800 then lowest - t else 1800) + late(k);
    WakeTime(t, lowest);
    if lowest - wake > 1 { ExactWake(wake, lowest, late, k + 1); }
  }
}
