/**
  * How a value changes under one X10 command, and how a SET is planned as a
  * sequence of them. The brightest value `max` is symbolic (7 in the program);
  * -1 stands for off.
  */
module Planner {
  import opened Text
  import opened Commands

  predicate InRange(max: int, v: int) { -1 <= v <= max }

  /** The value a unit shows after a command (the switch of the worker). */
  function Apply(max: int, v: int, kind: Kind, target: int): int {
    match kind
    case Set => target
    case On => if v < 0 then max else v
    case Off => -1
    case Dim => var w := if v == -1 then max else v; if w != 0 then w - 1 else 0
    case Bright => var w := if v == -1 then max else v; if w >= max then max else w + 1
    case _ => v
  }

  /** `steps` is the announced number of commands; `next` the one to send now. */
  datatype Plan = Plan(steps: int, next: Option<(Kind, int)>)

  /** The next command on the way from `v` to `target` (GetNextCommand). */
  function NextStep(max: int, v: int, target: int): Plan {
    if target == -1 then Plan(1, Some((Off, -1)))
    else if v == target then Plan(0, None)
    else if v == -1 then
      if target == max then Plan(1, Some((On, max)))
      else Plan(1 + max - target, Some((Dim, max - 1)))
    else if v > target then Plan(v - target, Some((Dim, v - 1)))
    else if target - v > 2 + max - target then Plan(2 + max - target, Some((Off, -1)))
    else Plan(target - v, Some((Bright, v + 1)))
  }

  /** The value after the planned command, if there is one. */
  function After(max: int, v: int, target: int): int {
    match NextStep(max, v, target).next
    case Some(p) => Apply(max, v, p.0, p.1)
    case None => v
  }

  /**
    * One planned step: the sub-command carries the value the unit then shows; a
    * plan of at most one step reaches the target with it; a longer plan leaves a
    * strictly shorter one, by one step except by two for the first DIM of a unit that is off.
    */
  lemma PlanProgress(max: int, v: int, target: int)
    requires 1 <= max && InRange(max, v) && InRange(max, target)
    ensures var p := NextStep(max, v, target);
            var w := After(max, v, target);
            && InRange(max, w)
            && 0 <= p.steps
            && (p.steps == 0 <==> p.next.None?)
            && (p.next.Some? ==> p.next.value.1 == w && p.next.value.0.IsSimple())
            && (p.steps <= 1 ==> w == target)
            && (p.steps > 1 ==>
                  NextStep(max, w, target).steps == p.steps - (if v == -1 then 2 else 1))
  {
  }

  /** The whole sequence of sub-commands a SET sends while it stays in the queue. */
  function Sent(max: int, v: int, target: int): seq<Kind>
    requires 1 <= max && InRange(max, v) && InRange(max, target)
    decreases NextStep(max, v, target).steps
  {
    PlanProgress(max, v, target);
    var p := NextStep(max, v, target);
    if p.steps == 0 then []
    else if p.steps == 1 then [p.next.value.0]
    else [p.next.value.0] + Sent(max, After(max, v, target), target)
  }

  /** `n` times the same command. */
  function Many(kind: Kind, n: nat): (kinds: seq<Kind>)
    ensures |kinds| == n && forall i :: 0 <= i < n ==> kinds[i] == kind
  {
    if n == 0 then [] else [kind] + Many(kind, n - 1)
  }

  lemma {:induction false} SentDown(max: int, v: int, target: int)
    requires 1 <= max && 0 <= target < v <= max
    ensures Sent(max, v, target) == Many(Dim, v - target)
    decreases v - target
  {
    if v - target == 1 {
      assert Many(Dim, 1) == [Dim] + Many(Dim, 0);
    } else {
      SentDown(max, v - 1, target);
    }
  }

  lemma {:induction false} SentUp(max: int, v: int, target: int)
    requires 1 <= max && 0 <= v < target <= max && target - v <= 2 + max - target
    ensures Sent(max, v, target) == Many(Bright, target - v)
    decreases target - v
  {
    if target - v == 1 {
      assert Many(Bright, 1) == [Bright] + Many(Bright, 0);
    } else {
      SentUp(max, v + 1, target);
    }
  }

  lemma SentFromOff(max: int, target: int)
    requires 1 <= max && 0 <= target <= max
    ensures Sent(max, -1, target) == if target == max then [On] else Many(Dim, max - target)
  {
    if target == max - 1 {
      assert Many(Dim, 1) == [Dim] + Many(Dim, 0);
    } else if target < max {
      SentDown(max, max - 1, target);
    }
  }

  /** Every command a SET sends, from every value to every target: an OFF is always repeated,
      a value already shown sends nothing, and brightening by more than the way over OFF takes
      that way. */
  lemma SentIs(max: int, v: int, target: int)
    requires 1 <= max && InRange(max, v) && InRange(max, target)
    ensures target == -1 ==> Sent(max, v, target) == [Off]
    ensures v == target >= 0 ==> Sent(max, v, target) == []
    ensures v == -1 && target == max ==> Sent(max, v, target) == [On]
    ensures v == -1 && 0 <= target < max ==> Sent(max, v, target) == Many(Dim, max - target)
    ensures 0 <= target < v ==> Sent(max, v, target) == Many(Dim, v - target)
    ensures 0 <= v < target && target - v <= 2 + max - target ==> Sent(max, v, target) == Many(Bright, target - v)
    ensures 0 <= v < target && target - v > 2 + max - target ==>
              Sent(max, v, target) == [Off] + if target == max then [On] else Many(Dim, max - target)
  {
    if 0 <= target < v { SentDown(max, v, target); }
    if 0 <= v < target && target - v <= 2 + max - target { SentUp(max, v, target); }
    if target >= 0 { SentFromOff(max, target); }
  }

  function ApplyAll(max: int, v: int, kinds: seq<Kind>): int
    decreases |kinds|
  {
    if kinds == [] then v else ApplyAll(max, Apply(max, v, kinds[0], 0), kinds[1..])
  }

  predicate Simple(kinds: seq<Kind>) {
    forall k :: k in kinds ==> k.IsSimple()
  }

  /** The path visits an off unit that it then dims. */
  predicate DimsFromOff(max: int, v: int, target: int) {
    && target != -1
    && target != max
    && (v == -1 || target - v > 2 + max - target)
  }

  /** The plan reaches its target, and the announced step count is the number sent,
      or one more exactly when the path dims a unit that is off. */
  lemma {:induction false} PlanReachesTarget(max: int, v: int, target: int)
    requires 1 <= max && InRange(max, v) && InRange(max, target)
    ensures ApplyAll(max, v, Sent(max, v, target)) == target
    ensures Simple(Sent(max, v, target))
    ensures NextStep(max, v, target).steps ==
            |Sent(max, v, target)| + (if DimsFromOff(max, v, target) then 1 else 0)
    decreases NextStep(max, v, target).steps
  {
    PlanProgress(max, v, target);
    var p := NextStep(max, v, target);
    if p.steps == 1 {
      assert Sent(max, v, target) == [p.next.value.0];
      assert ApplyAll(max, v, [p.next.value.0]) == After(max, v, target);
    } else if p.steps > 1 {
      var w := After(max, v, target);
      PlanReachesTarget(max, w, target);
      assert Sent(max, v, target)[1..] == Sent(max, w, target);
    }
  }

  /** The fewest ON, OFF, DIM and BRIGHT commands that lead from `v` to `target`. */
  function Distance(max: int, v: int, target: int): int {
    if v == target then 0
    else if target == -1 then 1
    else if v == -1 then (if target == max then 1 else max - target)
    else if v > target then v - target
    else
      var viaOff := 1 + (if target == max then 1 else max - target);
      if target - v < viaOff then target - v else viaOff
  }

  /** No command sequence whatever is shorter than the distance. */
  lemma {:induction false} DistanceIsLowerBound(max: int, v: int, target: int, kinds: seq<Kind>)
    requires 1 <= max && InRange(max, v) && InRange(max, target) && Simple(kinds)
    requires ApplyAll(max, v, kinds) == target
    ensures Distance(max, v, target) <= |kinds|
    decreases |kinds|
  {
    if kinds != [] {
      var w := Apply(max, v, kinds[0], 0);
      assert kinds[0] in kinds && forall k :: k in kinds[1..] ==> k in kinds;
      DistanceIsLowerBound(max, w, target, kinds[1..]);
      assert Distance(max, v, target) <= 1 + Distance(max, w, target);
    }
  }

  /** The distance is attained. */
  lemma {:induction false} DistanceIsAttained(max: int, v: int, target: int) returns (kinds: seq<Kind>)
    requires 1 <= max && InRange(max, v) && InRange(max, target)
    ensures Simple(kinds) && ApplyAll(max, v, kinds) == target
    ensures |kinds| == Distance(max, v, target)
    decreases Distance(max, v, target)
  {
    if v == target {
      kinds := [];
    } else {
      var k := if target == -1 then Off
      else if v == -1 then (if target == max then On else Dim)
      else if v > target then Dim
      else if target - v == Distance(max, v, target) then Bright
      else Off;
      var rest := DistanceIsAttained(max, Apply(max, v, k, 0), target);
      kinds := [k] + rest;
      assert kinds[1..] == rest;
    }
  }

  /**
    * Planning is optimal over all ON/OFF/DIM/BRIGHT sequences up to one command, and
    * misses the optimum only at the tie of the OFF shortcut. A repeated OFF is sent on purpose.
    */
  lemma PlanIsNearOptimal(max: int, v: int, target: int)
    requires 1 <= max && InRange(max, v) && InRange(max, target)
    requires !(v == -1 && target == -1)
    ensures |Sent(max, v, target)| ==
            Distance(max, v, target) +
            (if 0 <= v && target < max && target - v == 2 + max - target then 1 else 0)
  {
    PlanReachesTarget(max, v, target);
  }
}
