/** What clients are told over a run: each command completes at most once, before its frames. */
module Notifications {
  import opened Commands
  import opened Planner
  import opened Queue
  import opened Runs

  /** How often a queued command was reported completed. */
  function Count(log: seq<Event>, id: nat): nat {
    if log == [] then 0
    else
      var last := log[|log| - 1];
      Count(log[..|log| - 1], id) + (if last.Completed? && last.id == id then 1 else 0)
  }

  ghost predicate LogOk(log: seq<Event>, nextId: nat) {
    && (forall id: nat :: Count(log, id) <= (if id < nextId then 1 else 0))
    && (forall i :: 0 <= i < |log| && log[i].Sent? ==>
                      && log[i].cmd.kind != Set
                      && log[i].id < nextId
                      && Count(log[..i], log[i].id) == 1)
  }

  /** Queued commands are distinct, and marked exactly when already reported. */
  ghost predicate QueueOk(queue: seq<Entry>, log: seq<Event>, nextId: nat) {
    && (forall i :: 0 <= i < |queue| ==>
                      && queue[i].id < nextId
                      && (queue[i].notified ==> queue[i].cmd.kind == Set)
                      && Count(log, queue[i].id) == if queue[i].notified then 1 else 0)
    && (forall i, j :: 0 <= i < j < |queue| ==> queue[i].id != queue[j].id)
  }

  ghost predicate Ok(s: State) {
    LogOk(s.log, s.nextId) && QueueOk(s.queue, s.log, s.nextId)
  }

  lemma Append(log: seq<Event>, e: Event, nextId: nat)
    requires LogOk(log, nextId)
    requires e.Completed? ==> e.id < nextId && Count(log, e.id) == 0
    requires e.Sent? ==> e.id < nextId && e.cmd.kind != Set && Count(log, e.id) == 1
    ensures LogOk(log + [e], nextId)
    ensures forall id: nat :: Count(log + [e], id) == Count(log, id) + if e.Completed? && e.id == id then 1 else 0
  {
    var r := log + [e];
    assert r[..|r| - 1] == log;
    forall i | 0 <= i < |r| && r[i].Sent?
      ensures r[i].cmd.kind != Set && r[i].id < nextId && Count(r[..i], r[i].id) == 1
    {
      assert r[..i] == log[..i];
      if i == |log| { assert log[..i] == log; }
    }
  }

  /** Reporting and sending one command. */
  function Reported(log: seq<Event>, id: nat, cmd: Command, notified: bool): seq<Event> {
    log + (if notified then [] else [Completed(id, cmd)]) + [Sent(id, cmd)]
  }

  lemma ReportedLog(log: seq<Event>, id: nat, cmd: Command, notified: bool, nextId: nat)
    requires LogOk(log, nextId) && id < nextId && cmd.kind != Set
    requires Count(log, id) == if notified then 1 else 0
    ensures LogOk(Reported(log, id, cmd, notified), nextId)
    ensures forall n: nat :: Count(Reported(log, id, cmd, notified), n) ==
                             if n == id then 1 else Count(log, n)
  {
    if notified {
      assert log + [] == log;
      Append(log, Sent(id, cmd), nextId);
    } else {
      Append(log, Completed(id, cmd), nextId);
      Append(log + [Completed(id, cmd)], Sent(id, cmd), nextId);
    }
  }

  /** The log of an executed command: perhaps a new value, then perhaps a report and a frame. */
  lemma ExecuteShape(s: State, id: nat, cmd: Command, notified: bool)
    ensures var t := Execute(s, id, cmd, notified);
            && t.queue == s.queue && t.nextId == s.nextId
            && exists u: seq<Event> :: |u| <= 1 && (forall e: Event :: e in u ==> e.Updated?)
                                       && (t.log == s.log + u || t.log == Reported(s.log + u, id, cmd, notified))
  {
    var key := cmd.address.ToText();
    var v := Apply(s.max, Touch(s, key).values[key], cmd.kind, cmd.value);
    assert s.log + [] == s.log;
    var u := if Addressable(cmd.address) && cmd.kind.ChangesValue()
    then [Updated(key, v)] else [];
    var t := Execute(s, id, cmd, notified);
    assert t.log == s.log + u || t.log == Reported(s.log + u, id, cmd, notified);
  }

  lemma UpdatesAreOk(log: seq<Event>, u: seq<Event>, nextId: nat)
    requires LogOk(log, nextId) && |u| <= 1 && forall e: Event :: e in u ==> e.Updated?
    ensures LogOk(log + u, nextId) && forall n: nat :: Count(log + u, n) == Count(log, n)
  {
    if u == [] { assert log + u == log; }
    else { assert u == [u[0]] && u[0] in u; Append(log, u[0], nextId); }
  }

  /** Executing one command reports it at most once, and before its frame. */
  lemma ExecuteLog(s: State, id: nat, cmd: Command, notified: bool)
    requires LogOk(s.log, s.nextId) && id < s.nextId && cmd.kind != Set
    requires Count(s.log, id) == if notified then 1 else 0
    ensures var t := Execute(s, id, cmd, notified);
            && LogOk(t.log, t.nextId)
            && t.queue == s.queue && t.nextId == s.nextId
            && (forall n: nat :: n != id ==> Count(t.log, n) == Count(s.log, n))
            && (notified ==> Count(t.log, id) == 1)
  {
    ExecuteShape(s, id, cmd, notified);
    var t := Execute(s, id, cmd, notified);
    var u: seq<Event> :| |u| <= 1 && (forall e: Event :: e in u ==> e.Updated?)
                         && (t.log == s.log + u || t.log == Reported(s.log + u, id, cmd, notified));
    UpdatesAreOk(s.log, u, s.nextId);
    ReportedLog(s.log + u, id, cmd, notified, s.nextId);
  }

  lemma PlainTurnKeepsOk(s: State, older: seq<Entry>, e: Entry)
    requires Ok(s) && s.queue == older + [e] && e.cmd.kind != Set
    ensures Ok(Execute(s.(queue := older), e.id, e.cmd, e.notified))
  {
    assert s.queue[|older|] == e && forall i :: 0 <= i < |older| ==> older[i] == s.queue[i];
    ExecuteLog(s.(queue := older), e.id, e.cmd, e.notified);
    TailOk(older, e, s.log, Execute(s.(queue := older), e.id, e.cmd, e.notified).log, s.nextId);
  }

  lemma TurnKeepsOk(s: State)
    requires WellFormed(s) && Ok(s)
    ensures Ok(Turn(s))
  {
    if s.queue != [] {
      var older, e := s.queue[..|s.queue| - 1], s.queue[|s.queue| - 1];
      assert s.queue == older + [e];
      if e.cmd.kind != Set { PlainTurnKeepsOk(s, older, e); } else { SetTurnKeepsOk(s); }
    }
  }

  /** A SET whose plan is not empty is reported by the turn, if it was not before. */
  lemma SetTurnKeepsOk(s: State)
    requires WellFormed(s) && Ok(s) && s.queue != [] && s.queue[|s.queue| - 1].cmd.kind == Set
    ensures Ok(Turn(s))
    ensures RemainingSteps(s) > 0 ==> Count(Turn(s).log, s.queue[|s.queue| - 1].id) == 1
  {
    var e := s.queue[|s.queue| - 1];
    assert e in s.queue;
    var key := e.cmd.address.ToText();
    var p := NextStep(s.max, ValueAt(s.values, key), e.cmd.value);
    PlanProgress(s.max, ValueAt(s.values, key), e.cmd.value);
    PlannedTurnOk(s, e, key, p);
  }

  lemma PlannedTurnOk(s: State, e: Entry, key: string, p: Plan)
    requires Ok(s) && s.queue != [] && e == s.queue[|s.queue| - 1] && e.cmd.kind == Set
    requires key == e.cmd.address.ToText() && p == NextStep(s.max, ValueAt(s.values, key), e.cmd.value)
    requires (p.steps == 0 <==> p.next.None?) && (p.next.Some? ==> p.next.value.0 != Set)
    ensures Ok(Turn(s))
    ensures p.steps != 0 ==> Count(Turn(s).log, e.id) == 1
  {
    assert s.queue[|s.queue| - 1].id < s.nextId;
    PlanSetOk(s, key, p.steps);
    if p.steps != 0 {
      SubCommandOk(PlanSet(s, key, p.steps), e.id, Command(e.cmd.address, p.next.value.0, p.next.value.1));
    }
  }

  lemma PlanSetOk(s: State, key: string, steps: int)
    requires Ok(s) && s.queue != [] && s.queue[|s.queue| - 1].cmd.kind == Set
    ensures Ok(PlanSet(s, key, steps))
    ensures steps != 0 ==> Count(PlanSet(s, key, steps).log, s.queue[|s.queue| - 1].id) == 1
  {
    var older, e := s.queue[..|s.queue| - 1], s.queue[|s.queue| - 1];
    assert s.queue == older + [e];
    var log := PlanSet(s, key, steps).log;
    SetReported(s.log, e.id, e.cmd, steps != 0 && !e.notified, s.nextId);
    TailOk(older, e, s.log, log, s.nextId);
    if steps > 1 || steps < 0 { assert Count(log, e.id) == 1; }
  }

  /** A sub-command of an already reported SET reports nothing. */
  lemma SubCommandOk(s: State, id: nat, cmd: Command)
    requires Ok(s) && id < s.nextId && cmd.kind != Set && Count(s.log, id) == 1
    ensures Ok(Execute(s, id, cmd, true))
    ensures forall n: nat :: Count(Execute(s, id, cmd, true).log, n) == Count(s.log, n)
  {
    ExecuteLog(s, id, cmd, true);
  }

  /** Dropping or marking the oldest command, once the log tells of it. */
  lemma TailOk(older: seq<Entry>, e: Entry, log: seq<Event>, after: seq<Event>, nextId: nat)
    requires QueueOk(older + [e], log, nextId)
    requires forall n: nat :: n != e.id ==> Count(after, n) == Count(log, n)
    ensures QueueOk(older, after, nextId)
    ensures e.cmd.kind == Set && Count(after, e.id) == 1 ==>
              QueueOk(older + [e.(notified := true)], after, nextId)
  {
    var q := older + [e];
    assert q[|older|] == e;
    assert forall i :: 0 <= i < |older| ==> older[i] == q[i] && q[i].id != e.id;
  }

  lemma SetReported(log: seq<Event>, id: nat, cmd: Command, report: bool, nextId: nat)
    requires LogOk(log, nextId) && id < nextId && (report ==> Count(log, id) == 0)
    ensures var r := log + (if report then [Completed(id, cmd)] else []);
            && LogOk(r, nextId)
            && forall n: nat :: Count(r, n) == if report && n == id then 1 else Count(log, n)
  {
    if report { Append(log, Completed(id, cmd), nextId); } else { assert log + [] == log; }
  }

  lemma EnqueueKeepsOk(s: State, cmd: Command)
    requires Ok(s)
    ensures Ok(Enqueue(s, cmd))
  {
    if Cancels(s, cmd) {
      RemoveKeepsOk(s.queue, FindOther(s.queue, cmd), s.log, s.nextId);
    } else {
      WithoutKeepsOk(s.queue, cmd.address, s.log, s.nextId);
      PushKeepsOk(Without(s.queue, cmd.address), cmd, s.log, s.nextId);
      PushKeepsOk(s.queue, cmd, s.log, s.nextId);
    }
  }

  lemma RemoveKeepsOk(queue: seq<Entry>, i: nat, log: seq<Event>, nextId: nat)
    requires QueueOk(queue, log, nextId) && i < |queue|
    ensures QueueOk(queue[..i] + queue[i + 1..], log, nextId)
  {
    var r := queue[..i] + queue[i + 1..];
    assert forall j :: 0 <= j < |r| ==> r[j] == queue[if j < i then j else j + 1];
  }

  lemma PushKeepsOk(queue: seq<Entry>, cmd: Command, log: seq<Event>, nextId: nat)
    requires LogOk(log, nextId) && QueueOk(queue, log, nextId)
    ensures LogOk(log, nextId + 1)
    ensures QueueOk([Entry(nextId, cmd, false)] + queue, log, nextId + 1)
  {
    var r := [Entry(nextId, cmd, false)] + queue;
    assert forall j :: 0 < j < |r| ==> r[j] == queue[j - 1];
    assert Count(log, nextId) == 0;
  }

  lemma {:induction false} WithoutKeepsOk(queue: seq<Entry>, a: Address, log: seq<Event>, nextId: nat)
    requires QueueOk(queue, log, nextId)
    ensures QueueOk(Without(queue, a), log, nextId)
  {
    if queue != [] {
      WithoutKeepsOk(queue[1..], a, log, nextId);
      var r := Without(queue[1..], a);
      forall i | 0 <= i < |r|
        ensures r[i].id != queue[0].id
      {
        assert r[i] in r && r[i] in queue[1..];
      }
    }
  }

  /** What a reception logs is neither a report nor a frame. */
  lemma HeardKeepsOk(s: State, key: string, kind: Kind, e: Event)
    requires Ok(s) && s.queue == [] && e.Received?
    ensures var t := Heard(Touch(s, key), key, kind); Ok(t.(log := t.log + [e]))
  {
    var t := Heard(Touch(s, key), key, kind);
    match RemoteChange(s.max, Touch(s, key).values[key], kind) {
      case Some(v) => Append(s.log, Updated(key, v), s.nextId);
      case None =>
    }
    Append(t.log, e, s.nextId);
  }

  lemma TakeKeepsOk(s: State, a: Action)
    requires WellFormed(s) && Ok(s)
    ensures Ok(Take(s, a))
  {
    match a
    case Submit(cmd) => EnqueueKeepsOk(s, cmd);
    case Work => TurnKeepsOk(s);
    case Remote(address, kind) =>
      if s.queue == [] { HeardKeepsOk(s, address.ToText(), kind, Received(address, kind)); }
    case _ =>
  }

  /**
    * In every run each command is reported at most once; each frame belongs to a command
    * reported exactly once before it; and no SET is ever sent.
    */
  lemma {:induction false} RunNotifiesOnce(s: State, actions: seq<Action>)
    requires WellFormed(s) && Ok(s) && Possible(s, actions)
    ensures Ok(Run(s, actions))
    ensures var log := Run(s, actions).log;
            && (forall id: nat :: Count(log, id) <= 1)
            && (forall i :: 0 <= i < |log| && log[i].Sent? ==>
                              Count(log[..i], log[i].id) == 1 && log[i].cmd.kind != Set)
    decreases |actions|
  {
    if actions != [] {
      TakeKeepsWellFormed(s, actions[0]);
      TakeKeepsOk(s, actions[0]);
      RunNotifiesOnce(Take(s, actions[0]), actions[1..]);
    }
  }

  // ---------------------------------------------------------------- a report stays

  lemma ExecuteKeepsLog(s: State, id: nat, cmd: Command, notified: bool)
    ensures s.log <= Execute(s, id, cmd, notified).log
  {
  }

  lemma PlanSetKeepsLog(s: State, key: string, steps: int)
    requires s.queue != []
    ensures s.log <= PlanSet(s, key, steps).log
  {
  }

  lemma TurnKeepsLog(s: State)
    requires s.queue != []
    ensures s.log <= Turn(s).log
  {
    var older, e := s.queue[..|s.queue| - 1], s.queue[|s.queue| - 1];
    if e.cmd.kind != Set {
      ExecuteKeepsLog(s.(queue := older), e.id, e.cmd, e.notified);
    } else {
      var key := e.cmd.address.ToText();
      var p := NextStep(s.max, ValueAt(s.values, key), e.cmd.value);
      PlanSetKeepsLog(s, key, p.steps);
      if p.next.Some? {
        ExecuteKeepsLog(PlanSet(s, key, p.steps), e.id,
                        Command(e.cmd.address, p.next.value.0, p.next.value.1), true);
      }
    }
  }

  /** The log only grows. */
  lemma TakeKeepsLog(s: State, a: Action)
    ensures s.log <= Take(s, a).log
  {
    if a.Work? && s.queue != [] { TurnKeepsLog(s); }
  }

  lemma {:induction false} RunKeepsLog(s: State, actions: seq<Action>)
    ensures s.log <= Run(s, actions).log
    decreases |actions|
  {
    if actions != [] {
      TakeKeepsLog(s, actions[0]);
      RunKeepsLog(Take(s, actions[0]), actions[1..]);
    }
  }

  lemma {:induction false} CountGrows(log: seq<Event>, more: seq<Event>, id: nat)
    requires log <= more
    ensures Count(log, id) <= Count(more, id)
    decreases |more|
  {
    if |log| < |more| {
      CountGrows(log, more[..|more| - 1], id);
    } else {
      assert log == more;
    }
  }

  /** A SET whose plan is not empty when its turn comes is reported exactly once, then and
      over everything that follows. */
  lemma SetIsReportedOnce(s: State, actions: seq<Action>)
    requires WellFormed(s) && Ok(s) && s.queue != [] && s.queue[|s.queue| - 1].cmd.kind == Set
    requires RemainingSteps(s) > 0 && Possible(Turn(s), actions)
    ensures Count(Run(Turn(s), actions).log, s.queue[|s.queue| - 1].id) == 1
  {
    var t, id := Turn(s), s.queue[|s.queue| - 1].id;
    TurnKeepsResult(s);
    SetTurnKeepsOk(s);
    RunNotifiesOnce(t, actions);
    RunKeepsLog(t, actions);
    CountGrows(t.log, Run(t, actions).log, id);
  }

  // ---------------------------------------------------------------- values shown to clients

  /** The value a client following the signals shows for a unit. */
  function Shown(log: seq<Event>, key: string): int {
    if log == [] then -1
    else
      var last := log[|log| - 1];
      if last.Updated? && last.key == key then last.value else Shown(log[..|log| - 1], key)
  }

  ghost predicate InStep(s: State) {
    forall key :: Shown(s.log, key) == ValueAt(s.values, key)
  }

  lemma ShownAppend(log: seq<Event>, e: Event)
    ensures forall key :: Shown(log + [e], key) ==
                          if e.Updated? && e.key == key then e.value else Shown(log, key)
  {
    assert (log + [e])[..|log|] == log;
  }

  lemma ExecuteKeepsInStep(s: State, id: nat, cmd: Command, notified: bool)
    requires InStep(s)
    ensures InStep(Execute(s, id, cmd, notified))
  {
    if Addressable(cmd.address) {
      var key := cmd.address.ToText();
      var s1 := Touch(s, key);
      assert InStep(s1);
      var s2 := s1;
      if cmd.kind.ChangesValue() {
        s2 := SetValue(s1, key, Apply(s.max, s1.values[key], cmd.kind, cmd.value));
        ShownAppend(s1.log, Updated(key, s2.values[key]));
      }
      assert InStep(s2);
      if s.loaded {
        var log := s2.log;
        if !notified {
          ShownAppend(log, Completed(id, cmd));
          log := log + [Completed(id, cmd)];
        }
        ShownAppend(log, Sent(id, cmd));
        assert Execute(s, id, cmd, notified).log == log + [Sent(id, cmd)];
      }
    }
  }

  lemma TurnKeepsInStep(s: State)
    requires InStep(s)
    ensures InStep(Turn(s))
  {
    if s.queue != [] {
      var older, e := s.queue[..|s.queue| - 1], s.queue[|s.queue| - 1];
      if e.cmd.kind != Set {
        ExecuteKeepsInStep(s.(queue := older), e.id, e.cmd, e.notified);
      } else {
        var key := e.cmd.address.ToText();
        var s1 := Touch(s, key);
        var p := NextStep(s.max, s1.values[key], e.cmd.value);
        var s2 := PlanSet(s, key, p.steps);
        ShownAppend(s.log, Completed(e.id, e.cmd));
        assert InStep(s2) by { assert s.log + [] == s.log; }
        if p.next.Some? {
          ExecuteKeepsInStep(s2, e.id, Command(e.cmd.address, p.next.value.0, p.next.value.1), true);
        }
      }
    }
  }

  lemma HeardKeepsInStep(s: State, key: string, kind: Kind, e: Event)
    requires InStep(s) && e.Received?
    ensures var t := Heard(Touch(s, key), key, kind); InStep(t.(log := t.log + [e]))
  {
    var t := Heard(Touch(s, key), key, kind);
    match RemoteChange(s.max, Touch(s, key).values[key], kind) {
      case Some(v) => ShownAppend(s.log, Updated(key, v));
      case None =>
    }
    assert InStep(t);
    ShownAppend(t.log, e);
  }

  /** In every run the last value signalled for a unit is its value, a unit never signalled is off. */
  lemma {:induction false} RunStaysInStep(s: State, actions: seq<Action>)
    requires InStep(s)
    ensures InStep(Run(s, actions))
    decreases |actions|
  {
    if actions != [] {
      match actions[0] {
        case Work => TurnKeepsInStep(s);
        case Remote(address, kind) =>
          if s.queue == [] { HeardKeepsInStep(s, address.ToText(), kind, Received(address, kind)); }
        case _ =>
      }
      RunStaysInStep(Take(s, actions[0]), actions[1..]);
    }
  }

  // ---------------------------------------------------------------- from the start

  /** What every client can rely on from the start of the service: reports at most once, each
      frame after the one report of its command, and the last signal is the value. */
  lemma FreshRunNotifiesOnce(max: int, smart: bool, actions: seq<Action>)
    requires 1 <= max && Possible(Fresh(max, smart), actions)
    ensures var s := Run(Fresh(max, smart), actions);
            && (forall id: nat :: Count(s.log, id) <= 1)
            && (forall i :: 0 <= i < |s.log| && s.log[i].Sent? ==>
                              Count(s.log[..i], s.log[i].id) == 1 && s.log[i].cmd.kind != Set)
            && (forall key :: Shown(s.log, key) == ValueAt(s.values, key))
  {
    var s := Fresh(max, smart);
    assert Ok(s) && InStep(s);
    RunNotifiesOnce(s, actions);
    RunStaysInStep(s, actions);
  }
}
