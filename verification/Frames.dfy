/** What reaches the controller over a run: each frame traced to a queued command, and the
    values shown to clients rebuilt from the frames alone. */
module Frames {
  import opened Commands
  import opened Planner
  import opened Queue
  import opened SmartQueue
  import opened Runs
  import opened Notifications

  // ---------------------------------------------------------------- tracing

  /** `issued[id]` is the command queued as `id`: entries and reports carry it unchanged, a
      frame is for its unit and is the command itself unless that is a SET. */
  ghost predicate Traced(s: State, issued: seq<Command>) {
    && |issued| == s.nextId
    && (forall i :: 0 <= i < |s.queue| ==> s.queue[i].id < |issued| && s.queue[i].cmd == issued[s.queue[i].id])
    && (forall i :: 0 <= i < |s.log| ==> EventTraced(s.log[i], issued))
  }

  predicate EventTraced(e: Event, issued: seq<Command>) {
    e.Updated? || e.Received? ||
    (e.id < |issued| &&
     if e.Completed? then e.cmd == issued[e.id]
     else
       && e.cmd.address == issued[e.id].address
       && (if issued[e.id].kind == Set then e.cmd.kind.IsSimple() else e.cmd == issued[e.id]))
  }

  /** The commands queued after an action. */
  function Issued(s: State, a: Action, issued: seq<Command>): seq<Command> {
    if a.Submit? && !Cancels(s, a.cmd) then issued + [a.cmd] else issued
  }

  lemma ExecuteTraced(s: State, id: nat, cmd: Command, notified: bool, issued: seq<Command>)
    requires Traced(s, issued) && id < |issued| && cmd.address == issued[id].address
    requires if issued[id].kind == Set then cmd.kind.IsSimple() && notified else cmd == issued[id]
    ensures Traced(Execute(s, id, cmd, notified), issued)
  {
    ExecuteShape(s, id, cmd, notified);
    var t := Execute(s, id, cmd, notified);
    var u: seq<Event> :| |u| <= 1 && (forall e: Event :: e in u ==> e.Updated?)
                         && (t.log == s.log + u || t.log == Reported(s.log + u, id, cmd, notified));
    LogTraced(s.log, u, id, cmd, notified, issued);
  }

  lemma LogTraced(log: seq<Event>, u: seq<Event>, id: nat, cmd: Command, notified: bool, issued: seq<Command>)
    requires forall i :: 0 <= i < |log| ==> EventTraced(log[i], issued)
    requires forall e: Event :: e in u ==> e.Updated?
    requires EventTraced(Sent(id, cmd), issued) && (notified || EventTraced(Completed(id, cmd), issued))
    ensures forall i :: 0 <= i < |log + u| ==> EventTraced((log + u)[i], issued)
    ensures var r := Reported(log + u, id, cmd, notified);
            forall i :: 0 <= i < |r| ==> EventTraced(r[i], issued)
  {
    assert forall i :: 0 <= i < |u| ==> u[i] in u;
    var r := Reported(log + u, id, cmd, notified);
    forall i | 0 <= i < |r|
      ensures EventTraced(r[i], issued)
    {
      assert r[i] == if i < |log| then log[i] else if i < |log| + |u| then u[i - |log|]
                     else if i == |r| - 1 then Sent(id, cmd) else Completed(id, cmd);
    }
  }

  lemma PlanSetTraced(s: State, key: string, steps: int, issued: seq<Command>)
    requires Traced(s, issued) && s.queue != []
    ensures Traced(PlanSet(s, key, steps), issued)
  {
    var older, e := s.queue[..|s.queue| - 1], s.queue[|s.queue| - 1];
    assert s.queue == older + [e];
  }

  lemma TurnTraced(s: State, issued: seq<Command>)
    requires WellFormed(s) && Traced(s, issued)
    ensures Traced(Turn(s), issued)
  {
    if s.queue != [] {
      var older, e := s.queue[..|s.queue| - 1], s.queue[|s.queue| - 1];
      assert e in s.queue;
      if e.cmd.kind != Set {
        ExecuteTraced(s.(queue := older), e.id, e.cmd, e.notified, issued);
      } else {
        var key := e.cmd.address.ToText();
        var v := ValueAt(s.values, key);
        var p := NextStep(s.max, v, e.cmd.value);
        PlanProgress(s.max, v, e.cmd.value);
        PlanSetTraced(s, key, p.steps, issued);
        if p.next.Some? {
          ExecuteTraced(PlanSet(s, key, p.steps), e.id,
                        Command(e.cmd.address, p.next.value.0, p.next.value.1), true, issued);
        }
      }
    }
  }

  lemma EnqueueTraced(s: State, cmd: Command, issued: seq<Command>)
    requires Traced(s, issued)
    ensures Traced(Enqueue(s, cmd), Issued(s, Submit(cmd), issued))
  {
    forall i | 0 <= i < |Enqueue(s, cmd).queue|
      ensures var e := Enqueue(s, cmd).queue[i];
              e in s.queue || e == Entry(s.nextId, cmd, false)
    {
      var e := Enqueue(s, cmd).queue[i];
      if i > 0 && !Cancels(s, cmd) && s.smart && cmd.kind.Erases() {
        assert e in Without(s.queue, cmd.address);
      }
    }
    var more := Issued(s, Submit(cmd), issued);
    assert forall id :: 0 <= id < |issued| ==> more[id] == issued[id];
  }

  /** The commands queued over a run. */
  function AllIssued(s: State, actions: seq<Action>, issued: seq<Command>): seq<Command>
    decreases |actions|
  {
    if actions == [] then issued
    else AllIssued(Take(s, actions[0]), actions[1..], Issued(s, actions[0], issued))
  }

  /** In every run each report and each frame belongs to a command that was queued, for the
      same unit; only a SET is sent as something else. */
  lemma {:induction false} RunIsTraced(s: State, actions: seq<Action>, issued: seq<Command>)
    requires WellFormed(s) && Traced(s, issued) && Possible(s, actions)
    ensures Traced(Run(s, actions), AllIssued(s, actions, issued))
    decreases |actions|
  {
    if actions != [] {
      TakeKeepsWellFormed(s, actions[0]);
      match actions[0] {
        case Submit(cmd) => EnqueueTraced(s, cmd, issued);
        case Work => TurnTraced(s, issued);
        case _ =>
      }
      RunIsTraced(Take(s, actions[0]), actions[1..], Issued(s, actions[0], issued));
    }
  }

  // ---------------------------------------------------------------- replaying the frames

  /** The values of units that obey the frames sent and the frames of remote controls, from
      given values. */
  function Replay(max: int, values: map<string, int>, log: seq<Event>): map<string, int> {
    if log == [] then values
    else
      var before, last := Replay(max, values, log[..|log| - 1]), log[|log| - 1];
      if last.Sent? then Atomic(max, before, last.cmd)
      else if last.Received? then Atomic(max, before, Command(last.address, last.kind, 0))
      else before
  }

  /** The units driven by the frames show the values the manager shows. */
  ghost predicate Obeyed(s: State, values: map<string, int>) {
    SameValues(Replay(s.max, values, s.log), s.values)
  }

  lemma ReplayAppend(max: int, values: map<string, int>, log: seq<Event>, e: Event)
    ensures Replay(max, values, log + [e]) ==
            if e.Sent? then Atomic(max, Replay(max, values, log), e.cmd)
            else if e.Received? then Atomic(max, Replay(max, values, log), Command(e.address, e.kind, 0))
            else Replay(max, values, log)
  {
    assert (log + [e])[..|log|] == log;
  }

  lemma ReplayReported(max: int, values: map<string, int>, log: seq<Event>, id: nat, cmd: Command, notified: bool)
    ensures Replay(max, values, Reported(log, id, cmd, notified)) == Atomic(max, Replay(max, values, log), cmd)
  {
    if notified {
      assert log + [] == log;
    } else {
      ReplayAppend(max, values, log, Completed(id, cmd));
    }
    ReplayAppend(max, values, log + (if notified then [] else [Completed(id, cmd)]), Sent(id, cmd));
  }

  /** A command carried out with a controller loaded is sent. */
  lemma ExecuteSends(s: State, id: nat, cmd: Command, notified: bool)
    requires s.loaded && cmd.Valid(s.max)
    ensures exists u: seq<Event> :: |u| <= 1 && (forall e: Event :: e in u ==> e.Updated?) &&
                                    Execute(s, id, cmd, notified).log == Reported(s.log + u, id, cmd, notified)
  {
    var key := cmd.address.ToText();
    var v := Apply(s.max, Touch(s, key).values[key], cmd.kind, cmd.value);
    var u := if cmd.kind.ChangesValue() then [Updated(key, v)] else [];
    assert s.log + [] == s.log;
    assert Execute(s, id, cmd, notified).log == Reported(s.log + u, id, cmd, notified);
  }

  lemma ReplayExecuted(max: int, values: map<string, int>, log: seq<Event>, u: seq<Event>,
                       id: nat, cmd: Command, notified: bool)
    requires |u| <= 1 && forall e: Event :: e in u ==> e.Updated?
    ensures Replay(max, values, Reported(log + u, id, cmd, notified)) == Atomic(max, Replay(max, values, log), cmd)
  {
    if u == [] { assert log + u == log; }
    else { assert u == [u[0]] && u[0] in u; ReplayAppend(max, values, log, u[0]); }
    ReplayReported(max, values, log + u, id, cmd, notified);
  }

  lemma ExecuteObeyed(s: State, id: nat, cmd: Command, notified: bool, values: map<string, int>)
    requires WellFormed(s) && s.loaded && cmd.Valid(s.max) && Obeyed(s, values)
    ensures Obeyed(Execute(s, id, cmd, notified), values)
  {
    ExecuteSends(s, id, cmd, notified);
    var t := Execute(s, id, cmd, notified);
    var u: seq<Event> :| |u| <= 1 && (forall e: Event :: e in u ==> e.Updated?) &&
                         t.log == Reported(s.log + u, id, cmd, notified);
    ReplayExecuted(s.max, values, s.log, u, id, cmd, notified);
    ExecuteIsAtomic(s, id, cmd, notified);
    AtomicRespectsValues(s.max, Replay(s.max, values, s.log), s.values, cmd);
  }

  lemma PlanSetObeyed(s: State, key: string, steps: int, values: map<string, int>)
    requires Obeyed(s, values) && s.queue != []
    ensures Obeyed(PlanSet(s, key, steps), values)
  {
    var e := s.queue[|s.queue| - 1];
    ReplayAppend(s.max, values, s.log, Completed(e.id, e.cmd));
    assert s.log + [] == s.log;
    forall k ensures ValueAt(PlanSet(s, key, steps).values, k) == ValueAt(s.values, k) {}
  }

  lemma PlanSetKeepsWellFormed(s: State, key: string, steps: int)
    requires WellFormed(s) && s.queue != []
    ensures WellFormed(PlanSet(s, key, steps))
  {
    assert s.queue[|s.queue| - 1] in s.queue;
  }

  lemma TurnObeyed(s: State, values: map<string, int>)
    requires WellFormed(s) && s.loaded && Obeyed(s, values)
    ensures Obeyed(Turn(s), values)
  {
    if s.queue != [] {
      var older, e := s.queue[..|s.queue| - 1], s.queue[|s.queue| - 1];
      assert e in s.queue;
      if e.cmd.kind != Set {
        ExecuteObeyed(s.(queue := older), e.id, e.cmd, e.notified, values);
      } else {
        var key := e.cmd.address.ToText();
        var v := ValueAt(s.values, key);
        var p := NextStep(s.max, v, e.cmd.value);
        PlanProgress(s.max, v, e.cmd.value);
        PlanSetObeyed(s, key, p.steps, values);
        PlanSetKeepsWellFormed(s, key, p.steps);
        if p.next.Some? {
          ExecuteObeyed(PlanSet(s, key, p.steps), e.id,
                        Command(e.cmd.address, p.next.value.0, p.next.value.1), true, values);
        }
      }
    }
  }

  /** Without a controller a turn logs no frame, whatever it changes. */
  lemma ExecuteReplaysNothing(s: State, id: nat, cmd: Command, notified: bool, values: map<string, int>)
    requires !s.loaded
    ensures Replay(s.max, values, Execute(s, id, cmd, notified).log) == Replay(s.max, values, s.log)
  {
    var key := cmd.address.ToText();
    if Addressable(cmd.address) && cmd.kind.ChangesValue() {
      ReplayAppend(s.max, values, s.log, Updated(key, Apply(s.max, Touch(s, key).values[key], cmd.kind, cmd.value)));
    }
  }

  lemma PlanReplaysNothing(s: State, key: string, steps: int, values: map<string, int>)
    requires s.queue != []
    ensures Replay(s.max, values, PlanSet(s, key, steps).log) == Replay(s.max, values, s.log)
  {
    var e := s.queue[|s.queue| - 1];
    ReplayAppend(s.max, values, s.log, Completed(e.id, e.cmd));
    assert s.log + [] == s.log;
  }

  lemma TurnReplaysNothing(s: State, values: map<string, int>)
    requires !s.loaded
    ensures Replay(s.max, values, Turn(s).log) == Replay(s.max, values, s.log)
  {
    if s.queue != [] {
      var older, e := s.queue[..|s.queue| - 1], s.queue[|s.queue| - 1];
      if e.cmd.kind != Set {
        ExecuteReplaysNothing(s.(queue := older), e.id, e.cmd, e.notified, values);
      } else {
        var key := e.cmd.address.ToText();
        var p := NextStep(s.max, ValueAt(s.values, key), e.cmd.value);
        PlanReplaysNothing(s, key, p.steps, values);
        if p.next.Some? {
          ExecuteReplaysNothing(PlanSet(s, key, p.steps), e.id,
                                Command(e.cmd.address, p.next.value.0, p.next.value.1), true, values);
        }
      }
    }
  }

  lemma HeardReplays(s: State, key: string, kind: Kind, values: map<string, int>, e: Event)
    requires e.Received?
    ensures var t := Heard(Touch(s, key), key, kind);
            Replay(s.max, values, t.log + [e]) ==
            Atomic(s.max, Replay(s.max, values, s.log), Command(e.address, e.kind, 0))
  {
    var t := Heard(Touch(s, key), key, kind);
    match RemoteChange(s.max, Touch(s, key).values[key], kind) {
      case Some(v) => ReplayAppend(s.max, values, s.log, Updated(key, v));
      case None =>
    }
    ReplayAppend(s.max, values, t.log, e);
  }

  /** A reception changes the value shown as it changes the unit. */
  lemma ReceiveObeyed(s: State, a: Address, kind: Kind, values: map<string, int>)
    requires WellFormed(s) && s.queue == [] && kind != Set && Obeyed(s, values)
    ensures Obeyed(Receive(s, a, kind), values)
  {
    HeardReplays(s, a.ToText(), kind, values, Received(a, kind));
    ReceiveIsAtomic(s, a, kind);
    AtomicRespectsValues(s.max, Replay(s.max, values, s.log), s.values, Command(a, kind, 0));
  }

  /** A worker turn that changes a value finds a controller. */
  ghost predicate Followed(s: State, a: Action) {
    a.Work? && !s.loaded ==> SameValues(Turn(s).values, s.values)
  }

  /** One action keeps the units and the values shown together exactly when it is followed. */
  lemma TakeObeyed(s: State, a: Action, values: map<string, int>)
    requires WellFormed(s) && Enabled(s, a) && Obeyed(s, values)
    ensures Obeyed(Take(s, a), values) <==> Followed(s, a)
  {
    match a
    case Work => if s.loaded { TurnObeyed(s, values); } else { TurnReplaysNothing(s, values); }
    case Remote(address, kind) => ReceiveObeyed(s, address, kind, values);
    case Ask(source) =>
      forall k ensures ValueAt(Query(s, source).values, k) == ValueAt(s.values, k) {}
    case _ =>
  }

  lemma TurnKeepsLoaded(s: State)
    ensures Turn(s).loaded == s.loaded
  {
  }

  ghost predicate FollowedRun(s: State, actions: seq<Action>)
    decreases |actions|
  {
    actions != [] ==> Followed(s, actions[0]) && FollowedRun(Take(s, actions[0]), actions[1..])
  }

  /** Replaying the frames sent and received over any run gives every value shown, as long as
      no value is changed by the worker while no controller is loaded. */
  lemma {:induction false} RunIsObeyed(s: State, actions: seq<Action>, values: map<string, int>)
    requires WellFormed(s) && Obeyed(s, values) && Possible(s, actions) && FollowedRun(s, actions)
    ensures Obeyed(Run(s, actions), values)
    decreases |actions|
  {
    if actions != [] {
      TakeKeepsWellFormed(s, actions[0]);
      TakeObeyed(s, actions[0], values);
      RunIsObeyed(Take(s, actions[0]), actions[1..], values);
    }
  }

  /** So it is while a controller stays loaded. */
  lemma {:induction false} LoadedIsFollowed(s: State, actions: seq<Action>)
    requires s.loaded && forall i :: 0 <= i < |actions| ==> !actions[i].Controller?
    ensures FollowedRun(s, actions)
    decreases |actions|
  {
    if actions != [] {
      TakeKeepsLoaded(s, actions[0]);
      LoadedIsFollowed(Take(s, actions[0]), actions[1..]);
    }
  }

  lemma TakeKeepsLoaded(s: State, a: Action)
    requires !a.Controller?
    ensures Take(s, a).loaded == s.loaded
  {
  }

  // ---------------------------------------------------------------- without a controller

  ghost predicate NothingSent(log: seq<Event>) { forall i :: 0 <= i < |log| ==> !log[i].Sent? }

  lemma ExecuteUnloaded(s: State, id: nat, cmd: Command, notified: bool)
    requires !s.loaded && NothingSent(s.log)
    ensures var t := Execute(s, id, cmd, notified); NothingSent(t.log) && !t.loaded
  {
  }

  lemma TurnUnloaded(s: State)
    requires !s.loaded && NothingSent(s.log)
    ensures NothingSent(Turn(s).log) && !Turn(s).loaded
  {
    if s.queue != [] {
      var older, e := s.queue[..|s.queue| - 1], s.queue[|s.queue| - 1];
      if e.cmd.kind != Set {
        ExecuteUnloaded(s.(queue := older), e.id, e.cmd, e.notified);
      } else {
        var key := e.cmd.address.ToText();
        var p := NextStep(s.max, ValueAt(s.values, key), e.cmd.value);
        if p.next.Some? {
          ExecuteUnloaded(PlanSet(s, key, p.steps), e.id,
                          Command(e.cmd.address, p.next.value.0, p.next.value.1), true);
        }
      }
    }
  }

  /** While no controller is loaded nothing is sent, in any run; the values change all the same. */
  lemma {:induction false} RunUnloaded(s: State, actions: seq<Action>)
    requires !s.loaded && NothingSent(s.log)
    requires forall i :: 0 <= i < |actions| ==> !actions[i].Controller?
    ensures NothingSent(Run(s, actions).log)
    decreases |actions|
  {
    if actions != [] {
      if actions[0].Work? { TurnUnloaded(s); }
      RunUnloaded(Take(s, actions[0]), actions[1..]);
    }
  }

  // ---------------------------------------------------------------- from the start

  /** From the start of the service every report and frame belongs to a queued command; and
      replaying the frames, from all units off, gives every value shown. */
  lemma FreshRunIsTraced(max: int, smart: bool, actions: seq<Action>)
    requires 1 <= max && Possible(Fresh(max, smart), actions)
    ensures Traced(Run(Fresh(max, smart), actions), AllIssued(Fresh(max, smart), actions, []))
  {
    RunIsTraced(Fresh(max, smart), actions, []);
  }

  /** Nor need the controller stay, as long as the worker changes nothing without it. */
  lemma FreshRunIsObeyed(max: int, smart: bool, actions: seq<Action>)
    requires 1 <= max && Possible(Fresh(max, smart), actions) && FollowedRun(Fresh(max, smart), actions)
    ensures Obeyed(Run(Fresh(max, smart), actions), map[])
  {
    RunIsObeyed(Fresh(max, smart), actions, map[]);
  }

  lemma FreshLoadedRunIsObeyed(max: int, smart: bool, actions: seq<Action>)
    requires 1 <= max && Possible(Fresh(max, smart), [Controller(true)] + actions)
    requires forall i :: 0 <= i < |actions| ==> !actions[i].Controller?
    ensures Obeyed(Run(Fresh(max, smart), [Controller(true)] + actions), map[])
  {
    assert ([Controller(true)] + actions)[1..] == actions;
    LoadedIsFollowed(Fresh(max, smart).(loaded := true), actions);
    FreshRunIsObeyed(max, smart, [Controller(true)] + actions);
  }
}
