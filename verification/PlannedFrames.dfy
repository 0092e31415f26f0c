/** The frames a queue stands for: those of the plan of each SET, and those of a whole queue. */
module PlannedFrames {
  import opened Text
  import opened Commands
  import opened Planner
  import opened Queue
  import opened SmartQueue
  import opened Notifications
  import opened Frames

  // ---------------------------------------------------------------- the frames of one SET

  /** The frames of a log: identity, unit, kind. */
  function Sends(log: seq<Event>): seq<(nat, Address, Kind)> {
    if log == [] then []
    else
      var last := log[|log| - 1];
      Sends(log[..|log| - 1]) + (if last.Sent? then [(last.id, last.cmd.address, last.cmd.kind)] else [])
  }

  function Tagged(id: nat, a: Address, kinds: seq<Kind>): seq<(nat, Address, Kind)> {
    if kinds == [] then [] else [(id, a, kinds[0])] + Tagged(id, a, kinds[1..])
  }

  /** Worker turns on the SET at the back of the queue, until it leaves the queue. */
  ghost function CarriedOut(s: State): State
    requires WellFormed(s) && s.queue != [] && s.queue[|s.queue| - 1].cmd.kind == Set
    decreases RemainingSteps(s)
  {
    var older, e := s.queue[..|s.queue| - 1], s.queue[|s.queue| - 1];
    assert s.queue == older + [e];
    SetTurnShape(s, older, e);
    SetTurn(s, older, e);
    if |Turn(s).queue| < |s.queue| then Turn(s) else CarriedOut(Turn(s))
  }

  lemma SendsAppend(log: seq<Event>, e: Event)
    ensures Sends(log + [e]) ==
            Sends(log) + (if e.Sent? then [(e.id, e.cmd.address, e.cmd.kind)] else [])
  {
    assert (log + [e])[..|log|] == log;
  }

  lemma SendsUpdates(log: seq<Event>, u: seq<Event>)
    requires |u| <= 1 && forall e: Event :: e in u ==> e.Updated?
    ensures Sends(log + u) == Sends(log)
  {
    if u == [] { assert log + u == log; }
    else { assert u == [u[0]] && u[0] in u; SendsAppend(log, u[0]); }
  }

  lemma SendsExecuted(log: seq<Event>, u: seq<Event>, id: nat, cmd: Command, notified: bool)
    requires |u| <= 1 && forall e: Event :: e in u ==> e.Updated?
    ensures Sends(Reported(log + u, id, cmd, notified)) == Sends(log) + [(id, cmd.address, cmd.kind)]
  {
    SendsUpdates(log, u);
    if notified {
      assert (log + u) + [] == log + u;
      SendsAppend(log + u, Sent(id, cmd));
    } else {
      SendsAppend(log + u, Completed(id, cmd));
      SendsAppend((log + u) + [Completed(id, cmd)], Sent(id, cmd));
    }
  }

  /** The frame of one executed command. */
  lemma CommandSends(s: State, id: nat, cmd: Command, notified: bool)
    requires s.loaded && cmd.Valid(s.max)
    ensures Sends(Execute(s, id, cmd, notified).log) == Sends(s.log) + [(id, cmd.address, cmd.kind)]
  {
    ExecuteSends(s, id, cmd, notified);
    var u: seq<Event> :| |u| <= 1 && (forall e: Event :: e in u ==> e.Updated?) &&
                         Execute(s, id, cmd, notified).log == Reported(s.log + u, id, cmd, notified);
    SendsExecuted(s.log, u, id, cmd, notified);
  }

  /** One turn on a SET sends the planned sub-command, if there is one, and nothing else. */
  lemma SetTurnSends(s: State, older: seq<Entry>, e: Entry)
    requires WellFormed(s) && s.loaded && s.queue == older + [e] && e.cmd.kind == Set
    ensures var p := NextStep(s.max, ValueAt(s.values, e.cmd.address.ToText()), e.cmd.value);
            Sends(Turn(s).log) == Sends(s.log) + (if p.next.Some? then [(e.id, e.cmd.address, p.next.value.0)] else [])
  {
    var key := e.cmd.address.ToText();
    var p := NextStep(s.max, ValueAt(s.values, key), e.cmd.value);
    var planned := PlanSet(s, key, p.steps);
    assert e in s.queue && s.queue[|s.queue| - 1] == e;
    PlanProgress(s.max, ValueAt(s.values, key), e.cmd.value);
    SendsAppend(s.log, Completed(e.id, e.cmd));
    assert s.log + [] == s.log;
    assert Sends(planned.log) == Sends(s.log);
    if p.next.Some? {
      CommandSends(planned, e.id, Command(e.cmd.address, p.next.value.0, p.next.value.1), true);
    }
  }

  /** The frames of a plan: its first command, then those of the shorter plan. */
  lemma TaggedPlan(id: nat, a: Address, max: int, v: int, target: int)
    requires 1 <= max && InRange(max, v) && InRange(max, target)
    ensures var p := NextStep(max, v, target);
            && InRange(max, After(max, v, target))
            && 0 <= p.steps && (p.next.Some? <==> p.steps != 0)
            && Tagged(id, a, Planner.Sent(max, v, target)) ==
               if p.steps == 0 then []
               else [(id, a, p.next.value.0)] +
                    if p.steps == 1 then [] else Tagged(id, a, Planner.Sent(max, After(max, v, target), target))
  {
    PlanProgress(max, v, target);
    var p := NextStep(max, v, target);
    if p.steps > 1 {
      var rest := Planner.Sent(max, After(max, v, target), target);
      assert ([p.next.value.0] + rest)[1..] == rest;
    }
  }

  /** One turn of the SET at the back: it sends the first command of its plan, and is gone or
      still the oldest command with the rest of the plan. */
  lemma CarryOutOneTurn(s: State, older: seq<Entry>, e: Entry) returns (t: State)
    requires WellFormed(s) && s.loaded && s.queue == older + [e] && e.cmd.kind == Set
    ensures var v := ValueAt(s.values, e.cmd.address.ToText());
            var p := NextStep(s.max, v, e.cmd.value);
            && WellFormed(t) && t.max == s.max && t.loaded
            && InRange(s.max, v) && InRange(s.max, e.cmd.value)
            && ValueAt(t.values, e.cmd.address.ToText()) == After(s.max, v, e.cmd.value)
            && Sends(t.log) == Sends(s.log) + (if p.next.Some? then [(e.id, e.cmd.address, p.next.value.0)] else [])
            && (if p.steps <= 1 then t.queue == older && CarriedOut(s) == t
                else t.queue == older + [e.(notified := true)] && CarriedOut(s) == CarriedOut(t) &&
                     RemainingSteps(t) < RemainingSteps(s))
  {
    assert e in s.queue;
    SetTurnShape(s, older, e);
    SetTurn(s, older, e);
    TurnKeepsLoaded(s);
    SetTurnSends(s, older, e);
    t := Turn(s);
  }

  /** What a SET sends before it is gone: its plan. */
  ghost predicate SendsPlan(s: State, end: State, older: seq<Entry>, e: Entry) {
    var v := ValueAt(s.values, e.cmd.address.ToText());
    && 1 <= s.max && InRange(s.max, v) && InRange(s.max, e.cmd.value)
    && end.queue == older
    && Sends(end.log) == Sends(s.log) + Tagged(e.id, e.cmd.address, Planner.Sent(s.max, v, e.cmd.value))
  }

  lemma FirstThenRest<T>(before: seq<T>, first: seq<T>, rest: seq<T>, middle: seq<T>, all: seq<T>, end: seq<T>)
    requires middle == before + first && end == middle + rest && all == first + rest
    ensures end == before + all
  {
  }

  lemma PlanGoesOn(s: State, t: State, end: State, older: seq<Entry>, e: Entry)
    requires 1 <= s.max == t.max && InRange(s.max, ValueAt(s.values, e.cmd.address.ToText()))
    requires InRange(s.max, e.cmd.value)
    requires var v := ValueAt(s.values, e.cmd.address.ToText());
             var p := NextStep(s.max, v, e.cmd.value);
             && ValueAt(t.values, e.cmd.address.ToText()) == After(s.max, v, e.cmd.value)
             && Sends(t.log) == Sends(s.log) + (if p.next.Some? then [(e.id, e.cmd.address, p.next.value.0)] else [])
             && (if p.steps <= 1 then end == t && t.queue == older else SendsPlan(t, end, older, e.(notified := true)))
    ensures SendsPlan(s, end, older, e)
  {
    var a, v, target := e.cmd.address, ValueAt(s.values, e.cmd.address.ToText()), e.cmd.value;
    var p := NextStep(s.max, v, target);
    TaggedPlan(e.id, a, s.max, v, target);
    var first := if p.next.Some? then [(e.id, a, p.next.value.0)] else [];
    var rest := if p.steps <= 1 then [] else Tagged(e.id, a, Planner.Sent(s.max, After(s.max, v, target), target));
    FirstThenRest(Sends(s.log), first, rest, Sends(t.log), Tagged(e.id, a, Planner.Sent(s.max, v, target)), Sends(end.log));
  }

  /** A SET at the back of the queue sends exactly its plan, for its own unit and under its
      own identity, whatever is queued behind it. */
  lemma {:induction false} SetSendsItsPlan(s: State, older: seq<Entry>, e: Entry)
    requires WellFormed(s) && s.loaded && s.queue == older + [e] && e.cmd.kind == Set
    ensures SendsPlan(s, CarriedOut(s), older, e)
    decreases RemainingSteps(s)
  {
    var t := CarryOutOneTurn(s, older, e);
    if NextStep(s.max, ValueAt(s.values, e.cmd.address.ToText()), e.cmd.value).steps > 1 {
      SetSendsItsPlan(t, older, e.(notified := true));
    }
    PlanGoesOn(s, t, CarriedOut(s), older, e);
  }

  /** A SET to off is carried out in one turn whatever its unit shows, off included: reported if
      it was not before, shown as off, and one OFF is sent. */
  lemma SetOffIsSent(s: State, older: seq<Entry>, e: Entry)
    requires WellFormed(s) && s.loaded && s.queue == older + [e]
    requires e.cmd.kind == Set && e.cmd.value == -1
    ensures Turn(s).queue == older
    ensures Turn(s).values == s.values[e.cmd.address.ToText() := -1]
    ensures Turn(s).log ==
            s.log + (if e.notified then [] else [Completed(e.id, e.cmd)]) +
            [Updated(e.cmd.address.ToText(), -1), Sent(e.id, Command(e.cmd.address, Off, -1))]
  {
    var key := e.cmd.address.ToText();
    assert e in s.queue && s.queue[..|s.queue| - 1] == older;
    assert NextStep(s.max, ValueAt(s.values, key), -1) == Plan(1, Some((Off, -1)));
    OffExecuted(PlanSet(s, key, 1), e.id, e.cmd.address);
    assert Touch(s, key).values[key := -1] == s.values[key := -1];
  }

  lemma OffExecuted(s: State, id: nat, a: Address)
    requires s.loaded && a.Valid()
    ensures var t := Execute(s, id, Command(a, Off, -1), true);
            && t.values == Touch(s, a.ToText()).values[a.ToText() := -1]
            && t.log == s.log + [Updated(a.ToText(), -1), Sent(id, Command(a, Off, -1))]
  {
    var t := Execute(s, id, Command(a, Off, -1), true);
    assert t.log == (s.log + [Updated(a.ToText(), -1)]) + [] + [Sent(id, Command(a, Off, -1))];
  }

  /** All that a turn on a command other than SET makes visible: the new value of the four simple
      commands, whether it differs or not; then, with a controller, the report and the frame. */
  lemma PlainTurnLogs(s: State, older: seq<Entry>, e: Entry)
    requires WellFormed(s) && s.queue == older + [e] && e.cmd.kind != Set
    ensures var key := e.cmd.address.ToText();
            Turn(s).log ==
            s.log +
            (if e.cmd.kind in [On, Off, Dim, Bright]
             then [Updated(key, Apply(s.max, ValueAt(s.values, key), e.cmd.kind, e.cmd.value))] else []) +
            (if !s.loaded then []
             else (if e.notified then [] else [Completed(e.id, e.cmd)]) + [Sent(e.id, e.cmd)])
  {
    assert e in s.queue && s.queue[..|s.queue| - 1] == older;
    ExecuteLogs(s.(queue := older), e.id, e.cmd, e.notified);
  }

  lemma ExecuteLogs(s: State, id: nat, cmd: Command, notified: bool)
    requires cmd.address.Valid()
    ensures var key := cmd.address.ToText();
            Execute(s, id, cmd, notified).log ==
            s.log +
            (if cmd.kind in [Set, On, Off, Dim, Bright]
             then [Updated(key, Apply(s.max, ValueAt(s.values, key), cmd.kind, cmd.value))] else []) +
            (if !s.loaded then [] else (if notified then [] else [Completed(id, cmd)]) + [Sent(id, cmd)])
  {
    var key := cmd.address.ToText();
    assert Touch(s, key).values[key] == ValueAt(s.values, key);
    var u := if cmd.kind.ChangesValue()
    then [Updated(key, Apply(s.max, ValueAt(s.values, key), cmd.kind, cmd.value))] else [];
    assert s.log + [] == s.log;
    assert (s.log + u) + [] == s.log + u;
    if s.loaded {
      var c := if notified then [] else [Completed(id, cmd)];
      assert (s.log + u) + (c + [Sent(id, cmd)]) == ((s.log + u) + c) + [Sent(id, cmd)];
    }
  }

  // ---------------------------------------------------------------- the frames of a queue

  /** What a queue can be planned from. */
  ghost predicate Plannable(max: int, values: map<string, int>, queue: seq<Entry>) {
    1 <= max && AllInRange(max, values) && forall e :: e in queue ==> e.cmd.Valid(max)
  }

  /** The frames of one command: the plan of a SET, or the command itself. */
  ghost function EntrySends(max: int, values: map<string, int>, e: Entry): seq<(nat, Address, Kind)>
    requires Plannable(max, values, [e])
  {
    assert e in [e];
    ValueInRange(max, values, e.cmd.address.ToText());
    if e.cmd.kind == Set
    then Tagged(e.id, e.cmd.address, Planner.Sent(max, ValueAt(values, e.cmd.address.ToText()), e.cmd.value))
    else [(e.id, e.cmd.address, e.cmd.kind)]
  }

  lemma OldestIsPlannable(max: int, values: map<string, int>, older: seq<Entry>, e: Entry)
    requires Plannable(max, values, older + [e])
    ensures Plannable(max, values, [e]) && Plannable(max, Atomic(max, values, e.cmd), older)
  {
    assert e in older + [e] && forall x :: x in older ==> x in older + [e];
    ValueInRange(max, values, e.cmd.address.ToText());
    ApplyInRange(max, ValueAt(values, e.cmd.address.ToText()), e.cmd);
  }

  /** The frames of a queue, oldest command first, each planned from the values that the older
      commands leave. */
  ghost function QueueSends(max: int, values: map<string, int>, queue: seq<Entry>): seq<(nat, Address, Kind)>
    requires Plannable(max, values, queue)
    decreases |queue|
  {
    if queue == [] then []
    else
      var older, e := queue[..|queue| - 1], queue[|queue| - 1];
      assert queue == older + [e];
      OldestIsPlannable(max, values, older, e);
      EntrySends(max, values, e) + QueueSends(max, Atomic(max, values, e.cmd), older)
  }

  lemma QueueSendsOldest(max: int, values: map<string, int>, older: seq<Entry>, e: Entry)
    requires Plannable(max, values, older + [e])
    ensures Plannable(max, values, [e]) && Plannable(max, Atomic(max, values, e.cmd), older)
    ensures QueueSends(max, values, older + [e]) ==
            EntrySends(max, values, e) + QueueSends(max, Atomic(max, values, e.cmd), older)
  {
    OldestIsPlannable(max, values, older, e);
    var queue := older + [e];
    assert queue[..|queue| - 1] == older && queue[|queue| - 1] == e;
  }

  lemma WellFormedIsPlannable(s: State)
    requires WellFormed(s)
    ensures Plannable(s.max, s.values, s.queue)
  {
  }

  /** What was sent and what is still planned. */
  ghost function SentAndPlanned(s: State): seq<(nat, Address, Kind)>
    requires WellFormed(s)
  {
    WellFormedIsPlannable(s);
    Sends(s.log) + QueueSends(s.max, s.values, s.queue)
  }

  /** The oldest command is no SET: one frame is sent. */
  lemma PlainTurn(s: State, older: seq<Entry>, e: Entry) returns (t: State)
    requires WellFormed(s) && s.loaded && s.queue == older + [e] && e.cmd.kind != Set
    ensures t == Turn(s) && WellFormed(t) && t.max == s.max
    ensures t.queue == older && t.values == Atomic(s.max, s.values, e.cmd)
    ensures Sends(t.log) == Sends(s.log) + [(e.id, e.cmd.address, e.cmd.kind)]
  {
    t := Turn(s);
    assert e in s.queue && s.queue[..|s.queue| - 1] == older;
    TurnKeepsResult(s);
    ExecuteIsAtomic(s.(queue := older), e.id, e.cmd, e.notified);
    CommandSends(s.(queue := older), e.id, e.cmd, e.notified);
  }

  /** The oldest command is a SET: the first frame of its plan is sent. */
  lemma PlannedTurn(s: State, older: seq<Entry>, e: Entry) returns (t: State)
    requires WellFormed(s) && s.loaded && s.queue == older + [e] && e.cmd.kind == Set
    ensures t == Turn(s) && WellFormed(t) && t.max == s.max
    ensures var v := ValueAt(s.values, e.cmd.address.ToText());
            var p := NextStep(s.max, v, e.cmd.value);
            && t.values == s.values[e.cmd.address.ToText() := After(s.max, v, e.cmd.value)]
            && t.queue == (if p.steps <= 1 then older else older + [e.(notified := true)])
            && Sends(t.log) == Sends(s.log) + (if p.next.Some? then [(e.id, e.cmd.address, p.next.value.0)] else [])
  {
    t := Turn(s);
    SetTurnShape(s, older, e);
    SetTurnSends(s, older, e);
    TurnKeepsResult(s);
  }

  /** The frame of a planned command, and those of the plan it leaves. */
  lemma EntryPlanned(max: int, values: map<string, int>, after: map<string, int>, e: Entry)
    requires Plannable(max, values, [e]) && Plannable(max, after, [e]) && e.cmd.kind == Set
    requires var v := ValueAt(values, e.cmd.address.ToText());
             after == values[e.cmd.address.ToText() := After(max, v, e.cmd.value)]
    ensures var p := NextStep(max, ValueAt(values, e.cmd.address.ToText()), e.cmd.value);
            && (if p.steps <= 1 then after == Atomic(max, values, e.cmd)
                else Atomic(max, after, e.cmd) == Atomic(max, values, e.cmd))
            && EntrySends(max, values, e) ==
               (if p.next.Some? then [(e.id, e.cmd.address, p.next.value.0)] else []) +
               if p.steps <= 1 then [] else EntrySends(max, after, e)
  {
    var key := e.cmd.address.ToText();
    assert e in [e];
    ValueInRange(max, values, key);
    PlanProgress(max, ValueAt(values, key), e.cmd.value);
    TaggedPlan(e.id, e.cmd.address, max, ValueAt(values, key), e.cmd.value);
    assert after[key := e.cmd.value] == values[key := e.cmd.value];
  }

  lemma MarkedSendsTheSame(max: int, values: map<string, int>, e: Entry)
    requires Plannable(max, values, [e])
    ensures Plannable(max, values, [e.(notified := true)])
    ensures EntrySends(max, values, e.(notified := true)) == EntrySends(max, values, e)
  {
    assert e in [e];
  }

  lemma OldestFirst(s: State, older: seq<Entry>, e: Entry)
    requires WellFormed(s) && s.queue == older + [e]
    ensures Plannable(s.max, s.values, [e]) && Plannable(s.max, Atomic(s.max, s.values, e.cmd), older)
    ensures SentAndPlanned(s) ==
            Sends(s.log) + (EntrySends(s.max, s.values, e) + QueueSends(s.max, Atomic(s.max, s.values, e.cmd), older))
  {
    WellFormedIsPlannable(s);
    QueueSendsOldest(s.max, s.values, older, e);
  }

  lemma Moved<T>(sent: seq<T>, first: seq<T>, mine: seq<T>, rest: seq<T>)
    ensures (sent + first) + (mine + rest) == sent + ((first + mine) + rest)
    ensures (sent + first) + rest == sent + (first + rest)
  {
  }

  /** The oldest command has sent all its frames and is gone. */
  lemma GoneConserves(s: State, t: State, older: seq<Entry>, e: Entry)
    requires WellFormed(s) && WellFormed(t) && t.max == s.max && s.queue == older + [e] && t.queue == older
    requires Plannable(s.max, s.values, [e]) && t.values == Atomic(s.max, s.values, e.cmd)
    requires Sends(t.log) == Sends(s.log) + EntrySends(s.max, s.values, e)
    ensures SentAndPlanned(t) == SentAndPlanned(s)
  {
    OldestFirst(s, older, e);
    Moved(Sends(s.log), EntrySends(s.max, s.values, e), [], QueueSends(s.max, t.values, older));
  }

  /** The oldest command has sent its first frame and stays. */
  lemma StayConserves(s: State, t: State, older: seq<Entry>, e: Entry, f: Entry, first: seq<(nat, Address, Kind)>)
    requires WellFormed(s) && WellFormed(t) && t.max == s.max && s.queue == older + [e] && t.queue == older + [f]
    requires Plannable(s.max, s.values, [e]) && Plannable(s.max, t.values, [f])
    requires Atomic(s.max, t.values, f.cmd) == Atomic(s.max, s.values, e.cmd)
    requires Sends(t.log) == Sends(s.log) + first
    requires EntrySends(s.max, s.values, e) == first + EntrySends(s.max, t.values, f)
    ensures SentAndPlanned(t) == SentAndPlanned(s)
  {
    OldestFirst(s, older, e);
    OldestFirst(t, older, f);
    Moved(Sends(s.log), first, EntrySends(s.max, t.values, f), QueueSends(s.max, Atomic(s.max, s.values, e.cmd), older));
  }

  lemma SetConserves(s: State, t: State, older: seq<Entry>, e: Entry)
    requires WellFormed(s) && WellFormed(t) && t.max == s.max && s.queue == older + [e] && e.cmd.kind == Set
    requires var v := ValueAt(s.values, e.cmd.address.ToText());
             var p := NextStep(s.max, v, e.cmd.value);
             && t.values == s.values[e.cmd.address.ToText() := After(s.max, v, e.cmd.value)]
             && t.queue == (if p.steps <= 1 then older else older + [e.(notified := true)])
             && Sends(t.log) == Sends(s.log) + (if p.next.Some? then [(e.id, e.cmd.address, p.next.value.0)] else [])
    ensures SentAndPlanned(t) == SentAndPlanned(s)
  {
    var p := NextStep(s.max, ValueAt(s.values, e.cmd.address.ToText()), e.cmd.value);
    var first := if p.next.Some? then [(e.id, e.cmd.address, p.next.value.0)] else [];
    assert e in s.queue;
    WellFormedIsPlannable(s);
    WellFormedIsPlannable(t);
    assert Plannable(s.max, s.values, [e]) && Plannable(s.max, t.values, [e]);
    EntryPlanned(s.max, s.values, t.values, e);
    if p.steps <= 1 {
      assert first + [] == first;
      GoneConserves(s, t, older, e);
    } else {
      MarkedSendsTheSame(s.max, t.values, e);
      StayConserves(s, t, older, e, e.(notified := true), first);
    }
  }

  lemma EntryIsOneFrame(s: State, e: Entry)
    requires WellFormed(s) && e in s.queue && e.cmd.kind != Set
    ensures Plannable(s.max, s.values, [e])
    ensures EntrySends(s.max, s.values, e) == [(e.id, e.cmd.address, e.cmd.kind)]
  {
  }

  /** Conservation: a worker turn keeps what was sent and what is planned together. */
  lemma TurnConserves(s: State)
    requires WellFormed(s) && s.loaded
    ensures WellFormed(Turn(s)) && SentAndPlanned(Turn(s)) == SentAndPlanned(s)
  {
    if s.queue != [] {
      var older, e := s.queue[..|s.queue| - 1], s.queue[|s.queue| - 1];
      assert s.queue == older + [e];
      if e.cmd.kind == Set {
        var t := PlannedTurn(s, older, e);
        SetConserves(s, t, older, e);
      } else {
        var t := PlainTurn(s, older, e);
        EntryIsOneFrame(s, e);
        GoneConserves(s, t, older, e);
      }
    }
  }

  /** Draining sends exactly the frames of the queue, in order. */
  lemma {:induction false} DrainSendsQueue(s: State)
    requires WellFormed(s) && s.loaded
    ensures Plannable(s.max, s.values, s.queue)
    ensures Sends(DrainAll(s).log) == Sends(s.log) + QueueSends(s.max, s.values, s.queue)
    decreases |s.queue|, RemainingSteps(s)
  {
    WellFormedIsPlannable(s);
    if s.queue != [] {
      TurnProgresses(s);
      TurnConserves(s);
      DrainSendsQueue(Turn(s));
    }
  }
}
