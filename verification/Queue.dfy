/**
  * The state of the queue manager and its atomic steps, as functions: a command is
  * queued, the worker takes one turn, a remote control is received, a value is asked.
  * The newest command is at index 0, the oldest at the back.
  */
module Queue {
  import opened Text
  import opened Commands
  import opened Planner

  /** A queued command; `id` is the identity of the queued object. */
  datatype Entry = Entry(id: nat, cmd: Command, notified: bool)

  /** What the manager makes visible: a new value, a notification, a frame to the controller, a
      frame from a remote control. */
  datatype Event =
    | Updated(key: string, value: int)
    | Completed(id: nat, cmd: Command)
    | Sent(id: nat, cmd: Command)
    | Received(address: Address, kind: Kind)

  /** `nodes` lists the keys of `values` in map order. */
  datatype State = State(
    max: int,
    values: map<string, int>,
    nodes: seq<string>,
    queue: seq<Entry>,
    nextId: nat,
    log: seq<Event>,
    smart: bool,
    loaded: bool)

  /** The manager as it is constructed. */
  function Fresh(max: int, smart: bool): State { State(max, map[], [], [], 0, [], smart, false) }

  ghost predicate WellFormed(s: State) {
    && 1 <= s.max
    && (forall k :: k in s.values ==> InRange(s.max, s.values[k]))
    && (forall e :: e in s.queue ==> e.cmd.Valid(s.max))
  }

  function ValueAt(values: map<string, int>, key: string): int {
    if key in values then values[key] else -1
  }

  // ---------------------------------------------------------------- the known units

  function InsertKey(nodes: seq<string>, key: string): seq<string> {
    if nodes == [] || Before(key, nodes[0]) then [key] + nodes
    else [nodes[0]] + InsertKey(nodes[1..], key)
  }

  /** A unit first heard of is off (CheckContainerExist). */
  function Touch(s: State, key: string): State {
    if key in s.values then s
    else s.(values := s.values[key := -1], nodes := InsertKey(s.nodes, key))
  }

  // ---------------------------------------------------------------- queueing

  /** The queue without the commands of one unit. */
  function Without(queue: seq<Entry>, a: Address): (r: seq<Entry>)
    ensures forall e {:trigger e in r} :: e in r <==> e in queue && e.cmd.address != a
  {
    if queue == [] then []
    else (if queue[0].cmd.address == a then [] else [queue[0]]) + Without(queue[1..], a)
  }

  lemma WithoutOne(e: Entry, older: seq<Entry>, a: Address)
    ensures Without([e] + older, a) == (if e.cmd.address == a then [] else [e]) + Without(older, a)
  {
    assert ([e] + older)[1..] == older;
  }

  lemma Regroup<T>(p: seq<T>, q: seq<T>, r: seq<T>)
    ensures p + (q + r) == (p + q) + r
  {
  }

  lemma {:induction false} WithoutConcat(newer: seq<Entry>, older: seq<Entry>, a: Address)
    ensures Without(newer + older, a) == Without(newer, a) + Without(older, a)
  {
    if newer == [] {
      assert newer + older == older;
    } else {
      var e, rest := newer[0], newer[1..];
      WithoutConcat(rest, older, a);
      WithoutOne(e, rest, a);
      WithoutOne(e, rest + older, a);
      Regroup([e], rest, older);
      Regroup(if e.cmd.address == a then [] else [e], Without(rest, a), Without(older, a));
      assert newer == [e] + rest;
    }
  }

  /** Erasing in place keeps order and multiplicity: wherever a command stands, it alone goes if
      it is for the unit and stays in its place if not. */
  lemma WithoutKeepsOrder(newer: seq<Entry>, e: Entry, older: seq<Entry>, a: Address)
    ensures Without(newer + ([e] + older), a) ==
            Without(newer, a) + ((if e.cmd.address == a then [] else [e]) + Without(older, a))
  {
    WithoutConcat(newer, [e] + older, a);
    WithoutOne(e, older, a);
  }

  /** The newest command for the same unit with another kind, or the length of the queue. */
  function FindOther(queue: seq<Entry>, cmd: Command): (i: nat)
    ensures i <= |queue|
    ensures i < |queue| ==> Clashes(queue[i], cmd)
    ensures forall j :: 0 <= j < i ==> !Clashes(queue[j], cmd)
  {
    if queue == [] || Clashes(queue[0], cmd) then 0 else 1 + FindOther(queue[1..], cmd)
  }

  predicate Clashes(e: Entry, cmd: Command) {
    e.cmd.address == cmd.address && e.cmd.kind != cmd.kind
  }

  /** The smart queue drops an incoming step together with the command it meets. */
  predicate Cancels(s: State, cmd: Command) {
    s.smart && cmd.kind.IsStep() && FindOther(s.queue, cmd) < |s.queue|
  }

  /** Queueing a command for one unit (QueueCommand). */
  function Enqueue(s: State, cmd: Command): State {
    if Cancels(s, cmd) then
      var i := FindOther(s.queue, cmd);
      s.(queue := s.queue[..i] + s.queue[i + 1..])
    else
      var kept := if s.smart && cmd.kind.Erases() then Without(s.queue, cmd.address)
                  else s.queue;
      s.(queue := [Entry(s.nextId, cmd, false)] + kept, nextId := s.nextId + 1)
  }

  // ---------------------------------------------------------------- the worker

  /** The house and unit codes exist (new_x10_ha_command); the letter may be of either case. */
  predicate Addressable(a: Address) {
    ('A' <= a.channel <= 'P' || 'a' <= a.channel <= 'p') && 1 <= a.unit <= 16
  }

  function SetValue(s: State, key: string, value: int): State {
    s.(values := s.values[key := value], log := s.log + [Updated(key, value)])
  }

  /** Executing one command: the value, the notification, the frame, in that order. */
  function Execute(s: State, id: nat, cmd: Command, notified: bool): (t: State)
    ensures t.queue == s.queue && t.nextId == s.nextId
    ensures t.max == s.max && t.smart == s.smart && t.loaded == s.loaded
  {
    if !Addressable(cmd.address) then s
    else
      var key := cmd.address.ToText();
      var s1 := Touch(s, key);
      var s2 := if cmd.kind.ChangesValue()
                then SetValue(s1, key, Apply(s.max, s1.values[key], cmd.kind, cmd.value))
                else s1;
      if !s.loaded then s2
      else s2.(log := s2.log + (if notified then [] else [Completed(id, cmd)]) + [Sent(id, cmd)])
  }

  /** The oldest command, a SET with `steps` planned: it leaves the queue when at most one is
      left, and is reported once, when the first is planned. */
  function PlanSet(s: State, key: string, steps: int): State
    requires s.queue != []
  {
    var older, e := s.queue[..|s.queue| - 1], s.queue[|s.queue| - 1];
    Touch(s, key).(
    queue := if steps <= 1 then older else older + [e.(notified := true)],
    log := s.log + (if steps != 0 && !e.notified then [Completed(e.id, e.cmd)] else []))
  }

  /** One turn of the worker on the oldest command. */
  function Turn(s: State): (t: State)
    ensures t.max == s.max && t.smart == s.smart && t.loaded == s.loaded && t.nextId == s.nextId
  {
    if s.queue == [] then s
    else
      var older, e := s.queue[..|s.queue| - 1], s.queue[|s.queue| - 1];
      if e.cmd.kind != Set then Execute(s.(queue := older), e.id, e.cmd, e.notified)
      else
        var key := e.cmd.address.ToText();
        var p := NextStep(s.max, ValueAt(s.values, key), e.cmd.value);
        var planned := PlanSet(s, key, p.steps);
        match p.next
        case None => planned
        case Some(k) => Execute(planned, e.id, Command(e.cmd.address, k.0, k.1), true)
  }

  // ---------------------------------------------------------------- remote controls and queries

  /** The new value a received command gives, if it changes it (SetOn, PushDirection). */
  function RemoteChange(max: int, v: int, kind: Kind): Option<int> {
    match kind
    case On => if v == -1 then Some(max) else None
    case Off => Some(-1)
    case Bright => if v == -1 then Some(max) else if v != max then Some(v + 1) else None
    case Dim => if v == -1 then Some(max - 1) else if v != 0 then Some(v - 1) else None
    case _ => None
  }

  /** The switch over a received command. */
  function Heard(s: State, key: string, kind: Kind): State
    requires key in s.values
  {
    match RemoteChange(s.max, s.values[key], kind)
    case None => s
    case Some(v) => SetValue(s, key, v)
  }

  /** A remote control is read only while nothing waits to be sent; its command is announced. */
  function Receive(s: State, a: Address, kind: Kind): State {
    if s.queue != [] then s
    else
      var heard := Heard(Touch(s, a.ToText()), a.ToText(), kind);
      heard.(log := heard.log + [Received(a, kind)])
  }

  /** Asking a value makes the source known (GetValue). */
  function Query(s: State, source: string): State {
    if IsValidAddress(source) then Touch(s, source) else s
  }

  // ---------------------------------------------------------------- atomic meaning

  /** One command carried out at once, SET being a plain assignment. */
  function Atomic(max: int, values: map<string, int>, cmd: Command): map<string, int> {
    var key := cmd.address.ToText();
    values[key := Apply(max, ValueAt(values, key), cmd.kind, cmd.value)]
  }

  /** The values once the queue is carried out atomically, oldest command first. */
  function Drained(max: int, values: map<string, int>, queue: seq<Entry>): map<string, int> {
    if queue == [] then values
    else Atomic(max, Drained(max, values, queue[1..]), queue[0].cmd)
  }

  function Result(s: State): map<string, int> { Drained(s.max, s.values, s.queue) }

  lemma {:induction false} DrainedOldest(max: int, values: map<string, int>, q: seq<Entry>, e: Entry)
    ensures Drained(max, values, q + [e]) == Drained(max, Atomic(max, values, e.cmd), q)
  {
    if q != [] {
      assert (q + [e])[1..] == q[1..] + [e];
      DrainedOldest(max, values, q[1..], e);
    }
  }

  /** A value the remote control sets is the value the worker would give. */
  lemma RemoteAgreesWithWorker(max: int, v: int, kind: Kind)
    requires 1 <= max && InRange(max, v) && kind != Set
    ensures Apply(max, v, kind, 0) ==
            match RemoteChange(max, v, kind) case None => v case Some(w) => w
  {
  }

  /** A received command is signalled exactly if it changes the value, or is an OFF. */
  lemma RemoteSignals(max: int, v: int, kind: Kind)
    requires 1 <= max && InRange(max, v) && kind != Set
    ensures RemoteChange(max, v, kind).Some? <==> kind == Off || Apply(max, v, kind, 0) != v
  {
  }

  lemma ApplyInRange(max: int, v: int, cmd: Command)
    requires 1 <= max && InRange(max, v) && cmd.Valid(max)
    ensures InRange(max, Apply(max, v, cmd.kind, cmd.value))
  {
  }

  lemma ExecuteIsAtomic(s: State, id: nat, cmd: Command, notified: bool)
    requires WellFormed(s) && cmd.Valid(s.max)
    ensures Execute(s, id, cmd, notified).values == Atomic(s.max, s.values, cmd)
    ensures WellFormed(Execute(s, id, cmd, notified))
  {
    var key := cmd.address.ToText();
    ApplyInRange(s.max, ValueAt(s.values, key), cmd);
    assert Touch(s, key).values[key] == ValueAt(s.values, key);
  }

  /**
    * The result the queue stands for never changes while the worker works on it: a SET
    * re-planned and sent one command at a time is worth one assignment.
    */
  lemma TurnKeepsResult(s: State)
    requires WellFormed(s)
    ensures WellFormed(Turn(s))
    ensures Result(Turn(s)) == Result(s)
  {
    if s.queue != [] {
      var older, e := s.queue[..|s.queue| - 1], s.queue[|s.queue| - 1];
      assert s.queue == older + [e];
      DrainedOldest(s.max, s.values, older, e);
      if e.cmd.kind == Set {
        SetTurn(s, older, e);
      } else {
        ExecuteIsAtomic(s.(queue := older), e.id, e.cmd, e.notified);
      }
    }
  }

  /** A turn on a SET: one planned command is applied, and the SET stays while more are planned. */
  lemma SetTurnShape(s: State, older: seq<Entry>, e: Entry)
    requires WellFormed(s) && s.queue == older + [e] && e.cmd.kind == Set
    ensures var key := e.cmd.address.ToText();
            var v := ValueAt(s.values, key);
            && Turn(s).values == s.values[key := After(s.max, v, e.cmd.value)]
            && Turn(s).queue == (if NextStep(s.max, v, e.cmd.value).steps <= 1 then older
                                 else older + [e.(notified := true)])
            && Turn(s).max == s.max
  {
    assert s.queue[..|s.queue| - 1] == older && e in s.queue;
    PlanProgress(s.max, ValueAt(s.values, e.cmd.address.ToText()), e.cmd.value);
  }

  /** What is left to do after a turn on a SET keeps its meaning and gets closer to the end. */
  lemma SetTurn(s: State, older: seq<Entry>, e: Entry)
    requires WellFormed(s) && s.queue == older + [e] && e.cmd.kind == Set
    ensures WellFormed(Turn(s))
    ensures Result(Turn(s)) == Drained(s.max, Atomic(s.max, s.values, e.cmd), older)
    ensures |Turn(s).queue| < |s.queue| ||
            (|Turn(s).queue| == |s.queue| && RemainingSteps(Turn(s)) < RemainingSteps(s))
  {
    SetTurnShape(s, older, e);
    SetTurnEffect(s, older, e, e.cmd.address.ToText(), Turn(s));
  }

  lemma SetTurnEffect(s: State, older: seq<Entry>, e: Entry, key: string, t: State)
    requires WellFormed(s) && s.queue == older + [e] && e.cmd.kind == Set
    requires key == e.cmd.address.ToText() && t.max == s.max
    requires var v := ValueAt(s.values, key);
             && t.values == s.values[key := After(s.max, v, e.cmd.value)]
             && t.queue == (if NextStep(s.max, v, e.cmd.value).steps <= 1 then older
                            else older + [e.(notified := true)])
    ensures WellFormed(t)
    ensures Result(t) == Drained(s.max, Atomic(s.max, s.values, e.cmd), older)
    ensures |t.queue| < |s.queue| || (|t.queue| == |s.queue| && RemainingSteps(t) < RemainingSteps(s))
  {
    var v := ValueAt(s.values, key);
    assert e in s.queue;
    PlanProgress(s.max, v, e.cmd.value);
    assert RemainingSteps(s) == NextStep(s.max, v, e.cmd.value).steps;
    if t.queue != older {
      var f := e.(notified := true);
      assert t.queue == older + [f];
      DrainedOldest(s.max, t.values, older, f);
      assert t.values[key := e.cmd.value] == s.values[key := e.cmd.value];
      assert RemainingSteps(t) == NextStep(s.max, t.values[key], e.cmd.value).steps;
    } else {
      assert After(s.max, v, e.cmd.value) == e.cmd.value;
    }
  }

  /** The planned steps of the oldest command, when it is a SET. */
  function RemainingSteps(s: State): nat
  {
    if s.queue == [] then 0
    else
      var cmd := s.queue[|s.queue| - 1].cmd;
      var steps := NextStep(s.max, ValueAt(s.values, cmd.address.ToText()), cmd.value).steps;
      if cmd.kind == Set && steps > 0 then steps else 0
  }

  lemma TurnProgresses(s: State)
    requires WellFormed(s) && s.queue != []
    ensures |Turn(s).queue| < |s.queue| ||
            (|Turn(s).queue| == |s.queue| && RemainingSteps(Turn(s)) < RemainingSteps(s))
  {
    var older, e := s.queue[..|s.queue| - 1], s.queue[|s.queue| - 1];
    assert s.queue == older + [e];
    if e.cmd.kind == Set { SetTurn(s, older, e); }
  }

  /** Worker turns until nothing is left. */
  ghost function DrainAll(s: State): State
    requires WellFormed(s)
    decreases |s.queue|, RemainingSteps(s)
  {
    if s.queue == [] then s
    else
      TurnKeepsResult(s);
      TurnProgresses(s);
      DrainAll(Turn(s))
  }

  /** Small steps refine atomic execution: the queue empties and the values are those
      of the atomic fold over the commands, oldest first. */
  lemma {:induction false} DrainRefinesAtomic(s: State)
    requires WellFormed(s)
    ensures DrainAll(s).queue == []
    ensures DrainAll(s).values == Result(s)
    ensures WellFormed(DrainAll(s))
    decreases |s.queue|, RemainingSteps(s)
  {
    if s.queue != [] {
      TurnKeepsResult(s);
      TurnProgresses(s);
      DrainRefinesAtomic(Turn(s));
    }
  }
}
