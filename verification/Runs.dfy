/** Whole runs of the queue manager: every interleaving of clients, worker and remote control. */
module Runs {
  import opened Commands
  import opened Queue
  import opened SmartQueue

  datatype Action =
    | Submit(cmd: Command)
    | Work
    | Remote(address: Address, kind: Kind)
    | Ask(source: string)
    | Controller(loaded: bool)
    | Mode(smart: bool)

  function Take(s: State, a: Action): State {
    match a
    case Submit(cmd) => Enqueue(s, cmd)
    case Work => Turn(s)
    case Remote(address, kind) => Receive(s, address, kind)
    case Ask(source) => Query(s, source)
    case Controller(loaded) => s.(loaded := loaded)
    case Mode(smart) => s.(smart := smart)
  }

  /** A client sends validated commands; a remote control is read only when the queue is
      empty, and has no code for SET. */
  predicate Enabled(s: State, a: Action) {
    match a
    case Submit(cmd) => cmd.Valid(s.max)
    case Remote(address, kind) => s.queue == [] && address.Valid() && kind != Set
    case _ => true
  }

  function Run(s: State, actions: seq<Action>): State
    decreases |actions|
  {
    if actions == [] then s else Run(Take(s, actions[0]), actions[1..])
  }

  ghost predicate Possible(s: State, actions: seq<Action>)
    decreases |actions|
  {
    actions != [] ==> Enabled(s, actions[0]) && Possible(Take(s, actions[0]), actions[1..])
  }

  /** What an action means when every command takes effect on arrival. */
  function AtomicTake(max: int, values: map<string, int>, a: Action): map<string, int> {
    match a
    case Submit(cmd) => Atomic(max, values, cmd)
    case Remote(address, kind) => Atomic(max, values, Command(address, kind, 0))
    case _ => values
  }

  function AtomicRun(max: int, values: map<string, int>, actions: seq<Action>): map<string, int>
    decreases |actions|
  {
    if actions == [] then values
    else AtomicRun(max, AtomicTake(max, values, actions[0]), actions[1..])
  }

  /** If the action cancels a queued command, nobody can see it. */
  ghost predicate Harmless(s: State, a: Action) {
    a.Submit? && Cancels(s, a.cmd) ==> CancelsUnseen(s, a.cmd)
  }

  ghost predicate HarmlessRun(s: State, actions: seq<Action>)
    decreases |actions|
  {
    actions != [] ==> Harmless(s, actions[0]) && HarmlessRun(Take(s, actions[0]), actions[1..])
  }

  lemma EnqueueKeepsWellFormed(s: State, cmd: Command)
    requires WellFormed(s) && cmd.Valid(s.max)
    ensures WellFormed(Enqueue(s, cmd)) && Enqueue(s, cmd).max == s.max
  {
  }

  lemma TakeKeepsWellFormed(s: State, a: Action)
    requires WellFormed(s) && Enabled(s, a)
    ensures WellFormed(Take(s, a)) && Take(s, a).max == s.max
  {
    match a
    case Submit(cmd) => EnqueueKeepsWellFormed(s, cmd);
    case Work => TurnKeepsResult(s); TurnKeepsMax(s);
    case Remote(address, kind) =>
      RemoteAgreesWithWorker(s.max, ValueAt(s.values, address.ToText()), kind);
    case _ =>
  }

  lemma {:induction false} RunKeepsWellFormed(s: State, actions: seq<Action>)
    requires WellFormed(s) && Possible(s, actions)
    ensures WellFormed(Run(s, actions))
    decreases |actions|
  {
    if actions != [] {
      TakeKeepsWellFormed(s, actions[0]);
      RunKeepsWellFormed(Take(s, actions[0]), actions[1..]);
    }
  }

  lemma TurnKeepsMax(s: State)
    ensures Turn(s).max == s.max
  {
  }

  lemma AtomicRespectsValues(max: int, m: map<string, int>, n: map<string, int>, cmd: Command)
    requires SameValues(m, n)
    ensures SameValues(Atomic(max, m, cmd), Atomic(max, n, cmd))
  {
    var key := cmd.address.ToText();
    forall k
      ensures ValueAt(Atomic(max, m, cmd), k) == ValueAt(Atomic(max, n, cmd), k)
    {
      assert ValueAt(m, k) == ValueAt(n, k) && ValueAt(m, key) == ValueAt(n, key);
    }
  }

  lemma {:induction false} DrainedRespectsValues(max: int, m: map<string, int>, n: map<string, int>, q: seq<Entry>)
    requires SameValues(m, n)
    ensures SameValues(Drained(max, m, q), Drained(max, n, q))
  {
    if q != [] {
      DrainedRespectsValues(max, m, n, q[1..]);
      AtomicRespectsValues(max, Drained(max, m, q[1..]), Drained(max, n, q[1..]), q[0].cmd);
    }
  }

  /** Queueing changes the pending result as carrying the command out at once would, exactly
      when nothing is seen of a cancellation. */
  lemma EnqueueIsAtomic(s: State, cmd: Command)
    requires WellFormed(s) && cmd.Valid(s.max)
    ensures SameValues(Result(Enqueue(s, cmd)), Atomic(s.max, Result(s), cmd)) <==> Harmless(s, Submit(cmd))
  {
    if Cancels(s, cmd) {
      CancellationExact(s, cmd);
    } else {
      EnqueueResult(s, cmd);
      if s.smart && cmd.kind.Erases() {
        QueueIsConcrete(s);
        ErasedIsOverwritten(s.max, s.values, s.queue, cmd);
      }
    }
  }

  lemma ReceiveIsAtomic(s: State, address: Address, kind: Kind)
    requires WellFormed(s) && s.queue == [] && kind != Set
    ensures SameValues(Result(Receive(s, address, kind)),
                       Atomic(s.max, Result(s), Command(address, kind, 0)))
  {
    RemoteAgreesWithWorker(s.max, ValueAt(s.values, address.ToText()), kind);
  }

  lemma TakeIsAtomic(s: State, a: Action)
    requires WellFormed(s) && Enabled(s, a) && Harmless(s, a)
    ensures SameValues(Result(Take(s, a)), AtomicTake(s.max, Result(s), a))
  {
    match a
    case Submit(cmd) => EnqueueIsAtomic(s, cmd);
    case Work => TurnKeepsResult(s);
    case Remote(address, kind) => ReceiveIsAtomic(s, address, kind);
    case Ask(source) => DrainedRespectsValues(s.max, Query(s, source).values, s.values, s.queue);
    case _ =>
  }

  lemma {:induction false} AtomicRunRespectsValues(max: int, m: map<string, int>, n: map<string, int>,
                                                   actions: seq<Action>)
    requires SameValues(m, n)
    ensures SameValues(AtomicRun(max, m, actions), AtomicRun(max, n, actions))
    decreases |actions|
  {
    if actions != [] {
      match actions[0] {
        case Submit(cmd) => AtomicRespectsValues(max, m, n, cmd);
        case Remote(address, kind) => AtomicRespectsValues(max, m, n, Command(address, kind, 0));
        case _ =>
      }
      AtomicRunRespectsValues(max, AtomicTake(max, m, actions[0]), AtomicTake(max, n, actions[0]), actions[1..]);
    }
  }

  /**
    * Linearizability: over any interleaving of submissions, worker turns, receptions,
    * queries and mode changes, the values shown plus what the queue still stands for are
    * those of the commands and receptions taking effect at once, in the order of arrival,
    * provided every cancelled step was undone by the one it met.
    */
  lemma {:induction false} RunIsAtomic(s: State, actions: seq<Action>)
    requires WellFormed(s) && Possible(s, actions) && HarmlessRun(s, actions)
    ensures WellFormed(Run(s, actions))
    ensures SameValues(Result(Run(s, actions)), AtomicRun(s.max, Result(s), actions))
    ensures Run(s, actions).queue == [] ==>
              SameValues(Run(s, actions).values, AtomicRun(s.max, Result(s), actions))
    decreases |actions|
  {
    if actions != [] {
      var a, t := actions[0], Take(s, actions[0]);
      TakeKeepsWellFormed(s, a);
      TakeIsAtomic(s, a);
      RunIsAtomic(t, actions[1..]);
      var next := AtomicTake(s.max, Result(s), a);
      AtomicRunRespectsValues(s.max, Result(t), next, actions[1..]);
    }
  }

  /** With the plain queue nothing is ever cancelled, so every run is atomic. */
  lemma {:induction false} PlainRunIsHarmless(s: State, actions: seq<Action>)
    requires !s.smart && forall i :: 0 <= i < |actions| ==> !actions[i].Mode?
    ensures HarmlessRun(s, actions)
    decreases |actions|
  {
    if actions != [] {
      TakeKeepsMode(s, actions[0]);
      PlainRunIsHarmless(Take(s, actions[0]), actions[1..]);
    }
  }

  lemma TakeKeepsMode(s: State, a: Action)
    requires !a.Mode?
    ensures Take(s, a).smart == s.smart
  {
  }

  /** The queue is smart exactly as the last change of mode said. */
  lemma {:induction false} ModeStays(s: State, smart: bool, actions: seq<Action>)
    requires forall i :: 0 <= i < |actions| ==> !actions[i].Mode?
    ensures Run(Take(s, Mode(smart)), actions).smart == smart
    decreases |actions|
  {
    var t := Take(s, Mode(smart));
    if actions != [] {
      TakeKeepsMode(t, actions[0]);
      assert Take(t, actions[0]) == Take(Take(t, actions[0]), Mode(smart));
      ModeStays(Take(t, actions[0]), smart, actions[1..]);
    }
  }

  /** While the smart queue stays on, every reachable queue is in normal form. */
  lemma {:induction false} SmartRunKeepsNormal(s: State, actions: seq<Action>)
    requires s.smart && NormalQueue(s.queue)
    requires forall i :: 0 <= i < |actions| ==> !actions[i].Mode?
    ensures NormalQueue(Run(s, actions).queue)
    decreases |actions|
  {
    if actions != [] {
      var a := actions[0];
      match a {
        case Submit(cmd) => EnqueueKeepsNormal(s, cmd);
        case Work => TurnKeepsNormal(s);
        case _ =>
      }
      TakeKeepsMode(s, a);
      SmartRunKeepsNormal(Take(s, a), actions[1..]);
    }
  }

  /** From an empty smart queue: one SET or OFF at most for a unit, never DIM with BRIGHT,
      and an incoming step that cancels removes the newest command of its unit. */
  lemma SmartRunShape(s: State, actions: seq<Action>, a: Address)
    requires s.smart && s.queue == []
    requires forall i :: 0 <= i < |actions| ==> !actions[i].Mode?
    ensures Normal(Cmds(Run(s, actions).queue, a)) && OneDirection(Kinds(Cmds(Run(s, actions).queue, a)))
    ensures forall cmd: Command | cmd.kind.IsStep() && Cancels(Run(s, actions), cmd) ::
              var q := Run(s, actions).queue;
              forall j :: 0 <= j < FindOther(q, cmd) ==> q[j].cmd.address != cmd.address
  {
    SmartRunKeepsNormal(s, actions);
    var q := Run(s, actions).queue;
    assert Normal(Cmds(q, a));
    NormalMeaning(Cmds(q, a));
    forall cmd: Command | cmd.kind.IsStep() && Cancels(Run(s, actions), cmd)
      ensures forall j :: 0 <= j < FindOther(q, cmd) ==> q[j].cmd.address != cmd.address
    {
      assert Normal(Cmds(q, cmd.address));
      CancelsNewest(q, cmd);
    }
  }

  /** Every cancelled step is undone by the one it met. */
  ghost predicate UndoneRun(s: State, actions: seq<Action>)
    decreases |actions|
  {
    actions != [] ==>
      && UndoneRun(Take(s, actions[0]), actions[1..])
      && (actions[0].Submit? && Cancels(s, actions[0].cmd) ==>
            var cmd := actions[0].cmd;
            Undone(s.max, ValueBefore(s, cmd), s.queue[FindOther(s.queue, cmd)].cmd, cmd.kind))
  }

  /** On a smart queue in normal form, that is all a run needs to be atomic. */
  lemma {:induction false} SmartRunIsHarmless(s: State, actions: seq<Action>)
    requires s.smart && NormalQueue(s.queue) && UndoneRun(s, actions)
    requires forall i :: 0 <= i < |actions| ==> !actions[i].Mode?
    ensures HarmlessRun(s, actions)
    decreases |actions|
  {
    if actions != [] {
      var a := actions[0];
      if a.Submit? && Cancels(s, a.cmd) {
        assert Normal(Cmds(s.queue, a.cmd.address));
        CancelsNewest(s.queue, a.cmd);
      }
      match a {
        case Submit(cmd) => EnqueueKeepsNormal(s, cmd);
        case Work => TurnKeepsNormal(s);
        case _ =>
      }
      TakeKeepsMode(s, a);
      SmartRunIsHarmless(Take(s, a), actions[1..]);
    }
  }

  /** From the start of the service: the values are those of all commands and receptions at
      once, with the plain queue always, with the smart queue if every cancelled step is
      undone by the one it met. */
  lemma FreshRunIsAtomic(max: int, smart: bool, actions: seq<Action>)
    requires 1 <= max && Possible(Fresh(max, smart), actions)
    requires forall i :: 0 <= i < |actions| ==> !actions[i].Mode?
    requires smart ==> UndoneRun(Fresh(max, smart), actions)
    ensures SameValues(Result(Run(Fresh(max, smart), actions)), AtomicRun(max, map[], actions))
  {
    var s := Fresh(max, smart);
    if smart {
      assert forall a :: Normal(Cmds(s.queue, a));
      SmartRunIsHarmless(s, actions);
    } else {
      PlainRunIsHarmless(s, actions);
    }
    RunIsAtomic(s, actions);
  }

  /** A unit switched on by a remote control, then OFF and DIM queued before the worker turns:
      on the smart queue the OFF is lost to the DIM and the unit stays at the maximum; the plain
      queue ends one below it. */
  lemma CancellationLosesOff(max: int, smart: bool, a: Address, s: State)
    requires 1 <= max && a.Valid()
    requires s == Run(Fresh(max, smart), [Controller(true), Remote(a, On), Submit(Command(a, Off, -1)), Submit(Command(a, Dim, -1))])
    ensures Possible(Fresh(max, smart), [Controller(true), Remote(a, On), Submit(Command(a, Off, -1)), Submit(Command(a, Dim, -1))])
    ensures ValueAt(Result(s), a.ToText()) == if smart then max else max - 1
    ensures smart ==> s.queue == []
  {
    var off, dim := Command(a, Off, -1), Command(a, Dim, -1);
    var s0 := Fresh(max, smart);
    var s1 := Take(s0, Controller(true));
    var s2 := Take(s1, Remote(a, On));
    var s3 := Take(s2, Submit(off));
    FourActions(s0, Controller(true), Remote(a, On), Submit(off), Submit(dim));
    assert s2.queue == [] && ValueAt(s2.values, a.ToText()) == max;
    assert s3.queue == [Entry(0, off, false)];
    if smart {
      assert Cancels(s3, dim);
      assert s.queue == [];
    } else {
      DrainedNewest(max, s2.values, Entry(1, dim, false), [Entry(0, off, false)]);
      DrainedNewest(max, s2.values, Entry(0, off, false), []);
    }
  }

  lemma FourActions(s: State, a: Action, b: Action, c: Action, d: Action)
    ensures Run(s, [a, b, c, d]) == Take(Take(Take(Take(s, a), b), c), d)
    ensures Possible(s, [a, b, c, d]) <==>
            Enabled(s, a) && Enabled(Take(s, a), b) && Enabled(Take(Take(s, a), b), c) &&
            Enabled(Take(Take(Take(s, a), b), c), d)
  {
    assert [a, b, c, d][1..] == [b, c, d] && [b, c, d][1..] == [c, d] && [c, d][1..] == [d] && [d][1..] == [];
    assert Run(Take(s, a), [b, c, d]) == Run(Take(Take(s, a), b), [c, d]);
    assert Run(Take(Take(Take(s, a), b), c), [d]) == Run(Take(Take(Take(Take(s, a), b), c), d), []);
    assert Possible(Take(Take(Take(Take(s, a), b), c), d), []);
    assert Possible(Take(Take(s, a), b), [c, d]) <==>
           Enabled(Take(Take(s, a), b), c) && Possible(Take(Take(Take(s, a), b), c), [d]);
  }
}
