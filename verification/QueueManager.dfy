/** The queue manager and its containers as objects updated in place, tied to their steps as functions. */
module QueueManagers {
  import opened Text
  import opened Commands
  import opened Planner
  import opened Queue
  import opened Runs
  import opened KnownUnits
  import opened Broadcast
  import Rules
  import RuleTexts

  /** The value shown for one unit; `emitted` is the value signalled, if any. */
  class Container {
    const max: int
    var value: int

    constructor (max: int)
      ensures this.max == max && value == -1
    {
      this.max := max;
      value := -1;
    }

    method SetValue(v: int) returns (emitted: Option<int>)
      modifies this
      ensures value == v && emitted == Some(v)
    {
      value := v;
      emitted := Some(v);
    }

    method SetOn(on: bool) returns (emitted: Option<int>)
      modifies this
      ensures emitted == RemoteChange(max, old(value), if on then On else Off)
      ensures value == match emitted case Some(v) => v case None => old(value)
    {
      emitted := None;
      if !on {
        emitted := SetValue(-1);
      } else if value == -1 {
        emitted := SetValue(max);
      }
    }

    method PushDirection(up: bool) returns (emitted: Option<int>)
      modifies this
      ensures emitted == RemoteChange(max, old(value), if up then Bright else Dim)
      ensures value == match emitted case Some(v) => v case None => old(value)
    {
      emitted := None;
      if value == -1 {
        emitted := SetValue(max - (if up then 0 else 1));
      } else if up && value != max {
        emitted := SetValue(value + 1);
      } else if !up && value != 0 {
        emitted := SetValue(value - 1);
      }
    }

    /** The command of a remote control. */
    method Receive(kind: Kind) returns (emitted: Option<int>)
      modifies this
      ensures emitted == RemoteChange(max, old(value), kind)
      ensures value == match emitted case Some(v) => v case None => old(value)
    {
      emitted := None;
      match kind {
        case On => emitted := SetOn(true);
        case Off => emitted := SetOn(false);
        case Bright => emitted := PushDirection(true);
        case Dim => emitted := PushDirection(false);
        case _ =>
      }
    }
  }

  class QueueManager {
    const max: int
    var containers: map<string, Container>
    var nodes: seq<string>  // the order in which the containers are enumerated
    var queue: seq<Entry>
    var nextId: nat
    var smart: bool
    var loaded: bool
    ghost var log: seq<Event>

    ghost function Objects(): set<Container>
      reads this
    {
      set k | k in containers :: containers[k]
    }

    ghost function Values(): map<string, int>
      reads this, Objects()
    {
      map k | k in containers :: containers[k].value
    }

    /** The state the objects represent. */
    ghost function View(): State
      reads this, Objects()
    {
      State(max, Values(), nodes, queue, nextId, log, smart, loaded)
    }

    ghost predicate Separate()
      reads this, Objects()
    {
      && (forall k :: k in containers ==> containers[k].max == max)
      && (forall j, k :: j in containers && k in containers && j != k ==> containers[j] != containers[k])
    }

    ghost predicate Valid()
      reads this, Objects()
    {
      Separate() && WellFormed(View()) && Listed(View())
    }

    constructor (max: int, smart: bool)
      requires 1 <= max
      ensures Valid() && fresh(Objects())
      ensures View() == Fresh(max, smart)
    {
      this.max := max;
      containers, nodes, queue, nextId := map[], [], [], 0;
      this.smart, loaded, log := smart, false, [];
    }

    method CheckContainerExist(address: string)
      requires Separate()
      modifies this`containers, this`nodes
      ensures Separate() && fresh(Objects() - old(Objects()))
      ensures View() == Touch(old(View()), address)
      ensures address in containers
    {
      if address !in containers {
        var c := new Container(max);
        containers := containers[address := c];
        nodes := InsertKey(nodes, address);
        assert Values() == old(Values())[address := -1];
      }
    }

    method Emit(ghost events: seq<Event>)
      requires Separate()
      modifies this`log
      ensures Separate() && View() == old(View()).(log := old(log) + events)
    {
      log := log + events;
    }

    method SetQueue(commands: seq<Entry>)
      requires Separate()
      modifies this`queue
      ensures Separate() && View() == old(View()).(queue := commands)
    {
      queue := commands;
    }

    /** A new value of a container reaches the clients. */
    method Update(address: string, v: int)
      requires Separate() && address in containers
      modifies this`log, containers[address]
      ensures Separate() && View() == SetValue(old(View()), address, v)
    {
      var emitted := containers[address].SetValue(v);
      log := log + [Updated(address, v)];
      assert Values() == old(Values())[address := v];
    }

    /** The next command on the way to the target of a SET. */
    method GetNextCommand(setCommand: Command) returns (nbSteps: int, output: Option<Command>)
      requires Separate() && setCommand.kind == Set
      modifies this`containers, this`nodes
      ensures Separate() && fresh(Objects() - old(Objects()))
      ensures var key := setCommand.address.ToText();
              var p := NextStep(max, ValueAt(old(Values()), key), setCommand.value);
              && View() == Touch(old(View()), key)
              && nbSteps == p.steps
              && output == match p.next
                           case None => None
                           case Some(k) => Some(Command(setCommand.address, k.0, k.1))
    {
      var address := setCommand.address.ToText();
      CheckContainerExist(address);
      var curValue := containers[address].value;
      assert curValue == ValueAt(old(Values()), address) by {
        assert View().values[address] == curValue;
      }
      var target := setCommand.value;
      output := None;
      if target == -1 {
        return 1, Some(Command(setCommand.address, Off, -1));
      }
      if curValue == target {
        return 0, None;
      }
      if curValue == -1 {
        if target == max {
          return 1, Some(Command(setCommand.address, On, max));
        } else {
          return 1 + max - target, Some(Command(setCommand.address, Dim, max - 1));
        }
      } else if curValue > target {
        return curValue - target, Some(Command(setCommand.address, Dim, curValue - 1));
      } else {
        if target - curValue > 2 + max - target {
          return 2 + max - target, Some(Command(setCommand.address, Off, -1));
        }
        return target - curValue, Some(Command(setCommand.address, Bright, curValue + 1));
      }
    }

    /** The switch over the command: the new value of its container. */
    method Switch(cmd: Command, address: string)
      requires Separate() && address in containers
      modifies this`log, containers[address]
      ensures Separate()
      ensures View() == if cmd.kind.ChangesValue()
                        then SetValue(old(View()), address, Apply(max, old(Values())[address], cmd.kind, cmd.value))
                        else old(View())
    {
      var currentValue := containers[address].value;
      match cmd.kind {
        case Set =>
          currentValue := cmd.value;
        case On =>
          currentValue := if currentValue < 0 then max else currentValue;
        case Off =>
          currentValue := -1;
        case Dim =>
          if currentValue == -1 { currentValue := max; }
          currentValue := if currentValue != 0 then currentValue - 1 else 0;
        case Bright =>
          if currentValue == -1 { currentValue := max; }
          currentValue := if currentValue >= max then max else currentValue + 1;
        case _ =>
          return;
      }
      Update(address, currentValue);
    }

    /** With a controller loaded, the notification, if it is due, and the frame. */
    method Send(id: nat, cmd: Command, notified: bool)
      requires Separate()
      modifies this`log
      ensures Separate()
      ensures View() == if !loaded then old(View())
                        else old(View()).(log := old(log) + (if notified then [] else [Completed(id, cmd)]) + [Sent(id, cmd)])
    {
      if loaded {
        if !notified {
          Emit([Completed(id, cmd)]);
        }
        Emit([Sent(id, cmd)]);
      }
    }

    /** Carrying out one command: the value, the notification, the frame. */
    method Carry(id: nat, cmd: Command, notified: bool)
      requires Separate()
      modifies this, Objects()
      ensures Separate() && fresh(Objects() - old(Objects()))
      ensures View() == Execute(old(View()), id, cmd, notified)
    {
      if !Addressable(cmd.address) {
        return;
      }
      var address := cmd.address.ToText();
      CheckContainerExist(address);
      Switch(cmd, address);
      Send(id, cmd, notified);
    }

    /** The SET at the back, planned: it leaves the queue if at most one command is left to send,
        and is reported if it was not before. */
    method MarkPlanned(nbSteps: int)
      requires Separate() && queue != []
      modifies this`queue, this`log
      ensures Separate()
      ensures var older, e := old(queue)[..|old(queue)| - 1], old(queue)[|old(queue)| - 1];
              View() == old(View()).(
              queue := if nbSteps <= 1 then older else older + [e.(notified := true)],
              log := old(log) + (if nbSteps != 0 && !e.notified then [Completed(e.id, e.cmd)] else []))
    {
      var entry := queue[|queue| - 1];
      SetQueue(queue[..|queue| - 1] + if nbSteps <= 1 then [] else [entry.(notified := true)]);
      if nbSteps != 0 && !entry.notified {
        Emit([Completed(entry.id, entry.cmd)]);
      }
    }

    method PlanOldest() returns (next: Option<Command>)
      requires Separate() && queue != [] && queue[|queue| - 1].cmd.kind == Set
      modifies this
      ensures Separate() && fresh(Objects() - old(Objects()))
      ensures var cmd := old(queue[|queue| - 1].cmd);
              var p := NextStep(max, ValueAt(old(Values()), cmd.address.ToText()), cmd.value);
              && View() == PlanSet(old(View()), cmd.address.ToText(), p.steps)
              && next == match p.next case None => None case Some(k) => Some(Command(cmd.address, k.0, k.1))
    {
      var nbSteps;
      nbSteps, next := GetNextCommand(queue[|queue| - 1].cmd);
      MarkPlanned(nbSteps);
    }

    /** A SET at the back of the queue: one planned command is carried out. */
    method CarrySet()
      requires Separate() && queue != [] && queue[|queue| - 1].cmd.kind == Set
      modifies this, Objects()
      ensures Separate() && fresh(Objects() - old(Objects()))
      ensures View() == Turn(old(View()))
    {
      var entry := queue[|queue| - 1];
      SetTurnIs(View(), entry);
      var next := PlanOldest();
      if next.Some? {
        Carry(entry.id, next.value, true);
      }
    }

    method CarryPlain()
      requires Separate() && queue != [] && queue[|queue| - 1].cmd.kind != Set
      modifies this, Objects()
      ensures Separate() && fresh(Objects() - old(Objects()))
      ensures View() == Turn(old(View()))
    {
      var entry := queue[|queue| - 1];
      SetQueue(queue[..|queue| - 1]);
      Carry(entry.id, entry.cmd, entry.notified);
    }

    /** One turn of the worker: it keeps what the queue stands for, and makes progress. */
    method WorkerTurn()
      requires Valid() && queue != []
      modifies this, Objects()
      ensures Valid() && fresh(Objects() - old(Objects()))
      ensures View() == Turn(old(View()))
      ensures Result(View()) == Result(old(View()))
      ensures |queue| < |old(queue)| ||
              (|queue| == |old(queue)| && RemainingSteps(View()) < RemainingSteps(old(View())))
    {
      ghost var before := View();
      if queue[|queue| - 1].cmd.kind == Set {
        CarrySet();
      } else {
        CarryPlain();
      }
      TurnIsGood(before);
    }

    /** The worker left alone empties the queue; the values are those of the atomic fold. */
    method RunUntilIdle()
      requires Valid()
      modifies this, Objects()
      ensures Valid() && fresh(Objects() - old(Objects()))
      ensures queue == []
      ensures Values() == old(Result(View()))
    {
      while queue != []
        invariant Valid() && fresh(Objects() - old(Objects()))
        invariant Result(View()) == old(Result(View()))
        decreases |queue|, RemainingSteps(View())
      {
        WorkerTurn();
      }
    }

    /** The switch over a received command. */
    method ReceiveSwitch(kind: Kind, address: string)
      requires Separate() && address in containers
      modifies this`log, containers[address]
      ensures Separate()
      ensures View() == Heard(old(View()), address, kind)
    {
      var emitted := containers[address].Receive(kind);
      assert Values() == old(Values())[address := containers[address].value];
      if emitted.Some? {
        Emit([Updated(address, emitted.value)]);
      } else {
        assert Values() == old(Values());
      }
    }

    /** A command from a remote control, read while the queue is empty. */
    method ReceiveCommand(house: Address, kind: Kind)
      requires Valid() && queue == [] && house.Valid() && kind != Set
      modifies this, Objects()
      ensures Valid() && fresh(Objects() - old(Objects()))
      ensures View() == Receive(old(View()), house, kind)
    {
      ghost var before := View();
      CheckContainerExist(house.ToText());
      ReceiveSwitch(kind, house.ToText());
      Emit([Received(house, kind)]);
      ReceiveIsGood(before, house, kind);
    }

    /** Queueing a command for one unit. */
    method QueueOne(cmd: Command)
      requires Valid() && cmd.Valid(max)
      modifies this`queue, this`nextId
      ensures Valid() && View() == Enqueue(old(View()), cmd)
    {
      EnqueueKeepsWellFormed(View(), cmd);
      ScanAndPush(cmd);
    }

    method ScanAndPush(cmd: Command)
      requires Separate()
      modifies this`queue, this`nextId
      ensures Separate() && View() == Enqueue(old(View()), cmd)
    {
      if smart {
        var kept, cancelled := SmartScan(queue, cmd);
        SetQueue(kept);
        if cancelled {
          return;
        }
      }
      Push(cmd);
    }

    method Push(cmd: Command)
      requires Separate()
      modifies this`queue, this`nextId
      ensures Separate()
      ensures View() == old(View()).(queue := [Entry(old(nextId), cmd, false)] + old(queue),
                        nextId := old(nextId) + 1)
    {
      queue := [Entry(nextId, cmd, false)] + queue;
      nextId := nextId + 1;
    }

    /** The keys in map order, each followed by a blank. */
    method NodesList() returns (list: string)
      requires Separate()
      ensures list == Terminated(nodes, ' ')
      ensures Valid() == old(Valid()) && View() == old(View())
    {
      list := "";
      var i := 0;
      while i < |nodes|
        invariant i <= |nodes| && list + Terminated(nodes[i..], ' ') == Terminated(nodes, ' ')
      {
        assert nodes[i..][1..] == nodes[i + 1..];
        assert list + (nodes[i] + [' '] + Terminated(nodes[i + 1..], ' ')) ==
               (list + nodes[i] + [' ']) + Terminated(nodes[i + 1..], ' ');
        list := list + nodes[i] + [' '];
        i := i + 1;
      }
    }

    /** Queueing a command for one unit, or for every address a pattern matches. */
    method QueueCommand(cmd: Command)
      requires Valid() && Accepted(max, nodes, cmd)
      modifies this`queue, this`nextId
      ensures Valid() && View() == Submitted(old(View()), cmd)
      decreases cmd.address.Generic(), 3
    {
      if cmd.address.Generic() {
        QueuePattern(cmd);
      } else {
        SubmittedOne(View(), cmd);
        QueueOne(cmd);
      }
    }

    method QueuePattern(cmd: Command)
      requires Valid() && Accepted(max, nodes, cmd) && cmd.address.Generic()
      modifies this`queue, this`nextId
      ensures Valid() && View() == Submitted(old(View()), cmd)
      decreases true, 2
    {
      var listNodes := NodesList();
      QueueMatching(SplitSkip(listNodes, ' '), cmd);
    }

    /** The walk over the parts of the node list, the last address read staying in the
        channel and unit when a part is not read. */
    method QueueMatching(parts: seq<string>, cmd: Command)
      requires Valid() && Accepted(max, nodes, cmd) && cmd.address.Generic() && parts == Parts(nodes)
      modifies this`queue, this`nextId
      ensures Valid() && View() == Submitted(old(View()), cmd)
      decreases true, 1
    {
      ghost var walk, result := Walk(nodes), Submitted(View(), cmd);
      WalkIsProper(nodes);
      var nodeChannel, nodeUnit := 'A', 0;
      var i := 0;
      CarriedLength(parts, Address(nodeChannel, nodeUnit));
      assert parts[0..] == parts && walk[0..] == walk;
      while i < |parts|
        invariant i <= |parts| == |walk| && Valid() && nodes == old(nodes)
        invariant Carried(parts[i..], Address(nodeChannel, nodeUnit)) == walk[i..]
        invariant EnqueueAll(View(), Targets(walk[i..], cmd)) == result
      {
        var node := ReadInto(parts[i], Address(nodeChannel, nodeUnit));
        CarriedStep(parts, i, Address(nodeChannel, nodeUnit), walk);
        WalkStep(View(), walk, i, cmd);
        nodeChannel, nodeUnit := node.channel, node.unit;
        QueueIfMatching(node, cmd);
        i := i + 1;
      }
      assert walk[i..] == [];
    }

    /** One address of the walk: the command for it, if the pattern matches. */
    method QueueIfMatching(node: Address, cmd: Command)
      requires Valid() && (cmd.kind == Set ==> InRange(max, cmd.value))
      requires Matches(cmd.address, node) ==> node.Valid() && !node.Generic()
      modifies this`queue, this`nextId
      ensures Valid()
      ensures View() == if Matches(cmd.address, node) then Submitted(old(View()), cmd.(address := node)) else old(View())
      decreases true, 0
    {
      if Matches(cmd.address, node) {
        QueueCommand(Command(node, cmd.kind, cmd.value));
      }
    }

    /** Every known key switched on or off. */
    method SetAllTo(on: bool)
      requires Valid() && AllEnd(max, nodes, if on then On else Off, if on then -2 else -1)
      modifies this`queue, this`nextId
      ensures Valid()
      ensures View() == SubmittedAll(old(View()), Each(old(nodes), if on then On else Off, if on then -2 else -1))
    {
      var kind, value := if on then On else Off, if on then -2 else -1;
      ghost var all := Each(nodes, kind, value);
      ghost var result := SubmittedAll(View(), all);
      var i := 0;
      assert nodes[0..] == nodes;
      while i < |nodes|
        invariant i <= |nodes| && Valid() && nodes == old(nodes)
        invariant forall c :: c in Each(nodes[i..], kind, value) ==> Accepted(max, nodes, c)
        invariant SubmittedAll(View(), Each(nodes[i..], kind, value)) == result
      {
        EachStep(View(), nodes, i, kind, value);
        var a := SourceToAddress(nodes[i]);
        if a.Some? {
          assert Command(a.value, kind, value) in Each(nodes[i..], kind, value);
          QueueCommand(Command(a.value, kind, value));
        }
        i := i + 1;
      }
    }

    /** The commands of a rule, queued in order. */
    method OnRuleExecute(rule: Rules.Rule)
      requires Valid()
      requires forall c :: c in RuleTexts.RuleCommands(max, rule) && c.address.Generic() ==> Ends(Walk(nodes), c.address)
      modifies this`queue, this`nextId
      ensures Valid() && View() == SubmittedAll(old(View()), RuleTexts.RuleCommands(max, rule))
    {
      ghost var before := View();
      var listCmds := RuleTexts.GetCommands(max, rule);
      RuleTexts.RuleCommandsAreAccepted(max, rule);
      assert View() == before;
      QueueList(listCmds);
      assert View() == SubmittedAll(before, listCmds);
    }

    method QueueList(listCmds: seq<Command>)
      requires Valid() && forall c :: c in listCmds ==> Accepted(max, nodes, c)
      modifies this`queue, this`nextId
      ensures Valid() && View() == SubmittedAll(old(View()), listCmds)
    {
      ghost var result := SubmittedAll(View(), listCmds);
      var i := 0;
      assert listCmds[0..] == listCmds;
      while i < |listCmds|
        invariant i <= |listCmds| && Valid() && nodes == old(nodes)
        invariant SubmittedAll(View(), listCmds[i..]) == result
      {
        assert listCmds[i] in listCmds;
        SubmittedFrom(View(), listCmds, i);
        QueueCommand(listCmds[i]);
        i := i + 1;
      }
    }

    /** The value of a source, which becomes known. */
    method GetValue(source: string) returns (v: int)
      requires Valid()
      modifies this`containers, this`nodes
      ensures Valid() && fresh(Objects() - old(Objects()))
      ensures View() == Query(old(View()), source)
      ensures v == if IsValidAddress(source) then ValueAt(old(Values()), source) else -1
    {
      ghost var before := View();
      v := -1;
      if IsValidAddress(source) {
        TouchKeepsListed(before, source);
        CheckContainerExist(source);
        v := containers[source].value;
        assert v == View().values[source];
      }
    }
  }

  /** A turn on a SET: planning it, then the planned command. */
  lemma SetTurnIs(s: State, e: Entry)
    requires s.queue != [] && e == s.queue[|s.queue| - 1] && e.cmd.kind == Set
    ensures var key := e.cmd.address.ToText();
            var p := NextStep(s.max, ValueAt(s.values, key), e.cmd.value);
            Turn(s) == match p.next
                       case None => PlanSet(s, key, p.steps)
                       case Some(k) => Execute(PlanSet(s, key, p.steps), e.id, Command(e.cmd.address, k.0, k.1), true)
  {
  }

  /** The scan up to the cursor: an erasing command has dropped the unit's commands, a step
      has met none of another kind, any other command changes nothing. */
  ghost predicate Scanned(queue: seq<Entry>, kept: seq<Entry>, itr: nat, cmd: Command)
    requires itr <= |kept|
  {
    if cmd.kind.Erases() then kept[..itr] + Without(kept[itr..], cmd.address) == Without(queue, cmd.address)
    else kept == queue && (cmd.kind.IsStep() ==> itr <= FindOther(queue, cmd))
  }

  lemma ScanErases(queue: seq<Entry>, kept: seq<Entry>, itr: nat, cmd: Command)
    requires itr < |kept| && Scanned(queue, kept, itr, cmd)
    requires cmd.kind.Erases() && kept[itr].cmd.address == cmd.address
    ensures Scanned(queue, kept[..itr] + kept[itr + 1..], itr, cmd)
  {
    WithoutAt(kept, itr, cmd.address);
  }

  lemma ScanPasses(queue: seq<Entry>, kept: seq<Entry>, itr: nat, cmd: Command)
    requires itr < |kept| && Scanned(queue, kept, itr, cmd)
    requires cmd.kind.Erases() ==> kept[itr].cmd.address != cmd.address
    requires cmd.kind.IsStep() ==> !Clashes(kept[itr], cmd)
    ensures Scanned(queue, kept, itr + 1, cmd)
  {
    if cmd.kind.Erases() { WithoutAt(kept, itr, cmd.address); }
  }

  lemma ScanEnds(queue: seq<Entry>, kept: seq<Entry>, cmd: Command)
    requires Scanned(queue, kept, |kept|, cmd)
    ensures cmd.kind.IsStep() ==> FindOther(queue, cmd) == |queue|
    ensures kept == if cmd.kind.Erases() then Without(queue, cmd.address) else queue
  {
    assert kept[..|kept|] == kept && kept[|kept|..] == [] && kept + [] == kept;
  }

  /** The scan of the smart queue: what stays queued, and whether the command is dropped. */
  method SmartScan(queue: seq<Entry>, cmd: Command) returns (kept: seq<Entry>, cancelled: bool)
    ensures cancelled <==> cmd.kind.IsStep() && FindOther(queue, cmd) < |queue|
    ensures cancelled ==>
              kept == queue[..FindOther(queue, cmd)] + queue[FindOther(queue, cmd) + 1..]
    ensures !cancelled ==> kept == if cmd.kind.Erases() then Without(queue, cmd.address) else queue
  {
    kept := queue;
    var itr := 0;
    while itr < |kept|
      invariant itr <= |kept| && Scanned(queue, kept, itr, cmd)
      decreases |kept| - itr
    {
      var it := kept[itr];
      if cmd.address.channel == it.cmd.address.channel && cmd.address.unit == it.cmd.address.unit {
        if cmd.kind == Set || cmd.kind == Off {
          ScanErases(queue, kept, itr, cmd);
          kept := kept[..itr] + kept[itr + 1..];
          continue;
        } else if cmd.kind == Bright || cmd.kind == Dim {
          if it.cmd.kind != cmd.kind {
            return kept[..itr] + kept[itr + 1..], true;
          }
        }
      }
      ScanPasses(queue, kept, itr, cmd);
      itr := itr + 1;
    }
    ScanEnds(queue, kept, cmd);
    cancelled := false;
  }

  /** One step of the scan: the command at the cursor is erased or passed. */
  lemma WithoutAt(q: seq<Entry>, i: nat, a: Address)
    requires i < |q|
    ensures var after := q[..i] + q[i + 1..];
            q[..i] + Without(q[i..], a) ==
            if q[i].cmd.address == a then after[..i] + Without(after[i..], a)
            else q[..i + 1] + Without(q[i + 1..], a)
  {
    var after := q[..i] + q[i + 1..];
    assert after[..i] == q[..i] && after[i..] == q[i + 1..] == q[i..][1..];
    assert q[..i + 1] == q[..i] + [q[i]];
    var rest := Without(q[i + 1..], a);
    assert q[..i] + ([q[i]] + rest) == (q[..i] + [q[i]]) + rest;
    assert [] + rest == rest;
  }

  lemma SubmittedFrom(s: State, cmds: seq<Command>, i: nat)
    requires i < |cmds|
    ensures SubmittedAll(s, cmds[i..]) == SubmittedAll(Submitted(s, cmds[i]), cmds[i + 1..])
  {
    assert cmds[i..][1..] == cmds[i + 1..];
  }

  lemma SubmittedOne(s: State, cmd: Command)
    requires !cmd.address.Generic()
    ensures Submitted(s, cmd) == Enqueue(s, cmd)
  {
    assert EnqueueAll(s, [cmd]) == EnqueueAll(Enqueue(s, cmd), []);
  }

  /** Queueing for the address at the cursor, then for the others. */
  lemma WalkStep(s: State, walk: seq<Address>, i: nat, cmd: Command)
    requires i < |walk| && AllProper(walk) && Ends(walk, cmd.address)
    ensures var one := cmd.(address := walk[i]);
            && (Matches(cmd.address, walk[i]) ==> walk[i].Valid() && !walk[i].Generic())
            && EnqueueAll(s, Targets(walk[i..], cmd)) ==
               EnqueueAll(if Matches(cmd.address, walk[i]) then Submitted(s, one) else s, Targets(walk[i + 1..], cmd))
  {
    var one, rest := cmd.(address := walk[i]), Targets(walk[i + 1..], cmd);
    assert walk[i] in walk && walk[i..][1..] == walk[i + 1..];
    if Matches(cmd.address, walk[i]) {
      SubmittedOne(s, one);
      assert ([one] + rest)[1..] == rest;
    } else {
      assert [] + rest == rest;
    }
  }

  lemma {:induction false} CarriedLength(parts: seq<string>, before: Address)
    ensures |Carried(parts, before)| == |parts|
  {
    if parts != [] { CarriedLength(parts[1..], ReadInto(parts[0], before)); }
  }

  lemma CarriedStep(parts: seq<string>, i: nat, before: Address, walk: seq<Address>)
    requires i < |parts| == |walk| && Carried(parts[i..], before) == walk[i..]
    ensures walk[i] == ReadInto(parts[i], before)
    ensures Carried(parts[i + 1..], walk[i]) == walk[i + 1..]
  {
    assert parts[i..][1..] == parts[i + 1..] && walk[i..][1..] == walk[i + 1..];
  }

  /** Queueing for the first known key, then for the others. */
  lemma EachStep(s: State, nodes: seq<string>, i: nat, kind: Kind, value: int)
    requires i < |nodes|
    ensures var a, rest := SourceToAddress(nodes[i]), Each(nodes[i + 1..], kind, value);
            && (forall c :: c in rest ==> c in Each(nodes[i..], kind, value))
            && (a.Some? ==> Command(a.value, kind, value) in Each(nodes[i..], kind, value))
            && SubmittedAll(s, Each(nodes[i..], kind, value)) ==
               SubmittedAll(if a.Some? then Submitted(s, Command(a.value, kind, value)) else s, rest)
  {
    var a, rest := SourceToAddress(nodes[i]), Each(nodes[i + 1..], kind, value);
    assert nodes[i..][1..] == nodes[i + 1..];
    if a.Some? {
      assert Each(nodes[i..], kind, value) == [Command(a.value, kind, value)] + rest;
      assert ([Command(a.value, kind, value)] + rest)[1..] == rest;
    } else {
      assert [] + rest == rest;
    }
  }

  lemma TurnIsGood(s: State)
    requires WellFormed(s) && Listed(s) && s.queue != []
    ensures WellFormed(Turn(s)) && Listed(Turn(s))
    ensures Result(Turn(s)) == Result(s)
    ensures |Turn(s).queue| < |s.queue| ||
            (|Turn(s).queue| == |s.queue| && RemainingSteps(Turn(s)) < RemainingSteps(s))
  {
    TurnKeepsResult(s);
    TurnProgresses(s);
    TurnKeepsListed(s);
  }

  lemma ReceiveIsGood(s: State, a: Address, kind: Kind)
    requires WellFormed(s) && Listed(s) && Enabled(s, Remote(a, kind))
    ensures WellFormed(Receive(s, a, kind)) && Listed(Receive(s, a, kind))
  {
    TakeKeepsWellFormed(s, Remote(a, kind));
    ReceiveKeepsListed(s, a, kind);
  }
}
