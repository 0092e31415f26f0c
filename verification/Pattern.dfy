/**
  * Which units a pattern selects, from the keys themselves: the units of a channel, the unit of
  * one number on every channel, or all; and what a command for them does.
  */
module Patterns {
  import opened Text
  import opened Commands
  import opened Planner
  import opened Queue
  import opened Broadcast
  import opened BroadcastEffects

  /** The units whose keys pass a test, in the order of the keys. */
  function UnitsWhere(nodes: seq<string>, test: string -> bool): seq<Address> {
    if nodes == [] then []
    else
      (if test(nodes[0]) && IsUnit(nodes[0]) then [SourceToAddress(nodes[0]).value] else []) + UnitsWhere(nodes[1..], test)
  }

  /** The same command for several units. */
  function ForEach(cmd: Command, units: seq<Address>): seq<Command> {
    if units == [] then [] else [cmd.(address := units[0])] + ForEach(cmd, units[1..])
  }

  /** Every known key is that of a unit. */
  ghost predicate AllUnits(nodes: seq<string>) { forall k :: k in nodes ==> IsUnit(k) }

  lemma KeyOfUnit(k: string, a: Address)
    requires IsUnit(k) && a == SourceToAddress(k).value
    ensures |k| >= 2 && k[0] == a.channel && k[1..] == Number(a.unit) && a.Valid() && Free(k, ' ')
  {
    UnitHasNoBlank(a);
  }

  // ---------------------------------------------------------------- the walk over units

  lemma {:induction false} CarriedUnits(nodes: seq<string>, before: Address)
    requires AllUnits(nodes)
    ensures Carried(nodes, before) == UnitsWhere(nodes, k => true)
  {
    if nodes != [] {
      assert nodes[0] in nodes && forall k :: k in nodes[1..] ==> k in nodes;
      ReadIntoAccepted(nodes[0], before);
      CarriedUnits(nodes[1..], ReadInto(nodes[0], before));
    }
  }

  /** Keys of units are walked as these units, one by one. */
  lemma WalkOfUnits(nodes: seq<string>)
    requires AllUnits(nodes)
    ensures Walk(nodes) == UnitsWhere(nodes, k => true)
  {
    forall i | 0 <= i < |nodes|
      ensures IsValidAddress(nodes[i]) && Free(nodes[i], ' ')
    {
      assert nodes[i] in nodes;
      KeyOfUnit(nodes[i], SourceToAddress(nodes[i]).value);
    }
    NodesTextSplits(nodes);
    CarriedUnits(nodes, Address('A', 0));
  }

  ghost predicate TestsPattern(nodes: seq<string>, pattern: Address, test: string -> bool) {
    forall k :: k in nodes && IsValidAddress(k) ==> (test(k) <==> Matches(pattern, SourceToAddress(k).value))
  }

  lemma {:induction false} TargetsWhere(nodes: seq<string>, cmd: Command, test: string -> bool)
    requires AllUnits(nodes) && TestsPattern(nodes, cmd.address, test)
    ensures Targets(UnitsWhere(nodes, k => true), cmd) == ForEach(cmd, UnitsWhere(nodes, test))
  {
    if nodes != [] {
      var k, rest := nodes[0], nodes[1..];
      assert k in nodes && forall x :: x in rest ==> x in nodes;
      TargetsWhere(rest, cmd, test);
      var a, walk := SourceToAddress(k).value, UnitsWhere(rest, x => true);
      assert UnitsWhere(nodes, x => true) == [a] + walk && ([a] + walk)[1..] == walk;
      if test(k) {
        assert ([a] + UnitsWhere(rest, test))[1..] == UnitsWhere(rest, test);
      } else {
        assert [] + UnitsWhere(rest, test) == UnitsWhere(rest, test);
      }
    }
  }

  lemma QueuedWhere(nodes: seq<string>, cmd: Command, test: string -> bool)
    requires AllUnits(nodes) && cmd.address.Generic() && TestsPattern(nodes, cmd.address, test)
    ensures Reached(nodes, cmd) == ForEach(cmd, UnitsWhere(nodes, test))
  {
    WalkOfUnits(nodes);
    TargetsWhere(nodes, cmd, test);
  }

  /** A command for a channel is queued for exactly its known units, in order. */
  lemma ChannelSelects(nodes: seq<string>, cmd: Command, c: char)
    requires AllUnits(nodes) && 'A' <= c <= 'P' && cmd.address == Address(c, 0)
    ensures Reached(nodes, cmd) == ForEach(cmd, UnitsWhere(nodes, k => k != [] && k[0] == c))
  {
    forall k | k in nodes
      ensures (k != [] && k[0] == c) <==> Matches(cmd.address, SourceToAddress(k).value)
    {
      KeyOfUnit(k, SourceToAddress(k).value);
    }
    QueuedWhere(nodes, cmd, k => k != [] && k[0] == c);
  }

  /** A command for a number on all channels is queued for exactly the known units of that number. */
  lemma NumberSelects(nodes: seq<string>, cmd: Command, u: int)
    requires AllUnits(nodes) && 1 <= u <= 16 && cmd.address == Address('*', u)
    ensures Reached(nodes, cmd) == ForEach(cmd, UnitsWhere(nodes, k => k != [] && k[1..] == Number(u)))
  {
    forall k | k in nodes
      ensures (k != [] && k[1..] == Number(u)) <==> Matches(cmd.address, SourceToAddress(k).value)
    {
      var a := SourceToAddress(k).value;
      KeyOfUnit(k, a);
      if Number(a.unit) == Number(u) { NumberIsInjective(a.unit, u); }
    }
    QueuedWhere(nodes, cmd, k => k != [] && k[1..] == Number(u));
  }

  /** A command for everything is queued for all known units. */
  lemma AllSelects(nodes: seq<string>, cmd: Command)
    requires AllUnits(nodes) && cmd.address == Address('*', 0)
    ensures Reached(nodes, cmd) == ForEach(cmd, UnitsWhere(nodes, k => true))
  {
    QueuedWhere(nodes, cmd, k => true);
  }

  // ---------------------------------------------------------------- what it does

  lemma {:induction false} UnitIsListed(nodes: seq<string>, test: string -> bool, a: Address)
    requires a.Valid()
    ensures a in UnitsWhere(nodes, test) <==> a.ToText() in nodes && test(a.ToText())
  {
    SourceToAddressReadsText(a);
    if nodes != [] {
      UnitIsListed(nodes[1..], test, a);
      assert a.ToText() in nodes <==> a.ToText() == nodes[0] || a.ToText() in nodes[1..];
    }
  }

  lemma {:induction false} ForEachForUnit(cmd: Command, units: seq<Address>, a: Address)
    ensures For(ForEach(cmd, units), a) == [] <==> a !in units
    ensures forall c :: c in For(ForEach(cmd, units), a) ==> c == cmd.(address := a)
  {
    if units != [] {
      ForEachForUnit(cmd, units[1..], a);
      assert ForEach(cmd, units)[1..] == ForEach(cmd, units[1..]);
    }
  }

  lemma {:induction false} UnitsAreValid(nodes: seq<string>, test: string -> bool)
    ensures forall a :: a in UnitsWhere(nodes, test) ==> a.Valid()
  {
    if nodes != [] { UnitsAreValid(nodes[1..], test); }
  }

  lemma {:induction false} ForEachIsValid(max: int, cmd: Command, units: seq<Address>)
    requires (forall a :: a in units ==> a.Valid()) && (cmd.kind == Set ==> InRange(max, cmd.value))
    ensures AllValid(max, ForEach(cmd, units))
  {
    if units != [] {
      assert units[0] in units && forall a :: a in units[1..] ==> a in units;
      ForEachIsValid(max, cmd, units[1..]);
    }
  }

  /** A command for a channel, drained, in either queue mode: each known unit of the channel is
      left as the command says, every other unit as it would have been without it. */
  lemma ChannelActs(s: State, cmd: Command, c: char, a: Address)
    requires WellFormed(s) && AllUnits(s.nodes) && 'A' <= c <= 'P' && cmd.address == Address(c, 0) && a.Valid()
    requires !cmd.kind.IsStep() && (cmd.kind == Set ==> InRange(s.max, cmd.value))
    ensures WellFormed(Submitted(s, cmd))
    ensures var v := ValueAt(DrainAll(s).values, a.ToText());
            ValueAt(DrainAll(Submitted(s, cmd)).values, a.ToText()) ==
            if a.channel == c && a.ToText() in s.nodes then Apply(s.max, v, cmd.kind, cmd.value) else v
  {
    var test := (k: string) => k != [] && k[0] == c;
    ChannelSelects(s.nodes, cmd, c);
    assert UnitsWhere(s.nodes, k => k != [] && k[0] == c) == UnitsWhere(s.nodes, test) by { SameTest(s.nodes, k => k != [] && k[0] == c, test); }
    WhereActs(s, cmd, test, a);
  }

  lemma {:induction false} SameTest(nodes: seq<string>, f: string -> bool, g: string -> bool)
    requires forall k :: f(k) <==> g(k)
    ensures UnitsWhere(nodes, f) == UnitsWhere(nodes, g)
  {
    if nodes != [] { SameTest(nodes[1..], f, g); }
  }

  lemma WhereActs(s: State, cmd: Command, test: string -> bool, a: Address)
    requires WellFormed(s) && cmd.address.Generic() && a.Valid()
    requires !cmd.kind.IsStep() && (cmd.kind == Set ==> InRange(s.max, cmd.value))
    requires Reached(s.nodes, cmd) == ForEach(cmd, UnitsWhere(s.nodes, test))
    ensures WellFormed(Submitted(s, cmd))
    ensures var v := ValueAt(DrainAll(s).values, a.ToText());
            ValueAt(DrainAll(Submitted(s, cmd)).values, a.ToText()) ==
            if a.ToText() in s.nodes && test(a.ToText()) then Apply(s.max, v, cmd.kind, cmd.value) else v
  {
    var units := UnitsWhere(s.nodes, test);
    UnitsAreValid(s.nodes, test);
    ForEachIsValid(s.max, cmd, units);
    ForEachForUnit(cmd, units, a);
    UnitIsListed(s.nodes, test, a);
    EnqueueAllEffect(s, ForEach(cmd, units), a);
    FoldedSame(s.max, ValueAt(DrainAll(s).values, a.ToText()), For(ForEach(cmd, units), a), cmd.kind, cmd.value);
  }

  /** Switching a channel off leaves exactly its known units off, and no other unit changed. */
  lemma ChannelOff(s: State, c: char, a: Address)
    requires WellFormed(s) && AllUnits(s.nodes) && 'A' <= c <= 'P' && a.Valid()
    ensures var cmd := Command(Address(c, 0), Off, -1);
            && WellFormed(Submitted(s, cmd))
            && ValueAt(DrainAll(Submitted(s, cmd)).values, a.ToText()) ==
               if a.channel == c && a.ToText() in s.nodes then -1 else ValueAt(DrainAll(s).values, a.ToText())
  {
    ChannelActs(s, Command(Address(c, 0), Off, -1), c, a);
  }

  // ---------------------------------------------------------------- keys that are no units

  /** The pattern key "E*" stands in the way of the commands that reach it, not of those for
      another channel. */
  lemma OtherChannelEnds(max: int, smart: bool, cmd: Command, c: char)
    requires 'A' <= c <= 'P' && c != 'E' && cmd.address == Address(c, 0)
    ensures Query(Fresh(max, smart), "E*").nodes == ["E*"]
    ensures Walk(["E*"]) == [Address('E', 0)]
    ensures Expand(1, Walk(["E*"]), cmd) == Some([])
  {
    var k := "E*";
    assert k[0] == 'E' && k[1..] == "*";
    NodesTextSplits([k]);
    assert [k][1..] == [];
    assert Carried([k], Address('A', 0)) == [Address('E', 0)] + Carried([], Address('E', 0));
    var walk := [Address('E', 0)];
    BroadcastEndsExactly([k], cmd);
    assert Targets(walk, cmd) == [] + Targets(walk[1..], cmd);
  }

  /** A key with a blank repeats the unit walked before it, once for each of its halves, and is
      not reached by its own channel. */
  lemma BlankKeyRepeats(k: string, a: Address)
    requires IsUnit(k) && a == SourceToAddress(k).value
    ensures Walk([k, "E 5"]) == [a, a, a]
  {
    KeyOfUnit(k, a);
    var blank := "E 5";
    SplitOfBlankKey();
    SplitWhole(k, ' ');
    assert NonEmpty([k]) == [k] + NonEmpty([k][1..]) && [k][1..] == [];
    SplitSkipTerminated([k, blank], ' ');
    SplitSkipTerminated([blank], ' ');
    assert [k, blank][1..] == [blank] && [blank][1..] == [];
    assert Split([], ' ') == [[]] && NonEmpty([[]]) == [] + NonEmpty([[]][1..]);
    var parts := [k, "E", "5"];
    assert Parts([k, blank]) == parts;
    ThreeParts(parts, a);
  }

  lemma ThreeParts(parts: seq<string>, a: Address)
    requires |parts| == 3 && IsValidAddress(parts[0]) && a == SourceToAddress(parts[0]).value
    requires |parts[1]| == 1 && parts[1] != "*" && |parts[2]| == 1 && parts[2] != "*"
    ensures Carried(parts, Address('A', 0)) == [a, a, a]
  {
    ReadIntoAccepted(parts[0], Address('A', 0));
    assert parts[1..][1..] == [parts[2]] && parts[1..][1..][1..] == [];
    assert Carried(parts[1..][1..], a) == [a] + Carried([], a);
    assert Carried(parts[1..], a) == [a] + Carried(parts[1..][1..], a);
  }
}
