/** What commands for patterns and lists of units do, once drained. */
module BroadcastEffects {
  import opened Text
  import opened Commands
  import opened Planner
  import opened Queue
  import opened SmartQueue
  import opened Runs
  import opened KnownUnits
  import opened Broadcast

  /** Those of the commands that are for one unit. */
  function For(cmds: seq<Command>, a: Address): seq<Command> {
    if cmds == [] then []
    else (if cmds[0].address == a then [cmds[0]] else []) + For(cmds[1..], a)
  }

  /** The commands of a unit after it was given more of them. */
  function OnUnitAll(smart: bool, queued: seq<Command>, cmds: seq<Command>): seq<Command>
    decreases |cmds|
  {
    if cmds == [] then queued else OnUnitAll(smart, OnUnit(smart, queued, cmds[0]), cmds[1..])
  }

  lemma {:induction false} EnqueueAllOnUnit(s: State, cmds: seq<Command>, a: Address)
    ensures Cmds(EnqueueAll(s, cmds).queue, a) == OnUnitAll(s.smart, Cmds(s.queue, a), For(cmds, a))
    decreases |cmds|
  {
    if cmds != [] {
      var t, rest := Enqueue(s, cmds[0]), For(cmds[1..], a);
      EnqueueOnUnit(s, cmds[0], a);
      EnqueueKeepsRest(s, cmds[0]);
      EnqueueAllOnUnit(t, cmds[1..], a);
      if cmds[0].address == a {
        assert ([cmds[0]] + rest)[1..] == rest;
      } else {
        assert [] + rest == rest;
      }
    }
  }

  /** A value after commands, first command first. */
  function Folded(max: int, v: int, cmds: seq<Command>): int
    decreases |cmds|
  {
    if cmds == [] then v else Folded(max, Apply(max, v, cmds[0].kind, cmds[0].value), cmds[1..])
  }

  /** The smart queue is off, or there are no steps it could cancel. */
  ghost predicate NothingCancelled(smart: bool, cmds: seq<Command>) {
    smart ==> forall c :: c in cmds ==> !c.kind.IsStep()
  }

  /** Then queued commands act one after the other on what the queue stands for. */
  lemma {:induction false} OnUnitAllActs(smart: bool, max: int, v: int, queued: seq<Command>, cmds: seq<Command>)
    requires NothingCancelled(smart, cmds)
    ensures UnitResult(max, v, OnUnitAll(smart, queued, cmds)) == Folded(max, UnitResult(max, v, queued), cmds)
    decreases |cmds|
  {
    if cmds != [] {
      assert cmds[0] in cmds && forall c :: c in cmds[1..] ==> c in cmds;
      OnUnitActs(smart, max, v, queued, cmds[0]);
      OnUnitAllActs(smart, max, v, OnUnit(smart, queued, cmds[0]), cmds[1..]);
    }
  }

  lemma OnUnitActs(smart: bool, max: int, v: int, queued: seq<Command>, cmd: Command)
    requires smart ==> !cmd.kind.IsStep()
    ensures UnitResult(max, v, OnUnit(smart, queued, cmd)) == Apply(max, UnitResult(max, v, queued), cmd.kind, cmd.value)
  {
    assert ([cmd] + queued)[1..] == queued && [cmd][1..] == [];
  }

  /** Draining shows for a unit what its own queued commands leave, and for a key that is no
      unit the value it has. */
  lemma DrainedAtUnit(s: State, a: Address)
    requires WellFormed(s) && a.Valid()
    ensures ValueAt(DrainAll(s).values, a.ToText()) == UnitResult(s.max, ValueAt(s.values, a.ToText()), Cmds(s.queue, a))
  {
    DrainRefinesAtomic(s);
    QueueIsConcrete(s);
    ResultAtUnit(s.max, s.values, s.queue, a);
  }

  lemma DrainedElsewhere(s: State, key: string)
    requires WellFormed(s) && !IsUnit(key)
    ensures ValueAt(DrainAll(s).values, key) == ValueAt(s.values, key)
  {
    DrainRefinesAtomic(s);
    forall e | e in s.queue
      ensures e.cmd.address.ToText() != key
    {
      UnitIsKey(e.cmd.address);
    }
    ResultElsewhere(s.max, s.values, s.queue, key);
  }

  /**
    * Several commands queued and drained, in either queue mode: each unit is left as its own
    * commands, old and new, leave it; every other key keeps its value.
    */
  lemma EnqueueAllEffect(s: State, cmds: seq<Command>, a: Address)
    requires WellFormed(s) && AllValid(s.max, cmds) && a.Valid()
    ensures WellFormed(EnqueueAll(s, cmds))
    ensures ValueAt(DrainAll(EnqueueAll(s, cmds)).values, a.ToText()) ==
            UnitResult(s.max, ValueAt(s.values, a.ToText()), OnUnitAll(s.smart, Cmds(s.queue, a), For(cmds, a)))
    ensures NothingCancelled(s.smart, For(cmds, a)) ==>
              ValueAt(DrainAll(EnqueueAll(s, cmds)).values, a.ToText()) ==
              Folded(s.max, ValueAt(DrainAll(s).values, a.ToText()), For(cmds, a))
  {
    EnqueueAllKeepsWellFormed(s, cmds);
    EnqueueAllKeepsRest(s, cmds);
    EnqueueAllOnUnit(s, cmds, a);
    DrainedAtUnit(s, a);
    DrainedAtUnit(EnqueueAll(s, cmds), a);
    if NothingCancelled(s.smart, For(cmds, a)) {
      OnUnitAllActs(s.smart, s.max, ValueAt(s.values, a.ToText()), Cmds(s.queue, a), For(cmds, a));
    }
  }

  lemma EnqueueAllElsewhere(s: State, cmds: seq<Command>, key: string)
    requires WellFormed(s) && AllValid(s.max, cmds) && !IsUnit(key)
    ensures WellFormed(EnqueueAll(s, cmds))
    ensures ValueAt(DrainAll(EnqueueAll(s, cmds)).values, key) == ValueAt(DrainAll(s).values, key)
    ensures ValueAt(DrainAll(s).values, key) == ValueAt(s.values, key)
  {
    EnqueueAllKeepsWellFormed(s, cmds);
    EnqueueAllKeepsRest(s, cmds);
    DrainedElsewhere(s, key);
    DrainedElsewhere(EnqueueAll(s, cmds), key);
  }

  // ---------------------------------------------------------------- effect of a pattern

  /** How often the walk meets a unit the pattern matches: once for each spelling of its key. */
  function Hits(walk: seq<Address>, pattern: Address, a: Address): nat {
    if walk == [] then 0
    else (if walk[0] == a && Matches(pattern, a) then 1 else 0) + Hits(walk[1..], pattern, a)
  }

  function Copies(cmd: Command, n: nat): (r: seq<Command>)
    ensures |r| == n && forall c :: c in r ==> c == cmd
  {
    if n == 0 then [] else [cmd] + Copies(cmd, n - 1)
  }

  lemma {:induction false} HitsExactly(walk: seq<Address>, pattern: Address, a: Address)
    ensures Hits(walk, pattern, a) > 0 <==> a in walk && Matches(pattern, a)
  {
    if walk != [] { HitsExactly(walk[1..], pattern, a); }
  }

  lemma {:induction false} TargetsForUnit(walk: seq<Address>, cmd: Command, a: Address)
    ensures For(Targets(walk, cmd), a) == Copies(cmd.(address := a), Hits(walk, cmd.address, a))
  {
    if walk != [] {
      var rest := Targets(walk[1..], cmd);
      TargetsForUnit(walk[1..], cmd, a);
      if Matches(cmd.address, walk[0]) {
        assert ([cmd.(address := walk[0])] + rest)[1..] == rest;
        assert [] + For(rest, a) == For(rest, a);
      } else {
        assert [] + rest == rest;
      }
    }
  }

  /** A pattern command, drained, in either queue mode: each unit is left as if it had been
      given the command alone, as often as the walk meets it; other keys keep their values. */
  lemma TargetsEffect(s: State, cmd: Command, a: Address)
    requires WellFormed(s) && Listed(s) && cmd.address.Generic() && Accepted(s.max, s.nodes, cmd) && a.Valid()
    ensures WellFormed(Submitted(s, cmd))
    ensures var n := Hits(Walk(s.nodes), cmd.address, a);
            && WellFormed(EnqueueAll(s, Copies(cmd.(address := a), n)))
            && ValueAt(DrainAll(Submitted(s, cmd)).values, a.ToText()) ==
               ValueAt(DrainAll(EnqueueAll(s, Copies(cmd.(address := a), n))).values, a.ToText())
    ensures forall key :: !IsUnit(key) ==>
                            ValueAt(DrainAll(Submitted(s, cmd)).values, key) == ValueAt(s.values, key)
  {
    var n := Hits(Walk(s.nodes), cmd.address, a);
    var copies := Copies(cmd.(address := a), n);
    ReachedIsValid(s, cmd);
    TargetsForUnit(Walk(s.nodes), cmd, a);
    CopiesForUnit(cmd.(address := a), n);
    EnqueueAllEffect(s, Reached(s.nodes, cmd), a);
    EnqueueAllEffect(s, copies, a);
    forall key | !IsUnit(key)
      ensures ValueAt(DrainAll(Submitted(s, cmd)).values, key) == ValueAt(s.values, key)
    {
      EnqueueAllElsewhere(s, Reached(s.nodes, cmd), key);
    }
  }

  lemma {:induction false} CopiesForUnit(cmd: Command, n: nat)
    ensures For(Copies(cmd, n), cmd.address) == Copies(cmd, n)
  {
    if n > 0 {
      CopiesForUnit(cmd, n - 1);
      assert ([cmd] + Copies(cmd, n - 1))[1..] == Copies(cmd, n - 1);
    }
  }

  /** So a unit the walk meets once is left as the command alone would leave it, steps on a
      smart queue included, and a unit it does not meet is left as it was. */
  lemma BroadcastReachesSelected(s: State, cmd: Command, a: Address)
    requires WellFormed(s) && Listed(s) && cmd.address.Generic() && Accepted(s.max, s.nodes, cmd) && a.Valid()
    requires Hits(Walk(s.nodes), cmd.address, a) <= 1
    ensures WellFormed(Submitted(s, cmd)) && WellFormed(Enqueue(s, cmd.(address := a)))
    ensures ValueAt(DrainAll(Submitted(s, cmd)).values, a.ToText()) ==
            if a in Walk(s.nodes) && Matches(cmd.address, a)
            then ValueAt(DrainAll(Enqueue(s, cmd.(address := a))).values, a.ToText())
            else ValueAt(DrainAll(s).values, a.ToText())
  {
    var one := cmd.(address := a);
    TargetsEffect(s, cmd, a);
    HitsExactly(Walk(s.nodes), cmd.address, a);
    EnqueueKeepsWellFormed(s, one);
    assert Copies(one, 0) == [] && Copies(one, 1) == [one] + [] && [one][1..] == [];
    assert EnqueueAll(s, [one]) == EnqueueAll(Enqueue(s, one), []);
  }

  /** Where every key is that of a unit, the walk meets each known unit once. */
  lemma UnitsAreMetOnce(nodes: seq<string>, pattern: Address, a: Address)
    requires Ascending(nodes) && a.Valid() && forall k :: k in nodes ==> IsUnit(k)
    ensures Hits(Walk(nodes), pattern, a) == if a.ToText() in nodes && Matches(pattern, a) then 1 else 0
  {
    forall i | 0 <= i < |nodes|
      ensures IsValidAddress(nodes[i]) && Free(nodes[i], ' ')
    {
      assert nodes[i] in nodes;
      UnitHasNoBlank(SourceToAddress(nodes[i]).value);
    }
    NodesTextSplits(nodes);
    MetOnce(nodes, Address('A', 0), pattern, a);
  }

  lemma {:induction false} MetOnce(nodes: seq<string>, before: Address, pattern: Address, a: Address)
    requires Ascending(nodes) && a.Valid() && forall k :: k in nodes ==> IsUnit(k)
    ensures Hits(Carried(nodes, before), pattern, a) == if a.ToText() in nodes && Matches(pattern, a) then 1 else 0
  {
    if nodes != [] {
      var k := nodes[0];
      assert k in nodes && forall x :: x in nodes[1..] ==> x in nodes;
      ReadIntoAccepted(k, before);
      SourceToAddressReadsText(a);
      MetOnce(nodes[1..], ReadInto(k, before), pattern, a);
      if k in nodes[1..] {
        var j :| 0 < j < |nodes| && nodes[j] == k;
        BeforeIsTotal(nodes[0], nodes[j]);
        assert false;
      }
    }
  }

  /** A command whose repetition changes nothing more: anything but a step. */
  lemma {:induction false} FoldedSame(max: int, v: int, cmds: seq<Command>, kind: Kind, value: int)
    requires 1 <= max && !kind.IsStep() && forall c :: c in cmds ==> c.kind == kind && c.value == value
    ensures Folded(max, v, cmds) == if cmds == [] then v else Apply(max, v, kind, value)
    decreases |cmds|
  {
    if cmds != [] {
      assert cmds[0] in cmds && forall c :: c in cmds[1..] ==> c in cmds;
      FoldedSame(max, Apply(max, v, kind, value), cmds[1..], kind, value);
    }
  }

  // ---------------------------------------------------------------- effect of several patterns

  /** A command reaches a unit by its address, or by a pattern that matches it on the walk. */
  predicate Reaches(nodes: seq<string>, c: Address, a: Address) {
    if c.Generic() then a in Walk(nodes) && Matches(c, a) else c == a
  }

  lemma {:induction false} ForConcat(p: seq<Command>, q: seq<Command>, a: Address)
    ensures For(p + q, a) == For(p, a) + For(q, a)
  {
    if p == [] {
      assert p + q == q;
    } else {
      assert (p + q)[1..] == p[1..] + q;
      ForConcat(p[1..], q, a);
    }
  }

  lemma ReachedForUnit(nodes: seq<string>, cmd: Command, a: Address)
    ensures For(Reached(nodes, cmd), a) == [] <==> !Reaches(nodes, cmd.address, a)
    ensures forall c :: c in For(Reached(nodes, cmd), a) ==> c == cmd.(address := a)
  {
    if cmd.address.Generic() {
      TargetsForUnit(Walk(nodes), cmd, a);
      HitsExactly(Walk(nodes), cmd.address, a);
    } else {
      assert [cmd][1..] == [];
    }
  }

  lemma {:induction false} AllReachedForUnit(nodes: seq<string>, cmds: seq<Command>, a: Address)
    ensures For(AllReached(nodes, cmds), a) == [] <==>
            forall i :: 0 <= i < |cmds| ==> !Reaches(nodes, cmds[i].address, a)
    ensures forall c :: c in For(AllReached(nodes, cmds), a) ==>
                          exists i :: 0 <= i < |cmds| && c == cmds[i].(address := a)
  {
    if cmds != [] {
      var first, rest := Reached(nodes, cmds[0]), AllReached(nodes, cmds[1..]);
      ReachedForUnit(nodes, cmds[0], a);
      AllReachedForUnit(nodes, cmds[1..], a);
      ForConcat(first, rest, a);
      assert forall i :: 0 <= i < |cmds| - 1 ==> cmds[1..][i] == cmds[i + 1];
      forall c | c in For(rest, a)
        ensures exists i :: 0 <= i < |cmds| && c == cmds[i].(address := a)
      {
        var i :| 0 <= i < |cmds[1..]| && c == cmds[1..][i].(address := a);
        assert c == cmds[i + 1].(address := a);
      }
      if forall i :: 0 <= i < |cmds| ==> !Reaches(nodes, cmds[i].address, a) {
        assert forall i :: 0 <= i < |cmds[1..]| ==> !Reaches(nodes, cmds[1..][i].address, a);
      } else {
        var i :| 0 <= i < |cmds| && Reaches(nodes, cmds[i].address, a);
        if i > 0 { assert Reaches(nodes, cmds[1..][i - 1].address, a); }
      }
    }
  }

  /**
    * One action for any list of units and patterns, queued and drained in either queue mode:
    * every unit one of them reaches is changed once, as the action says; no other unit is.
    */
  lemma SameActionEverywhere(s: State, cmds: seq<Command>, kind: Kind, value: int, a: Address)
    requires WellFormed(s) && Listed(s) && a.Valid() && !kind.IsStep()
    requires forall c :: c in cmds ==> Accepted(s.max, s.nodes, c) && c.kind == kind && c.value == value
    ensures WellFormed(SubmittedAll(s, cmds))
    ensures var v := ValueAt(DrainAll(s).values, a.ToText());
            ValueAt(DrainAll(SubmittedAll(s, cmds)).values, a.ToText()) ==
            if exists i :: 0 <= i < |cmds| && Reaches(s.nodes, cmds[i].address, a) then Apply(s.max, v, kind, value) else v
  {
    var all := AllReached(s.nodes, cmds);
    SubmittedAllIsEnqueueAll(s, cmds);
    AllReachedIsValid(s, cmds);
    AllReachedForUnit(s.nodes, cmds, a);
    EnqueueAllEffect(s, all, a);
    forall c | c in For(all, a)
      ensures c.kind == kind && c.value == value
    {
      var i :| 0 <= i < |cmds| && c == cmds[i].(address := a);
      assert cmds[i] in cmds;
    }
    FoldedSame(s.max, ValueAt(DrainAll(s).values, a.ToText()), For(all, a), kind, value);
  }

  lemma SameActionElsewhere(s: State, cmds: seq<Command>, key: string)
    requires WellFormed(s) && Listed(s) && !IsUnit(key)
    requires forall c :: c in cmds ==> Accepted(s.max, s.nodes, c)
    ensures WellFormed(SubmittedAll(s, cmds))
    ensures ValueAt(DrainAll(SubmittedAll(s, cmds)).values, key) == -1
  {
    SubmittedAllIsEnqueueAll(s, cmds);
    AllReachedIsValid(s, cmds);
    EnqueueAllElsewhere(s, AllReached(s.nodes, cmds), key);
  }

  // ---------------------------------------------------------------- all units

  lemma {:induction false} EachIsAll(nodes: seq<string>, kind: Kind, value: int, k: string)
    requires k in nodes && IsValidAddress(k)
    ensures Command(SourceToAddress(k).value, kind, value) in Each(nodes, kind, value)
  {
    if nodes[0] != k { EachIsAll(nodes[1..], kind, value, k); }
  }

  lemma {:induction false} EachIsSame(nodes: seq<string>, kind: Kind, value: int)
    ensures forall c :: c in Each(nodes, kind, value) ==>
                          c.kind == kind && c.value == value &&
                          exists k :: k in nodes && IsValidAddress(k) && c.address == SourceToAddress(k).value
  {
    if nodes != [] {
      EachIsSame(nodes[1..], kind, value);
      forall c | c in Each(nodes, kind, value)
        ensures c.kind == kind && c.value == value &&
                exists k :: k in nodes && IsValidAddress(k) && c.address == SourceToAddress(k).value
      {
        if c in Each(nodes[1..], kind, value) {
          var k :| k in nodes[1..] && IsValidAddress(k) && c.address == SourceToAddress(k).value;
          assert k in nodes;
        } else {
          assert nodes[0] in nodes;
        }
      }
    }
  }

  /** Switching everything off and draining leaves every known key off, in both queue modes. */
  lemma AllOffReachesAll(s: State, key: string)
    requires WellFormed(s) && Listed(s) && key in s.values && AllEnd(s.max, s.nodes, Off, -1)
    ensures WellFormed(SubmittedAll(s, Each(s.nodes, Off, -1)))
    ensures DrainAll(SubmittedAll(s, Each(s.nodes, Off, -1))).queue == []
    ensures ValueAt(DrainAll(SubmittedAll(s, Each(s.nodes, Off, -1))).values, key) == -1
  {
    var cmds := Each(s.nodes, Off, -1);
    EachIsSame(s.nodes, Off, -1);
    if IsUnit(key) {
      var a := SourceToAddress(key).value;
      EachIsAll(s.nodes, Off, -1, key);
      var i :| 0 <= i < |cmds| && cmds[i] == Command(a, Off, -1);
      assert Reaches(s.nodes, cmds[i].address, a);
      SameActionEverywhere(s, cmds, Off, -1, a);
    } else {
      SameActionElsewhere(s, cmds, key);
    }
    DrainRefinesAtomic(SubmittedAll(s, cmds));
  }

  /** Switching everything on lights every known unit that is off, and changes no other. */
  lemma AllOnReachesAll(s: State, key: string)
    requires WellFormed(s) && Listed(s) && key in s.values && AllEnd(s.max, s.nodes, On, -2)
    ensures WellFormed(SubmittedAll(s, Each(s.nodes, On, -2)))
    ensures var v := ValueAt(DrainAll(s).values, key);
            ValueAt(DrainAll(SubmittedAll(s, Each(s.nodes, On, -2))).values, key) ==
            if IsUnit(key) && v < 0 then s.max else if IsUnit(key) then v else -1
  {
    var cmds := Each(s.nodes, On, -2);
    EachIsSame(s.nodes, On, -2);
    if IsUnit(key) {
      var a := SourceToAddress(key).value;
      EachIsAll(s.nodes, On, -2, key);
      var i :| 0 <= i < |cmds| && cmds[i] == Command(a, On, -2);
      assert Reaches(s.nodes, cmds[i].address, a);
      SameActionEverywhere(s, cmds, On, -2, a);
    } else {
      SameActionElsewhere(s, cmds, key);
    }
  }

  lemma UnitHasNoBlank(a: Address)
    requires a.Valid()
    ensures Free(a.ToText(), ' ')
  {
    assert forall c :: c in Number(a.unit) ==> c == '-' || IsDigit(c);
  }

  /** The same by the pattern command for all units. */
  lemma PatternOffReachesAll(s: State, key: string)
    requires WellFormed(s) && Listed(s) && key in s.values
    requires Ends(Walk(s.nodes), Address('*', 0))
    ensures WellFormed(Submitted(s, Command(Address('*', 0), Off, -1)))
    ensures ValueAt(DrainAll(Submitted(s, Command(Address('*', 0), Off, -1))).values, key) == -1
  {
    var cmd := Command(Address('*', 0), Off, -1);
    assert SubmittedAll(s, [cmd]) == SubmittedAll(Submitted(s, cmd), [cmd][1..]);
    assert [cmd][1..] == [];
    if IsUnit(key) {
      var a := SourceToAddress(key).value;
      UnitHasNoBlank(a);
      WalkMeets(s.nodes, key);
      assert Reaches(s.nodes, [cmd][0].address, a);
      SameActionEverywhere(s, [cmd], Off, -1, a);
    } else {
      SameActionElsewhere(s, [cmd], key);
    }
  }

  /** From the start of the service, whatever clients, worker and remote control did. */
  lemma FreshAllOff(max: int, smart: bool, actions: seq<Action>, key: string)
    requires 1 <= max && Possible(Fresh(max, smart), actions)
    requires var s := Run(Fresh(max, smart), actions);
             key in s.values && AllEnd(s.max, s.nodes, Off, -1)
    ensures var t := SubmittedAll(Run(Fresh(max, smart), actions), Each(Run(Fresh(max, smart), actions).nodes, Off, -1));
            WellFormed(t) && ValueAt(DrainAll(t).values, key) == -1
  {
    FreshRunIsListed(max, smart, actions);
    RunKeepsWellFormed(Fresh(max, smart), actions);
    AllOffReachesAll(Run(Fresh(max, smart), actions), key);
  }
}
