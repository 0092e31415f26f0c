/** Commands for a pattern of units: the walk over the node list, what a pattern expands to,
    and when that ends. */
module Broadcast {
  import opened Text
  import opened Commands
  import opened Planner
  import opened Queue
  import opened Runs
  import opened KnownUnits

  // ---------------------------------------------------------------- the walk over the node list

  /** The node list as text, split at the blanks again. */
  function Parts(nodes: seq<string>): seq<string> { SplitSkip(Terminated(nodes, ' '), ' ') }

  /** The addresses read from the parts in turn, a part that is not read leaving the last one. */
  function Carried(parts: seq<string>, before: Address): seq<Address> {
    if parts == [] then []
    else
      var a := ReadInto(parts[0], before);
      [a] + Carried(parts[1..], a)
  }

  /** The addresses QueueCommand compares with a pattern. */
  function Walk(nodes: seq<string>): seq<Address> { Carried(Parts(nodes), Address('A', 0)) }

  /** The text of the list, split again, is the list, exactly when no key holds a blank. */
  lemma NodesTextSplits(nodes: seq<string>)
    requires forall i :: 0 <= i < |nodes| ==> IsValidAddress(nodes[i])
    ensures Parts(nodes) == nodes <==> forall i :: 0 <= i < |nodes| ==> Free(nodes[i], ' ')
  {
    SplitTerminatedExactly(nodes, ' ');
  }

  ghost predicate AllProper(walk: seq<Address>) { forall a :: a in walk ==> Proper(a) }

  /** Parts of an accepted key read as proper addresses. */
  predicate ReadsProperly(part: string) {
    part == "*" || |part| < 2 || |part| > 3 || (SourceToAddress(part).Some? && Proper(SourceToAddress(part).value))
  }

  lemma {:induction false} CarriedIsProper(parts: seq<string>, before: Address)
    requires Proper(before) && forall i :: 0 <= i < |parts| ==> ReadsProperly(parts[i])
    ensures AllProper(Carried(parts, before))
  {
    if parts != [] {
      assert ReadsProperly(parts[0]);
      CarriedIsProper(parts[1..], ReadInto(parts[0], before));
    }
  }

  /** A trailing blank does not change a one-character number. */
  lemma TrailingBlank(c: char)
    ensures ToInt([c, ' ']) == ToInt([c])
  {
    var s := [c, ' '];
    assert s[1..] == [' '] && s[..1] == [c] && [c][1..] == [] && [' '][1..] == [];
    if !IsSpace(c) {
      assert TrimLeft(s) == s && TrimRight(s) == TrimRight([c]);
    } else {
      assert TrimLeft(s) == [];
      assert TrimLeft([c]) == [];
    }
  }

  lemma {:induction false} SplitShort(s: string)
    requires |s| <= 3
    ensures forall i :: 0 <= i < |Split(s, ' ')| ==>
                          Split(s, ' ')[i] == s || |Split(s, ' ')[i]| < 2 ||
                          (|s| == 3 && s[2] == ' ' && Split(s, ' ')[i] == s[..2]) ||
                          (|s| == 3 && s[0] == ' ')
  {
    if |s| > 0 {
      SplitHead(s);
      if |s| > 1 {
        SplitHead(s[1..]);
        if |s| > 2 {
          SplitHead(s[2..]);
          assert s[2..][1..] == [];
        } else {
          assert s[1..][1..] == [];
        }
      }
    }
  }

  lemma SplitHead(s: string)
    requires s != []
    ensures var rest := Split(s[1..], ' ');
            Split(s, ' ') == if s[0] == ' ' then [[]] + rest else [[s[0]] + rest[0]] + rest[1..]
  {
  }

  lemma PartsOfKey(k: string)
    requires IsValidAddress(k)
    ensures forall i :: 0 <= i < |SplitSkip(k, ' ')| ==> ReadsProperly(SplitSkip(k, ' ')[i])
  {
    var parts := SplitSkip(k, ' ');
    SplitShort(k);
    forall i | 0 <= i < |parts|
      ensures ReadsProperly(parts[i])
    {
      assert parts[i] in parts && parts[i] in Split(k, ' ');
      if |k| == 3 && k[2] == ' ' && parts[i] == k[..2] {
        TrailingBlank(k[1]);
        assert k[1..] == [k[1], ' '] && k[..2][1..] == [k[1]];
      }
    }
  }

  lemma {:induction false} PartsOfKeys(nodes: seq<string>)
    requires forall k :: k in nodes ==> IsValidAddress(k)
    ensures forall i :: 0 <= i < |Parts(nodes)| ==> ReadsProperly(Parts(nodes)[i])
  {
    if nodes == [] {
      assert Split([], ' ') == [[]] && NonEmpty([[]]) == [] + NonEmpty([[]][1..]);
    } else {
      assert nodes[0] in nodes && forall k :: k in nodes[1..] ==> k in nodes;
      PartsOfKeys(nodes[1..]);
      PartsOfKey(nodes[0]);
      SplitSkipTerminated(nodes, ' ');
      var p, q := SplitSkip(nodes[0], ' '), Parts(nodes[1..]);
      assert Parts(nodes) == p + q;
      assert forall i :: 0 <= i < |p + q| ==> (p + q)[i] == if i < |p| then p[i] else q[i - |p|];
    }
  }

  /** Every address compared is a pattern or one unit. */
  lemma WalkIsProper(nodes: seq<string>)
    requires forall k :: k in nodes ==> IsValidAddress(k)
    ensures AllProper(Walk(nodes))
  {
    PartsOfKeys(nodes);
    CarriedIsProper(Parts(nodes), Address('A', 0));
  }

  /** A known key without blanks is among the addresses compared. */
  lemma {:induction false} WalkMeets(nodes: seq<string>, k: string)
    requires k in nodes && Free(k, ' ') && IsValidAddress(k)
    ensures SourceToAddress(k).value in Walk(nodes)
  {
    PartsMeet(nodes, k);
    CarriedMeets(Parts(nodes), k, Address('A', 0));
  }

  lemma {:induction false} PartsMeet(nodes: seq<string>, k: string)
    requires k in nodes && k != [] && Free(k, ' ')
    ensures k in Parts(nodes)
  {
    SplitSkipTerminated(nodes, ' ');
    if nodes[0] == k { SplitWhole(k, ' '); } else { PartsMeet(nodes[1..], k); }
  }

  lemma {:induction false} CarriedMeets(parts: seq<string>, k: string, before: Address)
    requires k in parts && IsValidAddress(k)
    ensures SourceToAddress(k).value in Carried(parts, before)
  {
    ReadIntoAccepted(k, before);
    if parts[0] != k { CarriedMeets(parts[1..], k, ReadInto(parts[0], before)); }
  }

  // ---------------------------------------------------------------- expansion

  predicate Matches(pattern: Address, a: Address) {
    (pattern.channel == '*' || a.channel == pattern.channel) &&
    (pattern.unit == 0 || a.unit == pattern.unit)
  }

  /**
    * The recursion of QueueCommand over the addresses of the walk, with a bound on its depth:
    * the commands finally queued, or None when the depth is exceeded.
    */
  function Expand(depth: nat, walk: seq<Address>, cmd: Command): Option<seq<Command>>
    decreases depth, |walk| + 1
  {
    if !cmd.address.Generic() then Some([cmd])
    else if depth == 0 then None
    else ExpandOver(depth, walk, walk, cmd)
  }

  function ExpandOver(depth: nat, walk: seq<Address>, rest: seq<Address>, cmd: Command): Option<seq<Command>>
    requires depth > 0
    decreases depth, |rest|
  {
    if rest == [] then Some([])
    else
      var first := if Matches(cmd.address, rest[0]) then Expand(depth - 1, walk, cmd.(address := rest[0]))
                   else Some([]);
      var others := ExpandOver(depth, walk, rest[1..], cmd);
      if first.Some? && others.Some? then Some(first.value + others.value) else None
  }

  /** One command per matching address, in the order of the walk. */
  function Targets(walk: seq<Address>, cmd: Command): seq<Command> {
    if walk == [] then []
    else (if Matches(cmd.address, walk[0]) then [cmd.(address := walk[0])] else []) + Targets(walk[1..], cmd)
  }

  /** No address the pattern matches is itself a pattern. */
  ghost predicate Ends(walk: seq<Address>, pattern: Address) {
    forall a :: a in walk && Matches(pattern, a) ==> !a.Generic()
  }

  lemma {:induction false} ExpandOverIsTargets(depth: nat, walk: seq<Address>, rest: seq<Address>, cmd: Command)
    requires depth > 0 && Ends(rest, cmd.address)
    ensures ExpandOver(depth, walk, rest, cmd) == Some(Targets(rest, cmd))
    decreases |rest|
  {
    if rest != [] {
      assert rest[0] in rest;
      assert forall a :: a in rest[1..] ==> a in rest;
      ExpandOverIsTargets(depth, walk, rest[1..], cmd);
    }
  }

  /** A pattern matches itself, so once it is met no depth is enough. */
  lemma {:induction false} ExpandDiverges(depth: nat, walk: seq<Address>, cmd: Command, a: Address)
    requires cmd.address.Generic() && a in walk && Matches(cmd.address, a) && a.Generic()
    ensures Expand(depth, walk, cmd) == None
    decreases depth, 1, 0
  {
    if depth > 0 { ExpandOverDiverges(depth, walk, walk, cmd, a); }
  }

  lemma {:induction false} ExpandOverDiverges(depth: nat, walk: seq<Address>, rest: seq<Address>, cmd: Command, a: Address)
    requires depth > 0 && cmd.address.Generic() && a in walk && a in rest && Matches(cmd.address, a) && a.Generic()
    ensures ExpandOver(depth, walk, rest, cmd) == None
    decreases depth, 0, |rest|
  {
    if rest[0] == a {
      ExpandDiverges(depth - 1, walk, cmd.(address := a), a);
    } else {
      ExpandOverDiverges(depth, walk, rest[1..], cmd, a);
    }
  }

  /** A pattern command ends exactly when it matches no pattern on the walk over the node list,
      and it then queues one command per matching address, in the order of the walk. */
  lemma BroadcastEndsExactly(nodes: seq<string>, cmd: Command)
    requires cmd.address.Generic()
    ensures (exists depth: nat :: Expand(depth, Walk(nodes), cmd).Some?) <==> Ends(Walk(nodes), cmd.address)
    ensures Ends(Walk(nodes), cmd.address) ==> Expand(1, Walk(nodes), cmd) == Some(Targets(Walk(nodes), cmd))
  {
    var walk := Walk(nodes);
    if Ends(walk, cmd.address) {
      ExpandOverIsTargets(1, walk, walk, cmd);
      assert Expand(1, walk, cmd).Some?;
    } else {
      var a :| a in walk && Matches(cmd.address, a) && a.Generic();
      forall depth: nat ensures Expand(depth, walk, cmd) == None {
        ExpandDiverges(depth, walk, cmd, a);
      }
    }
  }

  /** Asking for "E*" makes every later command for all units, or for E, recurse without end. */
  lemma AskedPatternDiverges(s: State, cmd: Command, depth: nat)
    requires Listed(s) && (cmd.address == Address('*', 0) || cmd.address == Address('E', 0))
    ensures Expand(depth, Walk(Query(s, "E*").nodes), cmd) == None
  {
    var k := "E*";
    assert k[0] == 'E' && k[1..] == "*";
    assert SourceToAddress(k) == Some(Address('E', 0));
    TouchKeepsListed(s, k);
    WalkMeets(Query(s, k).nodes, k);
    ExpandDiverges(depth, Walk(Query(s, k).nodes), cmd, Address('E', 0));
  }

  /** Nor need the key be a pattern: "E 5" names the unit E5, but its halves are read as
      nothing, which leaves the walk at the pattern it starts from. */
  lemma BlankInKeyDiverges(cmd: Command, depth: nat)
    requires cmd.address == Address('*', 0)
    ensures IsValidAddress("E 5") && SourceToAddress("E 5") == Some(Address('E', 5))
    ensures Walk(["E 5"]) == [Address('A', 0), Address('A', 0)]
    ensures Expand(depth, Walk(["E 5"]), cmd) == None
  {
    var k := "E 5";
    BlankFive();
    SplitOfBlankKey();
    assert Terminated([k], ' ') == k + [' '] + [];
    SplitSkipTerminated([k], ' ');
    assert [k][1..] == [] && Split([], ' ') == [[]] && NonEmpty([[]]) == [] + NonEmpty([[]][1..]);
    assert Parts([k]) == ["E", "5"] + [];
    var parts := ["E", "5"];
    assert parts[1..] == ["5"] && ["5"][1..] == [];
    assert Carried(parts, Address('A', 0)) == [Address('A', 0)] + ([Address('A', 0)] + Carried([], Address('A', 0)));
    ExpandDiverges(depth, Walk([k]), cmd, Address('A', 0));
  }

  /** One question is enough: from the start of the service it is the only known key. */
  lemma AskedBlankDiverges(max: int, smart: bool, cmd: Command, depth: nat)
    requires cmd.address == Address('*', 0)
    ensures Query(Fresh(max, smart), "E 5").nodes == ["E 5"]
    ensures Expand(depth, Walk(Query(Fresh(max, smart), "E 5").nodes), cmd) == None
  {
    BlankInKeyDiverges(cmd, depth);
  }

  lemma BlankFive()
    ensures ToInt(" 5") == Some(5)
  {
    var s := " 5";
    assert s[1..] == "5" && TrimLeft(s) == TrimLeft("5");
    assert Number(5) == "5";
    ToIntReadsNumber(5);
  }

  lemma SplitOfBlankKey()
    ensures SplitSkip("E 5", ' ') == ["E", "5"]
  {
    var e, five := "E", "5";
    assert "E 5" == e + [' '] + five;
    SplitField(e, ' ', five);
    SplitWhole(five, ' ');
    assert NonEmpty([e] + [five]) == [e] + NonEmpty(([e] + [five])[1..]);
    assert ([e] + [five])[1..] == [five] && NonEmpty([five]) == [five] + NonEmpty([five][1..]);
  }

  // ---------------------------------------------------------------- queueing several commands

  /** Queueing commands one after the other. */
  function EnqueueAll(s: State, cmds: seq<Command>): State
    decreases |cmds|
  {
    if cmds == [] then s else EnqueueAll(Enqueue(s, cmds[0]), cmds[1..])
  }

  /** The commands QueueCommand queues for one command: itself, or those of a pattern. */
  function Reached(nodes: seq<string>, cmd: Command): seq<Command> {
    if cmd.address.Generic() then Targets(Walk(nodes), cmd) else [cmd]
  }

  /** QueueCommand for one unit or for a pattern. */
  function Submitted(s: State, cmd: Command): State { EnqueueAll(s, Reached(s.nodes, cmd)) }

  function SubmittedAll(s: State, cmds: seq<Command>): State
    decreases |cmds|
  {
    if cmds == [] then s else SubmittedAll(Submitted(s, cmds[0]), cmds[1..])
  }

  function AllReached(nodes: seq<string>, cmds: seq<Command>): seq<Command> {
    if cmds == [] then [] else Reached(nodes, cmds[0]) + AllReached(nodes, cmds[1..])
  }

  /** A command the clients' and rules' checks let through, and its expansion ends. */
  ghost predicate Accepted(max: int, nodes: seq<string>, cmd: Command) {
    && (cmd.kind == Set ==> InRange(max, cmd.value))
    && (if cmd.address.Generic() then Ends(Walk(nodes), cmd.address) else cmd.address.Valid())
  }

  ghost predicate AllValid(max: int, cmds: seq<Command>) { forall c :: c in cmds ==> c.Valid(max) }

  lemma {:induction false} TargetsAreValid(max: int, walk: seq<Address>, cmd: Command)
    requires AllProper(walk) && Ends(walk, cmd.address) && (cmd.kind == Set ==> InRange(max, cmd.value))
    ensures AllValid(max, Targets(walk, cmd))
  {
    if walk != [] {
      assert walk[0] in walk;
      TargetsAreValid(max, walk[1..], cmd);
    }
  }

  lemma ReachedIsValid(s: State, cmd: Command)
    requires Listed(s) && Accepted(s.max, s.nodes, cmd)
    ensures AllValid(s.max, Reached(s.nodes, cmd))
  {
    WalkIsProper(s.nodes);
    if cmd.address.Generic() { TargetsAreValid(s.max, Walk(s.nodes), cmd); }
  }

  lemma {:induction false} AllReachedIsValid(s: State, cmds: seq<Command>)
    requires Listed(s) && forall c :: c in cmds ==> Accepted(s.max, s.nodes, c)
    ensures AllValid(s.max, AllReached(s.nodes, cmds))
  {
    if cmds != [] {
      assert cmds[0] in cmds && forall c :: c in cmds[1..] ==> c in cmds;
      ReachedIsValid(s, cmds[0]);
      AllReachedIsValid(s, cmds[1..]);
    }
  }

  lemma EnqueueKeepsRest(s: State, cmd: Command)
    ensures Enqueue(s, cmd).(queue := s.queue, nextId := s.nextId) == s
  {
  }

  /** Queueing touches the queue only. */
  lemma {:induction false} EnqueueAllKeepsRest(s: State, cmds: seq<Command>)
    ensures EnqueueAll(s, cmds).(queue := s.queue, nextId := s.nextId) == s
    decreases |cmds|
  {
    if cmds != [] {
      EnqueueKeepsRest(s, cmds[0]);
      EnqueueAllKeepsRest(Enqueue(s, cmds[0]), cmds[1..]);
    }
  }

  lemma {:induction false} EnqueueAllKeepsWellFormed(s: State, cmds: seq<Command>)
    requires WellFormed(s) && AllValid(s.max, cmds)
    ensures WellFormed(EnqueueAll(s, cmds))
    decreases |cmds|
  {
    if cmds != [] {
      assert cmds[0] in cmds && forall c :: c in cmds[1..] ==> c in cmds;
      EnqueueKeepsWellFormed(s, cmds[0]);
      EnqueueAllKeepsWellFormed(Enqueue(s, cmds[0]), cmds[1..]);
    }
  }

  lemma {:induction false} EnqueueAllConcat(s: State, p: seq<Command>, q: seq<Command>)
    ensures EnqueueAll(s, p + q) == EnqueueAll(EnqueueAll(s, p), q)
    decreases |p|
  {
    if p == [] {
      assert p + q == q;
    } else {
      assert (p + q)[1..] == p[1..] + q;
      EnqueueAllConcat(Enqueue(s, p[0]), p[1..], q);
    }
  }

  /** Patterns expand over the same nodes from the first command to the last. */
  lemma {:induction false} SubmittedAllIsEnqueueAll(s: State, cmds: seq<Command>)
    ensures SubmittedAll(s, cmds) == EnqueueAll(s, AllReached(s.nodes, cmds))
    decreases |cmds|
  {
    if cmds != [] {
      var t := Submitted(s, cmds[0]);
      EnqueueAllKeepsRest(s, Reached(s.nodes, cmds[0]));
      SubmittedAllIsEnqueueAll(t, cmds[1..]);
      EnqueueAllConcat(s, Reached(s.nodes, cmds[0]), AllReached(s.nodes, cmds[1..]));
    }
  }

  function Submits(cmds: seq<Command>): seq<Action> {
    if cmds == [] then [] else [Submit(cmds[0])] + Submits(cmds[1..])
  }

  /** Queueing several commands is a run of submissions. */
  lemma {:induction false} EnqueueAllIsRun(s: State, cmds: seq<Command>)
    ensures EnqueueAll(s, cmds) == Run(s, Submits(cmds))
    decreases |cmds|
  {
    if cmds != [] { EnqueueAllIsRun(Enqueue(s, cmds[0]), cmds[1..]); }
  }

  /** SetAllTo: a command for each known key. */
  function Each(nodes: seq<string>, kind: Kind, value: int): seq<Command> {
    if nodes == [] then []
    else
      (if IsValidAddress(nodes[0]) then [Command(SourceToAddress(nodes[0]).value, kind, value)] else []) +
      Each(nodes[1..], kind, value)
  }

  /** Switching all known keys ends: none is a pattern that meets a pattern on the walk. */
  ghost predicate AllEnd(max: int, nodes: seq<string>, kind: Kind, value: int) {
    forall c :: c in Each(nodes, kind, value) ==> Accepted(max, nodes, c)
  }
}
