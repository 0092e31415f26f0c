/**
  * The service as its clients see it: commands for units and patterns, rules, everything on or
  * off, in any interleaving with the worker and remote controls. Each is a run of submissions
  * for single units, so what holds of every run holds of the service.
  */
module Services {
  import opened Commands
  import opened Queue
  import opened SmartQueue
  import opened Runs
  import opened KnownUnits
  import opened Broadcast
  import opened BroadcastEffects
  import opened Notifications
  import opened Frames
  import Rules
  import RuleTexts

  datatype Request =
    | Act(action: Action)            // one unit's command, the worker, a remote control, a query
    | Order(cmd: Command)            // for one unit or a pattern
    | Execute(rule: Rules.Rule)      // a rule that fires
    | AllTo(on: bool)                // every known key on or off

  /** The commands handed to QueueCommand one after the other. */
  function Batch(s: State, r: Request): seq<Command> {
    match r
    case Act(action) => []
    case Order(cmd) => [cmd]
    case Execute(rule) => RuleTexts.RuleCommands(s.max, rule)
    case AllTo(on) => Each(s.nodes, if on then On else Off, if on then -2 else -1)
  }

  function Serve(s: State, r: Request): State {
    if r.Act? then Take(s, r.action) else SubmittedAll(s, Batch(s, r))
  }

  /** The checks of the clients and rules, and that no pattern recurses without end. */
  ghost predicate Served(s: State, r: Request) {
    if r.Act? then Enabled(s, r.action) else forall c :: c in Batch(s, r) ==> Accepted(s.max, s.nodes, c)
  }

  function ServeAll(s: State, requests: seq<Request>): State
    decreases |requests|
  {
    if requests == [] then s else ServeAll(Serve(s, requests[0]), requests[1..])
  }

  ghost predicate AllServed(s: State, requests: seq<Request>)
    decreases |requests|
  {
    requests != [] ==> Served(s, requests[0]) && AllServed(Serve(s, requests[0]), requests[1..])
  }

  /** The actions a request comes to: a submission for each unit its commands reach. */
  function Lowered(s: State, r: Request): seq<Action> {
    if r.Act? then [r.action] else Submits(AllReached(s.nodes, Batch(s, r)))
  }

  function AllLowered(s: State, requests: seq<Request>): seq<Action>
    decreases |requests|
  {
    if requests == [] then []
    else Lowered(s, requests[0]) + AllLowered(Serve(s, requests[0]), requests[1..])
  }

  // ---------------------------------------------------------------- requests are runs

  lemma {:induction false} RunConcat(s: State, p: seq<Action>, q: seq<Action>)
    ensures Run(s, p + q) == Run(Run(s, p), q)
    ensures Possible(s, p + q) <==> Possible(s, p) && Possible(Run(s, p), q)
    decreases |p|
  {
    if p == [] {
      assert p + q == q;
    } else {
      assert (p + q)[1..] == p[1..] + q;
      RunConcat(Take(s, p[0]), p[1..], q);
    }
  }

  lemma {:induction false} SubmitsArePossible(s: State, cmds: seq<Command>)
    requires AllValid(s.max, cmds)
    ensures Possible(s, Submits(cmds))
    decreases |cmds|
  {
    if cmds != [] {
      assert cmds[0] in cmds && forall c :: c in cmds[1..] ==> c in cmds;
      EnqueueKeepsRest(s, cmds[0]);
      SubmitsArePossible(Enqueue(s, cmds[0]), cmds[1..]);
    }
  }

  /** Pattern commands and rules are possible runs of submissions. */
  lemma SubmittedAllIsRun(s: State, cmds: seq<Command>)
    requires Listed(s) && forall c :: c in cmds ==> Accepted(s.max, s.nodes, c)
    ensures SubmittedAll(s, cmds) == Run(s, Submits(AllReached(s.nodes, cmds)))
    ensures Possible(s, Submits(AllReached(s.nodes, cmds)))
  {
    SubmittedAllIsEnqueueAll(s, cmds);
    EnqueueAllIsRun(s, AllReached(s.nodes, cmds));
    AllReachedIsValid(s, cmds);
    SubmitsArePossible(s, AllReached(s.nodes, cmds));
  }

  lemma ServeIsRun(s: State, r: Request)
    requires WellFormed(s) && Listed(s) && Served(s, r)
    ensures Serve(s, r) == Run(s, Lowered(s, r)) && Possible(s, Lowered(s, r))
  {
    if r.Act? {
      assert [r.action][1..] == [];
      assert Run(Take(s, r.action), []) == Take(s, r.action);
    } else {
      SubmittedAllIsRun(s, Batch(s, r));
    }
  }

  /** Whatever the service is asked for, in any order, is one possible run. */
  lemma {:induction false} ServeAllIsRun(s: State, requests: seq<Request>)
    requires WellFormed(s) && Listed(s) && AllServed(s, requests)
    ensures ServeAll(s, requests) == Run(s, AllLowered(s, requests))
    ensures Possible(s, AllLowered(s, requests))
    decreases |requests|
  {
    if requests != [] {
      var t := Serve(s, requests[0]);
      ServeIsRun(s, requests[0]);
      RunKeepsWellFormed(s, Lowered(s, requests[0]));
      RunKeepsListed(s, Lowered(s, requests[0]));
      ServeAllIsRun(t, requests[1..]);
      RunConcat(s, Lowered(s, requests[0]), AllLowered(t, requests[1..]));
    }
  }

  // ---------------------------------------------------------------- what the service promises

  /** From its start: each command queued for a unit is reported at most once and before its
      frames, no SET is sent, and the last signal of each unit is its value. */
  lemma ServiceNotifiesOnce(max: int, smart: bool, requests: seq<Request>)
    requires 1 <= max && AllServed(Fresh(max, smart), requests)
    ensures var s := ServeAll(Fresh(max, smart), requests);
            && (forall id: nat :: Count(s.log, id) <= 1)
            && (forall i :: 0 <= i < |s.log| && s.log[i].Sent? ==>
                              Count(s.log[..i], s.log[i].id) == 1 && s.log[i].cmd.kind != Set)
            && (forall key :: Shown(s.log, key) == ValueAt(s.values, key))
  {
    ServeAllIsRun(Fresh(max, smart), requests);
    FreshRunNotifiesOnce(max, smart, AllLowered(Fresh(max, smart), requests));
  }

  /** Each report and each frame belongs to a command queued for a unit that a client, a
      pattern or a rule reached. */
  lemma ServiceIsTraced(max: int, smart: bool, requests: seq<Request>)
    requires 1 <= max && AllServed(Fresh(max, smart), requests)
    ensures var actions := AllLowered(Fresh(max, smart), requests);
            Traced(ServeAll(Fresh(max, smart), requests), AllIssued(Fresh(max, smart), actions, []))
  {
    ServeAllIsRun(Fresh(max, smart), requests);
    FreshRunIsTraced(max, smart, AllLowered(Fresh(max, smart), requests));
  }

  /** The known keys stay in order, accepted and complete. */
  lemma ServiceIsListed(max: int, smart: bool, requests: seq<Request>)
    requires 1 <= max && AllServed(Fresh(max, smart), requests)
    ensures Listed(ServeAll(Fresh(max, smart), requests))
  {
    ServeAllIsRun(Fresh(max, smart), requests);
    FreshRunIsListed(max, smart, AllLowered(Fresh(max, smart), requests));
  }

  /** With the plain queue the values are those of every reached unit's command and every
      reception taking effect at once, in the order of arrival. */
  lemma PlainServiceIsAtomic(max: int, requests: seq<Request>)
    requires 1 <= max && AllServed(Fresh(max, false), requests)
    requires forall i :: 0 <= i < |requests| && requests[i].Act? ==> !requests[i].action.Mode?
    ensures SameValues(Result(ServeAll(Fresh(max, false), requests)),
                       AtomicRun(max, map[], AllLowered(Fresh(max, false), requests)))
  {
    ServeAllIsRun(Fresh(max, false), requests);
    LoweredKeepsMode(Fresh(max, false), requests);
    FreshRunIsAtomic(max, false, AllLowered(Fresh(max, false), requests));
  }

  /** Everything on lights every known unit that was off; everything off leaves every key off. */
  lemma AllToReachesAll(s: State, on: bool, key: string)
    requires WellFormed(s) && Listed(s) && key in s.values && Served(s, AllTo(on))
    ensures WellFormed(Serve(s, AllTo(on)))
    ensures var v := ValueAt(DrainAll(s).values, key);
            ValueAt(DrainAll(Serve(s, AllTo(on))).values, key) ==
            if !on || !IsUnit(key) then -1 else if v < 0 then s.max else v
  {
    if on { AllOnReachesAll(s, key); } else { AllOffReachesAll(s, key); }
  }

  lemma {:induction false} SubmitsKeepMode(cmds: seq<Command>)
    ensures forall i :: 0 <= i < |Submits(cmds)| ==> Submits(cmds)[i].Submit?
  {
    if cmds != [] { SubmitsKeepMode(cmds[1..]); }
  }

  ghost predicate NoMode(actions: seq<Action>) { forall i :: 0 <= i < |actions| ==> !actions[i].Mode? }

  lemma NoModeConcat(p: seq<Action>, q: seq<Action>)
    requires NoMode(p) && NoMode(q)
    ensures NoMode(p + q)
  {
  }

  lemma OneLoweredKeepsMode(s: State, r: Request)
    requires r.Act? ==> !r.action.Mode?
    ensures NoMode(Lowered(s, r))
  {
    if !r.Act? { SubmitsKeepMode(AllReached(s.nodes, Batch(s, r))); }
  }

  lemma {:induction false} LoweredKeepsMode(s: State, requests: seq<Request>)
    requires forall i :: 0 <= i < |requests| && requests[i].Act? ==> !requests[i].action.Mode?
    ensures NoMode(AllLowered(s, requests))
    decreases |requests|
  {
    if requests != [] {
      OneLoweredKeepsMode(s, requests[0]);
      LoweredKeepsMode(Serve(s, requests[0]), requests[1..]);
      NoModeConcat(Lowered(s, requests[0]), AllLowered(Serve(s, requests[0]), requests[1..]));
    }
  }
}
