/**
  * The data engine's copy of the service's values (widget/data_engine/engine.cpp): values are
  * fetched when a source is added, and then follow signals that arrive in the order sent.
  */
module Mirror {
  import opened Text
  import opened Commands
  import opened Queue

  // ---------------------------------------------------------------- the engine

  /** addX10Source: the fetched value, or off when the fetch fails. */
  function Added(mirror: map<string, int>, source: string, reply: Option<int>): map<string, int> {
    if source in mirror then mirror
    else mirror[source := match reply case Some(v) => v case None => -1]
  }

  /** onSourceUpdated. */
  function Followed(mirror: map<string, int>, source: string, value: int): map<string, int> {
    if source in mirror then mirror[source := value] else mirror
  }

  /** sourceWasRemoved. */
  function Removed(mirror: map<string, int>, source: string): map<string, int> {
    if IsValidAddress(source) then mirror - {source} else mirror
  }

  class X10Engine {
    var containers: map<string, int>

    constructor ()
      ensures containers == map[]
    {
      containers := map[];
    }

    method AddX10Source(source: string, reply: Option<int>)
      modifies this
      ensures containers == Added(old(containers), source, reply)
      ensures source in containers
      ensures source !in old(containers) ==> containers[source] == match reply case Some(v) => v case None => -1
      ensures forall k :: k in old(containers) ==> k in containers && containers[k] == old(containers)[k]
      ensures forall k :: k in containers ==> k == source || k in old(containers)
    {
      if source !in containers {
        containers := containers[source := -1];
        if reply.Some? {
          containers := containers[source := reply.value];
        }
      }
    }

    method OnSourceUpdated(source: string, value: int)
      modifies this
      ensures containers == Followed(old(containers), source, value)
      ensures containers.Keys == old(containers).Keys
      ensures forall k :: k in containers ==> containers[k] == if k == source then value else old(containers)[k]
    {
      if source in containers {
        containers := containers[source := value];
      }
    }

    method SourceWasRemoved(source: string)
      modifies this
      ensures containers == Removed(old(containers), source)
      ensures IsValidAddress(source) ==> source !in containers
      ensures !IsValidAddress(source) ==> containers == old(containers)
      ensures forall k :: k != source ==> (k in containers <==> k in old(containers))
      ensures forall k :: k in containers ==> k in old(containers) && containers[k] == old(containers)[k]
    {
      if IsValidAddress(source) {
        if source in containers {
          containers := containers - {source};
        }
      }
    }
  }

  // ---------------------------------------------------------------- engine, service and wire

  /** `wire` holds the signals under way, the next to arrive first. */
  datatype System = System(service: map<string, int>, wire: seq<(string, int)>, mirror: map<string, int>)

  datatype Action =
    | Change(key: string, value: int)
    | Arrive
    | Join(source: string, fetched: bool)
    | Leave(source: string)

  function Take(s: System, a: Action): System {
    match a
    case Change(key, value) => s.(service := s.service[key := value], wire := s.wire + [(key, value)])
    case Arrive =>
      if s.wire == [] then s
      else s.(wire := s.wire[1..], mirror := Followed(s.mirror, s.wire[0].0, s.wire[0].1))
    case Join(source, fetched) =>
      if source in s.mirror then s
      else
        var key := Upper(source);
        var service := if fetched && key !in s.service then s.service[key := -1] else s.service;
        System(service, s.wire, Added(s.mirror, source, if fetched then Some(service[key]) else None))
    case Leave(source) => s.(mirror := Removed(s.mirror, source))
  }

  /** The service names its units in upper case; only addresses are added as sources. */
  predicate Enabled(a: Action) {
    match a
    case Change(key, value) => Upper(key) == key
    case Join(source, fetched) => IsValidAddress(source)
    case _ => true
  }

  function Run(s: System, actions: seq<Action>): System
    decreases |actions|
  {
    if actions == [] then s else Run(Take(s, actions[0]), actions[1..])
  }

  /** The last value under way for a key. */
  function LastSent(wire: seq<(string, int)>, key: string): Option<int> {
    if wire == [] then None
    else
      var later := LastSent(wire[1..], key);
      if later.Some? then later else if wire[0].0 == key then Some(wire[0].1) else None
  }

  /** The engine agrees with the service on a source, or will when the signals have arrived. */
  ghost predicate Follows(s: System, source: string) {
    match LastSent(s.wire, source)
    case Some(v) => v == ValueAt(s.service, source)
    case None => source in s.mirror ==> s.mirror[source] == ValueAt(s.service, source)
  }

  lemma {:induction false} LastSentAppend(wire: seq<(string, int)>, key: string, e: (string, int))
    ensures LastSent(wire + [e], key) == if e.0 == key then Some(e.1) else LastSent(wire, key)
  {
    if wire == [] {
      assert wire + [e] == [e];
      assert LastSent([e][1..], key) == None;
    } else {
      assert (wire + [e])[1..] == wire[1..] + [e];
      LastSentAppend(wire[1..], key, e);
    }
  }

  /** Every step keeps the engine following an upper-case source. */
  lemma TakeKeepsFollowing(s: System, a: Action, source: string)
    requires Follows(s, source) && Upper(source) == source
    requires a.Join? ==> a.fetched
    ensures Follows(Take(s, a), source)
  {
    match a
    case Change(key, value) => LastSentAppend(s.wire, source, (key, value));
    case _ =>
  }

  /** A source that left is forgotten; when it is added again it is fetched anew. */
  lemma LeftIsForgotten(s: System, source: string)
    requires IsValidAddress(source)
    ensures source !in Take(s, Leave(source)).mirror
    ensures forall k :: k != source && k in s.mirror ==>
                          k in Take(s, Leave(source)).mirror && Take(s, Leave(source)).mirror[k] == s.mirror[k]
    ensures var again := Take(Take(s, Leave(source)), Join(source, true));
            source in again.mirror && again.mirror[source] == ValueAt(s.service, Upper(source))
  {
  }

  /** Over every run with successful fetches the engine follows each upper-case source,
      whenever it was added; once no signal is under way, it agrees with the service. */
  lemma {:induction false} RunKeepsFollowing(s: System, actions: seq<Action>, source: string)
    requires Follows(s, source) && Upper(source) == source
    requires forall i :: 0 <= i < |actions| && actions[i].Join? ==> actions[i].fetched
    ensures Follows(Run(s, actions), source)
    ensures var t := Run(s, actions);
            t.wire == [] && source in t.mirror ==> t.mirror[source] == ValueAt(t.service, source)
    decreases |actions|
  {
    if actions != [] {
      TakeKeepsFollowing(s, actions[0], source);
      RunKeepsFollowing(Take(s, actions[0]), actions[1..], source);
    }
  }

  ghost predicate WireIsUpper(wire: seq<(string, int)>) {
    forall i :: 0 <= i < |wire| ==> Upper(wire[i].0) == wire[i].0
  }

  /** A source added in another case is fetched once and never follows. */
  lemma {:induction false} OtherCaseIsFrozen(s: System, actions: seq<Action>, source: string)
    requires WireIsUpper(s.wire) && source in s.mirror && Upper(source) != source
    requires forall i :: 0 <= i < |actions| ==> Enabled(actions[i]) && actions[i] != Leave(source)
    ensures source in Run(s, actions).mirror
    ensures Run(s, actions).mirror[source] == s.mirror[source]
    decreases |actions|
  {
    if actions != [] {
      OtherCaseIsFrozen(Take(s, actions[0]), actions[1..], source);
    }
  }

  ghost predicate Agrees(s: System, source: string) {
    s.wire == [] && source in s.mirror ==> s.mirror[source] == ValueAt(s.service, Upper(source))
  }

  ghost predicate Allowed(actions: seq<Action>) {
    forall i :: 0 <= i < |actions| ==> Enabled(actions[i]) && (actions[i].Join? ==> actions[i].fetched)
  }

  /** A quiescent engine agrees with the service on a source, in every run, exactly when the
      source is written in upper case. */
  lemma AgreesExactlyForUpperCase(source: string)
    requires IsValidAddress(source)
    ensures (forall service, actions :: Allowed(actions) ==>
                                          Agrees(Run(System(service, [], map[]), actions), source)) <==>
            Upper(source) == source
  {
    if Upper(source) == source {
      forall service, actions | Allowed(actions)
        ensures Agrees(Run(System(service, [], map[]), actions), source)
      {
        RunKeepsFollowing(System(service, [], map[]), actions, source);
      }
    } else {
      var key := Upper(source);
      UpperIsIdempotent(source);
      var s := System(map[], [], map[]);
      var s1 := Take(s, Join(source, true));
      var s2 := Take(s1, Change(key, 5));
      var s3 := Take(s2, Arrive);
      var actions := [Join(source, true), Change(key, 5), Arrive];
      assert Run(s3, []) == s3;
      assert actions[1..][1..][1..] == [];
      assert Run(s2, actions[1..][1..]) == Run(s3, actions[1..][1..][1..]);
      assert Run(s1, actions[1..]) == Run(s2, actions[1..][1..]);
      assert Run(s, actions) == s3;
      assert !Agrees(s3, source);
      assert Allowed(actions);
    }
  }
}
