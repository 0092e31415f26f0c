/**
  * The data engine beside the queue manager itself: the wire holds the values the manager has
  * signalled and the engine has not seen, over every run of the manager.
  */
module LiveMirrors {
  import opened Text
  import opened Queue
  import opened Runs
  import opened Notifications
  import opened Mirror

  /** The values signalled, in order. */
  function Updates(log: seq<Event>): seq<(string, int)> {
    if log == [] then []
    else
      var last := log[|log| - 1];
      Updates(log[..|log| - 1]) + (if last.Updated? then [(last.key, last.value)] else [])
  }

  /** `seen` counts the signals that have arrived. */
  datatype Live = Live(manager: State, seen: nat, mirror: map<string, int>)

  ghost predicate Sane(s: Live) { s.seen <= |Updates(s.manager.log)| }

  /** The signals under way. */
  function Wire(s: Live): seq<(string, int)>
    requires s.seen <= |Updates(s.manager.log)|
  {
    Updates(s.manager.log)[s.seen..]
  }

  datatype Step =
    | Manage(action: Runs.Action)
    | Deliver
    | Attach(source: string, fetched: bool)
    | Detach(source: string)

  function Move(s: Live, step: Step): Live {
    match step
    case Manage(action) => s.(manager := Runs.Take(s.manager, action))
    case Deliver =>
      var updates := Updates(s.manager.log);
      if s.seen >= |updates| then s
      else s.(seen := s.seen + 1, mirror := Followed(s.mirror, updates[s.seen].0, updates[s.seen].1))
    case Attach(source, fetched) =>
      if source in s.mirror then s
      else
        var manager := if fetched then Query(s.manager, Upper(source)) else s.manager;
        Live(manager, s.seen,
             Added(s.mirror, source, if fetched then Some(ValueAt(manager.values, Upper(source))) else None))
    case Detach(source) => s.(mirror := Removed(s.mirror, source))
  }

  function MoveAll(s: Live, steps: seq<Step>): Live
    decreases |steps|
  {
    if steps == [] then s else MoveAll(Move(s, steps[0]), steps[1..])
  }

  // ---------------------------------------------------------------- signals and values

  lemma {:induction false} LastSentConcat(p: seq<(string, int)>, q: seq<(string, int)>, key: string)
    ensures LastSent(p + q, key) == if LastSent(q, key).Some? then LastSent(q, key) else LastSent(p, key)
  {
    if p == [] {
      assert p + q == q;
    } else {
      assert (p + q)[1..] == p[1..] + q;
      LastSentConcat(p[1..], q, key);
    }
  }

  /** The value shown by the signals is the last one sent. */
  lemma {:induction false} ShownIsLastSent(log: seq<Event>, key: string)
    ensures Shown(log, key) == match LastSent(Updates(log), key) case Some(v) => v case None => -1
  {
    if log != [] {
      var before, last := log[..|log| - 1], log[|log| - 1];
      ShownIsLastSent(before, key);
      if last.Updated? {
        LastSentAppend(Updates(before), key, (last.key, last.value));
      } else {
        assert Updates(before) + [] == Updates(before);
      }
    }
  }

  lemma {:induction false} UpdatesGrow(log: seq<Event>, more: seq<Event>)
    requires log <= more
    ensures Updates(log) <= Updates(more)
    decreases |more|
  {
    if |log| < |more| {
      UpdatesGrow(log, more[..|more| - 1]);
    } else {
      assert log == more;
    }
  }

  // ---------------------------------------------------------------- following

  /** The engine agrees with the manager on a source, or will when the signals have arrived. */
  ghost predicate Tracks(s: Live, source: string) {
    Sane(s) && InStep(s.manager) &&
    match LastSent(Wire(s), source)
    case Some(v) => v == ValueAt(s.manager.values, source)
    case None => source in s.mirror ==> s.mirror[source] == ValueAt(s.manager.values, source)
  }

  lemma ActionKeepsInStep(s: State, a: Runs.Action)
    requires InStep(s)
    ensures InStep(Runs.Take(s, a))
  {
    assert [a][1..] == [];
    assert Runs.Run(s, [a]) == Runs.Run(Runs.Take(s, a), []);
    RunStaysInStep(s, [a]);
  }

  /** New signals of the manager carry its new value, if it has one. */
  lemma ManagerKeepsTracking(s: Live, after: State, source: string)
    requires Tracks(s, source) && InStep(after) && s.manager.log <= after.log
    ensures Tracks(s.(manager := after), source)
  {
    var old', new' := Updates(s.manager.log), Updates(after.log);
    UpdatesGrow(s.manager.log, after.log);
    var more := new'[|old'|..];
    assert new' == old' + more && new'[s.seen..] == old'[s.seen..] + more;
    LastSentConcat(old'[s.seen..], more, source);
    LastSentConcat(old', more, source);
    ShownIsLastSent(s.manager.log, source);
    ShownIsLastSent(after.log, source);
    assert Shown(after.log, source) == ValueAt(after.values, source);
    assert Shown(s.manager.log, source) == ValueAt(s.manager.values, source);
  }

  lemma DeliveryKeepsTracking(s: Live, source: string)
    requires Tracks(s, source)
    ensures Tracks(Move(s, Deliver), source)
  {
    var updates := Updates(s.manager.log);
    if s.seen < |updates| {
      assert updates[s.seen..][1..] == updates[s.seen + 1..];
    }
  }

  lemma QueryKeepsTracking(s: Live, asked: string, source: string)
    requires Tracks(s, source)
    ensures Tracks(s.(manager := Query(s.manager, asked)), source)
  {
    ActionKeepsInStep(s.manager, Ask(asked));
    ManagerKeepsTracking(s, Query(s.manager, asked), source);
  }

  /** Every step of manager, wire and engine keeps an upper-case source tracked. */
  lemma MoveKeepsTracking(s: Live, step: Step, source: string)
    requires Tracks(s, source) && Upper(source) == source
    requires step.Attach? ==> step.fetched
    ensures Tracks(Move(s, step), source)
  {
    match step
    case Manage(action) =>
      ActionKeepsInStep(s.manager, action);
      TakeKeepsLog(s.manager, action);
      ManagerKeepsTracking(s, Runs.Take(s.manager, action), source);
    case Deliver => DeliveryKeepsTracking(s, source);
    case Attach(joined, fetched) => QueryKeepsTracking(s, Upper(joined), source);
    case Detach(gone) =>
  }

  lemma {:induction false} MovesKeepTracking(s: Live, steps: seq<Step>, source: string)
    requires Tracks(s, source) && Upper(source) == source
    requires forall i :: 0 <= i < |steps| && steps[i].Attach? ==> steps[i].fetched
    ensures Tracks(MoveAll(s, steps), source)
    decreases |steps|
  {
    if steps != [] {
      MoveKeepsTracking(s, steps[0], source);
      MovesKeepTracking(Move(s, steps[0]), steps[1..], source);
    }
  }

  /** From the start of the service, over every interleaving of the manager's actions, arriving
      signals, and sources that come and go: once no signal is under way, the engine shows for
      each upper-case source the value the manager shows. */
  lemma EngineShowsManager(max: int, smart: bool, steps: seq<Step>, source: string)
    requires Upper(source) == source
    requires forall i :: 0 <= i < |steps| && steps[i].Attach? ==> steps[i].fetched
    ensures var s := MoveAll(Live(Fresh(max, smart), 0, map[]), steps);
            && Tracks(s, source)
            && (Wire(s) == [] && source in s.mirror ==> s.mirror[source] == ValueAt(s.manager.values, source))
  {
    MovesKeepTracking(Live(Fresh(max, smart), 0, map[]), steps, source);
  }
}
