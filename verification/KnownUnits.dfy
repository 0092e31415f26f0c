/** The known units: which keys the manager holds, and in which order it enumerates them. */
module KnownUnits {
  import opened Text
  import opened Commands
  import opened Planner
  import opened Queue
  import opened Runs

  ghost predicate Ascending(nodes: seq<string>) {
    forall i, j :: 0 <= i < j < |nodes| ==> Before(nodes[i], nodes[j])
  }

  /** Keys are accepted addresses, and only the key of a unit, as it is written by the worker,
      is ever lit. */
  ghost predicate KeysOk(values: map<string, int>) {
    && (forall k :: k in values ==> IsValidAddress(k))
    && (forall k :: k in values && values[k] != -1 ==> IsUnit(k))
  }

  /** The nodes are the keys of the value map, in strictly ascending order. */
  ghost predicate Listed(s: State) {
    Ascending(s.nodes) && (forall k :: k in s.nodes <==> k in s.values) && KeysOk(s.values)
  }

  lemma {:induction false} InsertKeyKeepsOrder(nodes: seq<string>, key: string)
    requires Ascending(nodes) && key !in nodes
    ensures Ascending(InsertKey(nodes, key))
    ensures forall k :: k in InsertKey(nodes, key) <==> k in nodes || k == key
  {
    var r := InsertKey(nodes, key);
    if nodes == [] {
    } else if Before(key, nodes[0]) {
      forall i | 0 < i < |nodes| ensures Before(key, nodes[i]) {
        BeforeIsTransitive(key, nodes[0], nodes[i]);
      }
    } else {
      var rest := InsertKey(nodes[1..], key);
      InsertKeyKeepsOrder(nodes[1..], key);
      BeforeIsTotal(key, nodes[0]);
      forall i | 0 <= i < |rest| ensures Before(nodes[0], rest[i]) {
        assert rest[i] in rest;
        if rest[i] != key { var j :| 0 < j < |nodes| && nodes[j] == rest[i]; }
      }
    }
  }

  lemma TouchKeepsListed(s: State, key: string)
    requires Listed(s) && IsValidAddress(key)
    ensures Listed(Touch(s, key)) && key in Touch(s, key).values
  {
    if key !in s.values { InsertKeyKeepsOrder(s.nodes, key); }
  }

  lemma UnitIsKey(a: Address)
    requires a.Valid()
    ensures IsValidAddress(a.ToText()) && IsUnit(a.ToText())
  {
    SourceToAddressReadsText(a);
  }

  lemma SetValueKeepsListed(s: State, key: string, v: int)
    requires Listed(s) && key in s.values && IsUnit(key)
    ensures Listed(SetValue(s, key, v))
  {
    assert forall k :: k in s.values[key := v] <==> k in s.values;
  }

  lemma ExecuteKeepsListed(s: State, id: nat, cmd: Command, notified: bool)
    requires Listed(s) && cmd.address.Valid()
    ensures Listed(Execute(s, id, cmd, notified))
  {
    var key := cmd.address.ToText();
    UnitIsKey(cmd.address);
    TouchKeepsListed(s, key);
    var s1 := Touch(s, key);
    SetValueKeepsListed(s1, key, Apply(s.max, s1.values[key], cmd.kind, cmd.value));
  }

  lemma PlanSetKeepsListed(s: State, a: Address, steps: int)
    requires Listed(s) && s.queue != [] && a.Valid()
    ensures Listed(PlanSet(s, a.ToText(), steps))
  {
    UnitIsKey(a);
    TouchKeepsListed(s, a.ToText());
  }

  lemma TurnKeepsListed(s: State)
    requires WellFormed(s) && Listed(s)
    ensures Listed(Turn(s))
  {
    if s.queue != [] {
      var older, e := s.queue[..|s.queue| - 1], s.queue[|s.queue| - 1];
      assert e in s.queue;
      if e.cmd.kind != Set {
        ExecuteKeepsListed(s.(queue := older), e.id, e.cmd, e.notified);
      } else {
        var key := e.cmd.address.ToText();
        var p := NextStep(s.max, ValueAt(s.values, key), e.cmd.value);
        PlanSetKeepsListed(s, e.cmd.address, p.steps);
        if p.next.Some? {
          ExecuteKeepsListed(PlanSet(s, key, p.steps), e.id,
                             Command(e.cmd.address, p.next.value.0, p.next.value.1), true);
        }
      }
    }
  }

  lemma ReceiveKeepsListed(s: State, a: Address, kind: Kind)
    requires Listed(s) && a.Valid()
    ensures Listed(Receive(s, a, kind))
  {
    UnitIsKey(a);
    TouchKeepsListed(s, a.ToText());
    var s1 := Touch(s, a.ToText());
    match RemoteChange(s.max, s1.values[a.ToText()], kind)
    case Some(v) => SetValueKeepsListed(s1, a.ToText(), v);
    case None =>
  }

  /** Every run keeps the list of known keys in order and complete, all keys accepted
      addresses, and only units lit. */
  lemma {:induction false} RunKeepsListed(s: State, actions: seq<Action>)
    requires WellFormed(s) && Listed(s) && Possible(s, actions)
    ensures Listed(Run(s, actions))
    decreases |actions|
  {
    if actions != [] {
      TakeKeepsWellFormed(s, actions[0]);
      match actions[0] {
        case Work => TurnKeepsListed(s);
        case Remote(address, kind) => ReceiveKeepsListed(s, address, kind);
        case Ask(source) => if IsValidAddress(source) { TouchKeepsListed(s, source); }
        case _ =>
      }
      RunKeepsListed(Take(s, actions[0]), actions[1..]);
    }
  }

  lemma FreshRunIsListed(max: int, smart: bool, actions: seq<Action>)
    requires 1 <= max && Possible(Fresh(max, smart), actions)
    ensures Listed(Run(Fresh(max, smart), actions))
  {
    RunKeepsListed(Fresh(max, smart), actions);
  }
}
