/** From the text of a rule to the values of the units. */
module RuleEffects {
  import opened Text
  import opened Commands
  import opened Planner
  import opened Queue
  import opened SmartQueue
  import opened KnownUnits
  import opened Broadcast
  import opened BroadcastEffects
  import opened RuleTexts

  /** What a rule with one action makes of a value: type 0 is ON, 1 OFF, 2 SET. */
  function Wanted(max: int, rule: Rules.Rule, v: int): int {
    if rule.actionType == 0 then (if v == -1 then max else v)
    else if rule.actionType == 1 then -1
    else if ToInt(rule.action).Some? then ToInt(rule.action).value
    else v
  }

  /** ON, OFF, or a SET with a value in range. */
  predicate OneAction(max: int, rule: Rules.Rule) {
    rule.actionType == 0 || rule.actionType == 1 ||
    (rule.actionType == 2 && ToInt(rule.action).Some? && -1 <= ToInt(rule.action).value <= max)
  }

  /** One of the rule's addresses is the unit, or a pattern that matches it on the walk. */
  predicate Names(rule: Rules.Rule, nodes: seq<string>, a: Address) {
    exists i :: 0 <= i < |Addresses(rule)| && NamedBy(Addresses(rule)[i], nodes, a)
  }

  predicate NamedBy(address: string, nodes: seq<string>, a: Address) {
    IsValidAddress(address) && Reaches(nodes, SourceToAddress(address).value, a)
  }

  /** No pattern of the rule matches a pattern on the walk: its commands are all queued. */
  ghost predicate RuleEnds(max: int, rule: Rules.Rule, nodes: seq<string>) {
    forall c :: c in RuleCommands(max, rule) && c.address.Generic() ==> Ends(Walk(nodes), c.address)
  }

  lemma RuleIsAccepted(max: int, rule: Rules.Rule, nodes: seq<string>)
    requires RuleEnds(max, rule, nodes)
    ensures forall c :: c in RuleCommands(max, rule) ==> Accepted(max, nodes, c)
  {
    RuleCommandsAreAccepted(max, rule);
  }

  lemma OneActionEach(addresses: seq<string>, action: (Kind, int))
    requires forall i :: 0 <= i < |addresses| ==> IsValidAddress(addresses[i])
    ensures var cmds := Product(addresses, [action]);
            && |cmds| == |addresses|
            && forall i :: 0 <= i < |cmds| ==>
                             cmds[i] == Command(SourceToAddress(addresses[i]).value, action.0, action.1)
  {
    ProductLength(addresses, [action]);
    forall i | 0 <= i < |addresses|
      ensures Product(addresses, [action])[i] == Command(SourceToAddress(addresses[i]).value, action.0, action.1)
    {
      ProductAt(addresses, [action], i, 0);
    }
  }

  /**
    * A rule for any list of units and patterns, executed and drained in either queue mode:
    * each unit it names is left as the rule says, from the value the queue already stood for;
    * every other unit is left as it would have been without the rule.
    */
  lemma RuleReaches(s: State, t: State, rule: Rules.Rule, a: Address)
    requires WellFormed(s) && Listed(s) && a.Valid()
    requires OneAction(s.max, rule) && RuleEnds(s.max, rule, s.nodes)
    requires t == SubmittedAll(s, RuleCommands(s.max, rule))
    ensures WellFormed(t) && DrainAll(t).queue == []
    ensures var v := ValueAt(DrainAll(s).values, a.ToText());
            ValueAt(DrainAll(t).values, a.ToText()) == if Names(rule, s.nodes, a) then Wanted(s.max, rule, v) else v
  {
    var cmds := RuleCommands(s.max, rule);
    var kind, value := RuleHasOneAction(s.max, rule);
    RuleIsAccepted(s.max, rule, s.nodes);
    NamesIsReaches(rule, s.nodes, cmds, a);
    SameActionEverywhere(s, cmds, kind, value, a);
    DrainedIsInRange(s, a.ToText());
    DrainRefinesAtomic(t);
  }

  /** The commands of such a rule are its action at each of its addresses. */
  lemma RuleHasOneAction(max: int, rule: Rules.Rule) returns (kind: Kind, value: int)
    requires OneAction(max, rule)
    ensures !kind.IsStep()
    ensures forall v :: -1 <= v <= max ==> Apply(max, v, kind, value) == Wanted(max, rule, v)
    ensures var cmds := RuleCommands(max, rule);
            && |cmds| == |Addresses(rule)|
            && (forall c :: c in cmds ==> c.kind == kind && c.value == value)
            && forall i :: 0 <= i < |cmds| ==>
                             IsValidAddress(Addresses(rule)[i]) && cmds[i].address == SourceToAddress(Addresses(rule)[i]).value
  {
    var action := Actions(max, rule)[0];
    kind, value := action.0, action.1;
    assert Actions(max, rule) == [action];
    AddressesAreValid(rule);
    OneActionEach(Addresses(rule), action);
  }

  lemma DrainedIsInRange(s: State, key: string)
    requires WellFormed(s)
    ensures InRange(s.max, ValueAt(DrainAll(s).values, key))
  {
    DrainRefinesAtomic(s);
    DrainKeepsMax(s);
  }

  lemma NamesIsReaches(rule: Rules.Rule, nodes: seq<string>, cmds: seq<Command>, a: Address)
    requires |cmds| == |Addresses(rule)|
    requires forall i :: 0 <= i < |cmds| ==>
                           IsValidAddress(Addresses(rule)[i]) && cmds[i].address == SourceToAddress(Addresses(rule)[i]).value
    ensures Names(rule, nodes, a) <==> exists i :: 0 <= i < |cmds| && Reaches(nodes, cmds[i].address, a)
  {
    assert forall i :: 0 <= i < |cmds| ==>
                         (NamedBy(Addresses(rule)[i], nodes, a) <==> Reaches(nodes, cmds[i].address, a));
  }

  lemma {:induction false} DrainKeepsMax(s: State)
    requires WellFormed(s)
    ensures DrainAll(s).max == s.max
    decreases |s.queue|, RemainingSteps(s)
  {
    if s.queue != [] {
      TurnKeepsResult(s);
      TurnProgresses(s);
      Runs.TurnKeepsMax(s);
      DrainKeepsMax(Turn(s));
    }
  }

  /** Any rule, steps and several actions included, in either queue mode: each unit is left as
      its own queued commands and those of the rule that reach it leave it, in order. */
  lemma AnyRule(s: State, t: State, rule: Rules.Rule, a: Address)
    requires WellFormed(s) && Listed(s) && a.Valid() && RuleEnds(s.max, rule, s.nodes)
    requires t == SubmittedAll(s, RuleCommands(s.max, rule))
    ensures WellFormed(t)
    ensures var own := For(AllReached(s.nodes, RuleCommands(s.max, rule)), a);
            && ValueAt(DrainAll(t).values, a.ToText()) ==
               UnitResult(s.max, ValueAt(s.values, a.ToText()), OnUnitAll(s.smart, Cmds(s.queue, a), own))
            && (!s.smart ==>
                  ValueAt(DrainAll(t).values, a.ToText()) ==
                  Folded(s.max, ValueAt(DrainAll(s).values, a.ToText()), own))
  {
    RuleIsAccepted(s.max, rule, s.nodes);
    SubmittedAllIsEnqueueAll(s, RuleCommands(s.max, rule));
    AllReachedIsValid(s, RuleCommands(s.max, rule));
    EnqueueAllEffect(s, AllReached(s.nodes, RuleCommands(s.max, rule)), a);
  }

  /** Keys that are no unit stay off under every rule. */
  lemma RuleLeavesOthers(s: State, t: State, rule: Rules.Rule, key: string)
    requires WellFormed(s) && Listed(s) && !IsUnit(key) && RuleEnds(s.max, rule, s.nodes)
    requires t == SubmittedAll(s, RuleCommands(s.max, rule))
    ensures WellFormed(t) && ValueAt(DrainAll(t).values, key) == -1
  {
    RuleIsAccepted(s.max, rule, s.nodes);
    SameActionElsewhere(s, RuleCommands(s.max, rule), key);
  }

  /** A rule with "*" among its addresses, executed and drained, leaves every known unit as the
      rule says, and every other known key off. */
  lemma AllUnitsRule(s: State, t: State, rule: Rules.Rule, key: string)
    requires WellFormed(s) && Listed(s) && key in s.values
    requires OneAction(s.max, rule) && "*" in SplitSkip(rule.address, ' ') && RuleEnds(s.max, rule, s.nodes)
    requires t == SubmittedAll(s, RuleCommands(s.max, rule))
    ensures WellFormed(t) && DrainAll(t).queue == []
    ensures ValueAt(DrainAll(t).values, key) ==
            if IsUnit(key) then Wanted(s.max, rule, ValueAt(DrainAll(s).values, key)) else -1
  {
    RuleLeavesOrReaches(s, t, rule, key);
    DrainRefinesAtomic(t);
  }

  lemma RuleLeavesOrReaches(s: State, t: State, rule: Rules.Rule, key: string)
    requires WellFormed(s) && Listed(s) && key in s.values
    requires OneAction(s.max, rule) && "*" in SplitSkip(rule.address, ' ') && RuleEnds(s.max, rule, s.nodes)
    requires t == SubmittedAll(s, RuleCommands(s.max, rule))
    ensures WellFormed(t)
    ensures ValueAt(DrainAll(t).values, key) ==
            if IsUnit(key) then Wanted(s.max, rule, ValueAt(DrainAll(s).values, key)) else -1
  {
    if IsUnit(key) {
      var a := SourceToAddress(key).value;
      UnitHasNoBlank(a);
      WalkMeets(s.nodes, key);
      assert Addresses(rule) == ["*"];
      assert NamedBy(Addresses(rule)[0], s.nodes, a);
      RuleReaches(s, t, rule, a);
    } else {
      RuleLeavesOthers(s, t, rule, key);
    }
  }

  // ---------------------------------------------------------------- rules that send

  lemma KeyIsOneWord(a: Address)
    requires a.Valid()
    ensures a.ToText() != [] && Free(a.ToText(), ' ') && a.ToText() != "*"
  {
    UnitHasNoBlank(a);
  }

  /** A SEND rule of one character for one unit with nothing queued does what the character says. */
  lemma OneCharacterActs(s: State, t: State, rule: Rules.Rule, a: Address, kind: Kind)
    requires WellFormed(s) && Listed(s) && a.Valid() && Cmds(s.queue, a) == []
    requires rule.actionType == 3 && rule.address == a.ToText() && rule.action == [CodeOf(kind)] && kind != Set
    requires t == SubmittedAll(s, RuleCommands(s.max, rule))
    ensures RuleCommands(s.max, rule) == [Command(a, kind, -1)]
    ensures WellFormed(t)
    ensures ValueAt(DrainAll(t).values, a.ToText()) == Apply(s.max, ValueAt(s.values, a.ToText()), kind, -1)
  {
    OneCharacterCommand(s.max, rule, a, kind);
    var c := Command(a, kind, -1);
    assert Reached(s.nodes, c) == [c] && [c][1..] == [];
    AnyRule(s, t, rule, a);
    assert AllReached(s.nodes, [c]) == [c] + AllReached(s.nodes, []);
    assert For([c], a) == [c];
    assert OnUnitAll(s.smart, [], [c]) == OnUnitAll(s.smart, OnUnit(s.smart, [], c), []);
    assert OnUnit(s.smart, [], c) == [c];
  }

  lemma OneCharacterCommand(max: int, rule: Rules.Rule, a: Address, kind: Kind)
    requires a.Valid() && rule.actionType == 3 && rule.address == a.ToText()
    requires rule.action == [CodeOf(kind)] && kind != Set
    ensures RuleCommands(max, rule) == [Command(a, kind, -1)]
  {
    var key := a.ToText();
    KeyIsOneWord(a);
    SourceToAddressReadsText(a);
    KindOfInvertsCodeOf(CodeOf(kind), kind);
    SplitSkipJoin([key], ' ');
    SplitSkipJoin([rule.action], ' ');
    assert Join([key], ' ') == key && Join([rule.action], ' ') == rule.action;
    AddressOne(rule, key);
    SendableOne(rule.action, kind);
    AddressesAreValid(rule);
    OneActionEach([key], (kind, -1));
  }

  lemma AddressOne(rule: Rules.Rule, key: string)
    requires SplitSkip(rule.address, ' ') == [key] && key != "*" && IsValidAddress(key)
    ensures Addresses(rule) == [key]
  {
    assert KeepValid([key]) == [key] + KeepValid([key][1..]);
  }

  lemma SendableOne(part: string, kind: Kind)
    requires part == [CodeOf(kind)] && kind != Set
    ensures Sendable([part]) == [(kind, -1)]
  {
    SendableIsCode(part, kind);
    assert [part][1..] == [];
  }

  /** What a character makes of a value: "+" lights an off unit, "-" switches off, "s" and "b" go
      one step from the value, an off unit being lit first. */
  function CharacterMakes(max: int, v: int, c: char): int {
    if c == '+' then (if v == -1 then max else v)
    else if c == '-' then -1
    else if c == 's' then (if v == -1 then max - 1 else if v == 0 then 0 else v - 1)
    else if c == 'b' then (if v == -1 || v == max then max else v + 1)
    else v
  }

  /** A rule that sends one character to a unit with nothing queued. */
  lemma CharactersOfRules(s: State, t: State, rule: Rules.Rule, a: Address, c: char)
    requires WellFormed(s) && Listed(s) && a.Valid() && Cmds(s.queue, a) == []
    requires rule.actionType == 3 && rule.address == a.ToText() && rule.action == [c] && c in "+-sbiudlr"
    requires t == SubmittedAll(s, RuleCommands(s.max, rule))
    ensures WellFormed(t)
    ensures ValueAt(DrainAll(t).values, a.ToText()) == CharacterMakes(s.max, ValueAt(s.values, a.ToText()), c)
  {
    var kind := KindOfCharacter(s.max, c);
    OneCharacterActs(s, t, rule, a, kind);
    UnitInRange(s, a);
  }

  lemma KindOfCharacter(max: int, c: char) returns (kind: Kind)
    requires c in "+-sbiudlr"
    ensures kind != Set && CodeOf(kind) == c
    ensures forall v :: 1 <= max && -1 <= v <= max ==> Apply(max, v, kind, -1) == CharacterMakes(max, v, c)
  {
    var k: nat :| k < 9 && "+-sbiudlr"[k] == c;
    CodesAreThoseOfTheProgram(k + 1);
    kind := KINDS[k + 1];
    assert "=+-sbiudlr"[k + 1] == c;
    forall v | 1 <= max && -1 <= v <= max
      ensures Apply(max, v, kind, -1) == CharacterMakes(max, v, c)
    {
      CharacterIsKind(max, v, k);
    }
  }

  lemma UnitInRange(s: State, a: Address)
    requires WellFormed(s)
    ensures 1 <= s.max && InRange(s.max, ValueAt(s.values, a.ToText()))
  {
  }

  lemma CharacterIsKind(max: int, v: int, k: nat)
    requires 1 <= max && InRange(max, v) && k < 9
    ensures Apply(max, v, KINDS[k + 1], -1) == CharacterMakes(max, v, "+-sbiudlr"[k])
  {
  }

  lemma KeysAreWords(units: seq<Address>, w: string)
    requires (forall u :: u in units ==> u.Valid()) && w in KeysOf(units)
    ensures w != [] && Free(w, ' ') && w != "*" && IsValidAddress(w)
  {
    var i :| 0 <= i < |units| && KeysOf(units)[i] == w;
    assert units[i] in units;
    KeyIsOneWord(units[i]);
    SourceToAddressReadsText(units[i]);
  }

  lemma WrittenAddresses(rule: Rules.Rule, words: seq<string>)
    requires forall w :: w in words ==> w != [] && Free(w, ' ') && w != "*" && IsValidAddress(w)
    requires rule.address == Join(words, ' ')
    ensures Addresses(rule) == words
  {
    SplitSkipJoin(words, ' ');
    AllKept(words);
  }

  /** A rule whose addresses are written as units names exactly these. */
  lemma NamesWhatIsWritten(rule: Rules.Rule, nodes: seq<string>, units: seq<Address>, a: Address)
    requires a.Valid() && (forall u :: u in units ==> u.Valid()) && rule.address == Join(KeysOf(units), ' ')
    ensures Names(rule, nodes, a) <==> a in units
  {
    forall w | w in KeysOf(units)
      ensures w != [] && Free(w, ' ') && w != "*" && IsValidAddress(w)
    {
      KeysAreWords(units, w);
    }
    WrittenAddresses(rule, KeysOf(units));
    NamedByKeys(rule, nodes, units, a);
  }

  lemma NamedByKeys(rule: Rules.Rule, nodes: seq<string>, units: seq<Address>, a: Address)
    requires a.Valid() && (forall u :: u in units ==> u.Valid()) && Addresses(rule) == KeysOf(units)
    ensures Names(rule, nodes, a) <==> a in units
  {
    forall i | 0 <= i < |units|
      ensures NamedBy(Addresses(rule)[i], nodes, a) <==> units[i] == a
    {
      assert units[i] in units;
      SourceToAddressReadsText(units[i]);
    }
  }

  function KeysOf(units: seq<Address>): (r: seq<string>)
    ensures |r| == |units| && forall i :: 0 <= i < |r| ==> r[i] == units[i].ToText()
  {
    if units == [] then [] else [units[0].ToText()] + KeysOf(units[1..])
  }

  lemma {:induction false} AllKept(words: seq<string>)
    requires forall w :: w in words ==> IsValidAddress(w)
    ensures KeepValid(words) == words
  {
    if words != [] {
      assert words[0] in words && forall w :: w in words[1..] ==> w in words;
      AllKept(words[1..]);
    }
  }
}
