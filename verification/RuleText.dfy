/** Rules as text, and the commands of a rule (common/rule.cpp). */
module RuleTexts {
  import opened Text
  import opened Commands
  import opened Planner
  import opened Rules

  const AT_ON: int := 0
  const AT_OFF: int := 1
  const AT_SET: int := 2
  const AT_SEND: int := 3

  // ---------------------------------------------------------------- addresses

  predicate AddressesValid(addresses: string) {
    var fields := SplitSkip(addresses, ' ');
    fields != [] && forall f :: f in fields ==> IsValidAddress(f)
  }

  method ValidateAddress(addresses: string) returns (ok: bool)
    ensures ok <==> AddressesValid(addresses)
  {
    var fields := SplitSkip(addresses, ' ');
    if |fields| == 0 {
      return false;
    }
    ok := true;
    for i := 0 to |fields|
      invariant ok <==> forall j :: 0 <= j < i ==> IsValidAddress(fields[j])
    {
      ok := ok && IsValidAddress(fields[i]);
    }
  }

  // ---------------------------------------------------------------- one rule

  function Fields(rule: Rule): seq<string> {
    [ if rule.enabled then "1" else "0",
      Upper(rule.address),
      Number(rule.execTime),
      Number(rule.period),
      Number(rule.actionType),
      rule.action,
      Number(rule.repeatTimes),
      Number(rule.repeatPeriodMn) ]
  }

  function Serialize(rule: Rule): string { Join(Fields(rule), ',') }

  function Deserialize(params: string): Option<Rule> {
    var f := Split(params, ',');
    if |f| != 8 then None
    else
      Some(Rule(
             f[0] == "1" && AddressesValid(Upper(f[1])),
             Upper(f[1]),
             OrZero(ToInt(f[2])),
             OrZero(ToInt(f[3])),
             OrZero(ToInt(f[4])),
             f[5],
             OrZero(ToUInt(f[6])),
             OrZero(ToInt(f[7]))))
  }

  predicate Int32(n: int) { INT_MIN <= n <= INT_MAX }

  /** Text fields free of the separators, an upper-case address, and numbers of their width. */
  predicate Encodable(rule: Rule) {
    && Free(rule.address, ',') && Free(rule.address, '|')
    && Free(rule.action, ',') && Free(rule.action, '|')
    && Upper(rule.address) == rule.address
    && Int32(rule.execTime) && Int32(rule.period) && Int32(rule.actionType) && Int32(rule.repeatPeriodMn)
    && 0 <= rule.repeatTimes <= UINT_MAX
  }

  /** What survives the trip: an encodable rule that is not enabled for a wrong address. */
  predicate Transportable(rule: Rule) {
    Encodable(rule) && (rule.enabled ==> AddressesValid(rule.address))
  }

  lemma NumberIsPlain(n: int, c: char)
    requires c == ',' || c == '|'
    ensures Free(Number(n), c)
  {
    assert AllDigits(Digits(if n < 0 then -n else n));
  }

  lemma FieldsAreFree(rule: Rule, c: char)
    requires Encodable(rule) && (c == ',' || c == '|')
    ensures forall i :: 0 <= i < 8 ==> Free(Fields(rule)[i], c)
  {
    NumberIsPlain(rule.execTime, c);
    NumberIsPlain(rule.period, c);
    NumberIsPlain(rule.actionType, c);
    NumberIsPlain(rule.repeatTimes, c);
    NumberIsPlain(rule.repeatPeriodMn, c);
  }

  /** One encodable rule comes back as it was, but disabled if its address is invalid. */
  lemma RuleRoundTrip(rule: Rule)
    requires Encodable(rule)
    ensures Deserialize(Serialize(rule)) ==
            Some(rule.(enabled := rule.enabled && AddressesValid(rule.address)))
  {
    FieldsAreFree(rule, ',');
    SplitJoin(Fields(rule), ',');
    ToIntReadsNumber(rule.execTime);
    ToIntReadsNumber(rule.period);
    ToIntReadsNumber(rule.actionType);
    ToUIntReadsNumber(rule.repeatTimes);
    ToIntReadsNumber(rule.repeatPeriodMn);
  }

  lemma UpperKeepsFree(s: string, c: char)
    requires Free(s, c) && (c == ',' || c == '|')
    ensures Free(Upper(s), c)
  {
    assert forall i :: 0 <= i < |s| ==> s[i] in s && UpperChar(s[i]) != c;
  }

  /** Whatever text is read, the rule obtained can travel. */
  lemma DeserializedIsTransportable(params: string)
    requires Free(params, '|') && Deserialize(params).Some?
    ensures Transportable(Deserialize(params).value)
  {
    var f := Split(params, ',');
    if '|' in f[1] { SplitChars(params, ',', f[1], '|'); }
    if '|' in f[5] { SplitChars(params, ',', f[5], '|'); }
    UpperKeepsFree(f[1], ',');
    UpperKeepsFree(f[1], '|');
    UpperIsIdempotent(f[1]);
  }

  // ---------------------------------------------------------------- lists of rules

  function Serialized(list: seq<Rule>): seq<string> {
    if list == [] then [] else [Serialize(list[0])] + Serialized(list[1..])
  }

  /** The rules as text, each followed by a bar. */
  function ListText(list: seq<Rule>): string { Terminated(Serialized(list), '|') }

  /** The parts that read as rules. */
  function ReadAll(parts: seq<string>): seq<Rule> {
    if parts == [] then [] else AsList(Deserialize(parts[0])) + ReadAll(parts[1..])
  }

  function AsList(rule: Option<Rule>): seq<Rule> {
    match rule case Some(r) => [r] case None => []
  }

  lemma ReadAllFrom(parts: seq<string>, i: nat, list: seq<Rule>)
    requires i < |parts|
    ensures list + ReadAll(parts[i..]) ==
            (list + AsList(Deserialize(parts[i]))) + ReadAll(parts[i + 1..])
  {
    assert parts[i..][1..] == parts[i + 1..];
  }

  method SerializedRules(list: seq<Rule>) returns (output: string)
    ensures output == ListText(list)
  {
    output := "";
    var i := 0;
    while i < |list|
      invariant i <= |list|
      invariant ListText(list) == output + Terminated(Serialized(list[i..]), '|')
    {
      assert list[i..][1..] == list[i + 1..];
      assert Serialized(list[i..])[1..] == Serialized(list[i + 1..]);
      output := output + (Serialize(list[i]) + "|");
      i := i + 1;
    }
  }

  method DeserializeRules(rules: string) returns (list: seq<Rule>)
    ensures list == ReadAll(SplitSkip(rules, '|'))
  {
    list := [];
    var rulesList := SplitSkip(rules, '|');
    var i := 0;
    while i < |rulesList|
      invariant i <= |rulesList|
      invariant ReadAll(rulesList) == list + ReadAll(rulesList[i..])
    {
      ReadAllFrom(rulesList, i, list);
      var rule := Deserialize(rulesList[i]);
      list := list + AsList(rule);
      i := i + 1;
    }
  }

  lemma {:induction false} ReadAllSerialized(list: seq<Rule>)
    requires forall i :: 0 <= i < |list| ==> Encodable(list[i])
    ensures ReadAll(Serialized(list)) ==
            seq(|list|, i requires 0 <= i < |list| =>
              list[i].(enabled := list[i].enabled && AddressesValid(list[i].address)))
  {
    if list != [] {
      RuleRoundTrip(list[0]);
      ReadAllSerialized(list[1..]);
    }
  }

  lemma {:induction false} SerializedIsPlain(list: seq<Rule>)
    requires forall i :: 0 <= i < |list| ==> Encodable(list[i])
    ensures forall i :: 0 <= i < |Serialized(list)| ==>
                          Serialized(list)[i] != [] && Free(Serialized(list)[i], '|')
  {
    if list != [] {
      FieldsAreFree(list[0], '|');
      JoinChars(Fields(list[0]), ',', '|');
      assert Fields(list[0])[0] != [];
      SerializedIsPlain(list[1..]);
    }
  }

  lemma {:induction false} ReadAllIsTransportable(parts: seq<string>)
    requires forall i :: 0 <= i < |parts| ==> Free(parts[i], '|')
    ensures forall i :: 0 <= i < |ReadAll(parts)| ==> Transportable(ReadAll(parts)[i])
  {
    if parts != [] {
      ReadAllIsTransportable(parts[1..]);
      if Deserialize(parts[0]).Some? { DeserializedIsTransportable(parts[0]); }
    }
  }

  /** A list of encodable rules comes back rule by rule, those with an invalid address disabled. */
  lemma ListRoundTrip(list: seq<Rule>)
    requires forall i :: 0 <= i < |list| ==> Encodable(list[i])
    ensures ReadAll(SplitSkip(ListText(list), '|')) ==
            seq(|list|, i requires 0 <= i < |list| =>
              list[i].(enabled := list[i].enabled && AddressesValid(list[i].address)))
  {
    SerializedIsPlain(list);
    SplitTerminated(Serialized(list), '|');
    ReadAllSerialized(list);
  }

  /** The round trip gives the list back exactly when every rule of it can travel. */
  lemma ListRoundTripExactly(list: seq<Rule>)
    ensures ReadAll(SplitSkip(ListText(list), '|')) == list <==>
            forall i :: 0 <= i < |list| ==> Transportable(list[i])
  {
    if forall i :: 0 <= i < |list| ==> Transportable(list[i]) {
      ListRoundTrip(list);
    }
    var parts := SplitSkip(ListText(list), '|');
    forall i | 0 <= i < |parts| ensures Free(parts[i], '|') {
      assert parts[i] in parts;
    }
    ReadAllIsTransportable(parts);
  }

  // ---------------------------------------------------------------- the commands of a rule

  function KeepValid(parts: seq<string>): (r: seq<string>)
    ensures forall p {:trigger p in r} :: p in r <==> p in parts && IsValidAddress(p)
  {
    if parts == [] then []
    else (if IsValidAddress(parts[0]) then [parts[0]] else []) + KeepValid(parts[1..])
  }

  /** The addresses of a rule: "*" overrides the rest, invalid ones are dropped. */
  function Addresses(rule: Rule): seq<string> {
    var parts := SplitSkip(rule.address, ' ');
    if "*" in parts then ["*"] else KeepValid(parts)
  }

  /** `X10::isValidCommand` on text other than a SET. */
  predicate IsSendable(part: string) {
    |part| == 1 && part[0] != '=' && KindOf(part[0]).Some?
  }

  function Sendable(parts: seq<string>): seq<(Kind, int)> {
    if parts == [] then []
    else
      (if IsSendable(parts[0]) then [(KindOf(parts[0][0]).value, -1)] else []) + Sendable(parts[1..])
  }

  /** A part is sent exactly if it is the character of a kind other than SET. */
  lemma SendableIsCode(part: string, kind: Kind)
    ensures IsSendable(part) && KindOf(part[0]) == Some(kind) <==> kind != Set && part == [CodeOf(kind)]
  {
    if part != [] {
      KindOfInvertsCodeOf(part[0], kind);
      KindOfInvertsCodeOf(part[0], Set);
    }
  }

  predicate IsValidValue(max: int, text: string) {
    ToInt(text).Some? && -1 <= ToInt(text).value <= max
  }

  /** What a rule does at each of its addresses. */
  function Actions(max: int, rule: Rule): seq<(Kind, int)> {
    if rule.actionType == AT_ON then [(On, -1)]
    else if rule.actionType == AT_OFF then [(Off, -1)]
    else if rule.actionType == AT_SEND then Sendable(SplitSkip(rule.action, ' '))
    else if rule.actionType == AT_SET && IsValidValue(max, rule.action)
    then [(Set, ToInt(rule.action).value)]
    else []
  }

  function AtAddress(a: Address, actions: seq<(Kind, int)>): (r: seq<Command>)
    ensures |r| == |actions|
    ensures forall i :: 0 <= i < |r| ==> r[i] == Command(a, actions[i].0, actions[i].1)
  {
    if actions == [] then []
    else [Command(a, actions[0].0, actions[0].1)] + AtAddress(a, actions[1..])
  }

  function Product(addresses: seq<string>, actions: seq<(Kind, int)>): seq<Command>
    requires forall i :: 0 <= i < |addresses| ==> IsValidAddress(addresses[i])
  {
    if addresses == [] then []
    else
      assert IsValidAddress(addresses[0]);
      AtAddress(SourceToAddress(addresses[0]).value, actions) + Product(addresses[1..], actions)
  }

  lemma AddressesAreValid(rule: Rule)
    ensures forall i :: 0 <= i < |Addresses(rule)| ==> IsValidAddress(Addresses(rule)[i])
  {
    forall i | 0 <= i < |Addresses(rule)| ensures IsValidAddress(Addresses(rule)[i]) {
      assert Addresses(rule)[i] in Addresses(rule);
    }
  }

  function RuleCommands(max: int, rule: Rule): seq<Command> {
    AddressesAreValid(rule);
    Product(Addresses(rule), Actions(max, rule))
  }

  /** The loop that builds the address list. */
  method BuildAddresses(rule: Rule) returns (addresses: seq<string>)
    ensures addresses == Addresses(rule)
  {
    var parts := SplitSkip(rule.address, ' ');
    addresses := [];
    var i := 0;
    while i < |parts|
      invariant i <= |parts| && forall j :: 0 <= j < i ==> parts[j] != "*"
      invariant KeepValid(parts) == addresses + KeepValid(parts[i..])
    {
      KeepValidFrom(parts, i, addresses);
      if parts[i] == "*" {
        assert "*" in parts;
        return ["*"];
      }
      if IsValidAddress(parts[i]) {
        addresses := addresses + [parts[i]];
      }
      i := i + 1;
    }
    assert parts[i..] == [];
  }

  lemma KeepValidFrom(parts: seq<string>, i: nat, kept: seq<string>)
    requires i < |parts|
    ensures kept + KeepValid(parts[i..]) ==
            (if IsValidAddress(parts[i]) then kept + [parts[i]] else kept) + KeepValid(parts[i + 1..])
  {
    assert parts[i..][1..] == parts[i + 1..];
  }

  /** getCommands: the loop over the addresses, and inside it the actions. */
  method GetCommands(max: int, rule: Rule) returns (list: seq<Command>)
    ensures list == RuleCommands(max, rule)
  {
    AddressesAreValid(rule);
    list := [];
    var addresses := BuildAddresses(rule);
    var ad := 0;
    while ad < |addresses|
      invariant ad <= |addresses|
      invariant list + Product(addresses[ad..], Actions(max, rule)) == RuleCommands(max, rule)
    {
      ProductFrom(addresses, Actions(max, rule), ad, list);
      var some := CommandsAt(max, rule, SourceToAddress(addresses[ad]).value);
      list := list + some;
      ad := ad + 1;
    }
  }

  lemma ProductFrom(addresses: seq<string>, actions: seq<(Kind, int)>, i: nat, list: seq<Command>)
    requires i < |addresses|
    requires forall k :: 0 <= k < |addresses| ==> IsValidAddress(addresses[k])
    ensures IsValidAddress(addresses[i])
    ensures list + Product(addresses[i..], actions) ==
            (list + AtAddress(SourceToAddress(addresses[i]).value, actions)) + Product(addresses[i + 1..], actions)
  {
    assert addresses[i..][1..] == addresses[i + 1..];
  }

  /** The commands of a rule for one address. */
  method CommandsAt(max: int, rule: Rule, a: Address) returns (list: seq<Command>)
    ensures list == AtAddress(a, Actions(max, rule))
  {
    list := [];
    if rule.actionType == AT_ON {
      list := [Command(a, On, -1)];
    } else if rule.actionType == AT_OFF {
      list := [Command(a, Off, -1)];
    } else if rule.actionType == AT_SEND {
      list := Sends(rule, a);
    } else if rule.actionType == AT_SET {
      if IsValidValue(max, rule.action) {
        list := [Command(a, Set, ToInt(rule.action).value)];
      }
    }
  }

  method Sends(rule: Rule, a: Address) returns (list: seq<Command>)
    ensures list == AtAddress(a, Sendable(SplitSkip(rule.action, ' ')))
  {
    list := [];
    var actions := SplitSkip(rule.action, ' ');
    var ac := 0;
    while ac < |actions|
      invariant ac <= |actions|
      invariant list + AtAddress(a, Sendable(actions[ac..])) == AtAddress(a, Sendable(actions))
    {
      SendableFrom(actions, ac);
      if IsSendable(actions[ac]) {
        list := list + [Command(a, KindOf(actions[ac][0]).value, -1)];
      }
      ac := ac + 1;
    }
  }

  lemma SendableFrom(parts: seq<string>, i: nat)
    requires i < |parts|
    ensures var rest := Sendable(parts[i + 1..]);
            Sendable(parts[i..]) ==
            if IsSendable(parts[i]) then [(KindOf(parts[i][0]).value, -1)] + rest else rest
  {
    assert parts[i..][1..] == parts[i + 1..];
  }

  /** A rule yields the product of its addresses and its actions, address by address. */
  lemma {:induction false} ProductAt(addresses: seq<string>, actions: seq<(Kind, int)>, i: nat, j: nat)
    requires forall k :: 0 <= k < |addresses| ==> IsValidAddress(addresses[k])
    requires i < |addresses| && j < |actions|
    ensures |Product(addresses, actions)| == |addresses| * |actions|
    ensures 0 <= i * |actions| + j < |addresses| * |actions|
    ensures Product(addresses, actions)[i * |actions| + j] ==
            Command(SourceToAddress(addresses[i]).value, actions[j].0, actions[j].1)
  {
    var n := |actions|;
    ProductLength(addresses, actions);
    ProductLength(addresses[1..], actions);
    assert i * n + j < (i + 1) * n <= |addresses| * n by { MulGrows(i + 1, |addresses|, n); }
    if i > 0 {
      ProductAt(addresses[1..], actions, i - 1, j);
      assert (i - 1) * n + j == i * n + j - n;
      MulGrows(1, i, n);
    }
  }

  lemma {:induction false} ProductLength(addresses: seq<string>, actions: seq<(Kind, int)>)
    requires forall k :: 0 <= k < |addresses| ==> IsValidAddress(addresses[k])
    ensures |Product(addresses, actions)| == |addresses| * |actions|
  {
    if addresses != [] {
      ProductLength(addresses[1..], actions);
      var m, n := |addresses| - 1, |actions|;
      assert (m + 1) * n == m * n + n;
    }
  }

  /** Every command of a rule is one the queue manager accepts, and only an action SET yields a SET. */
  lemma RuleCommandsAreAccepted(max: int, rule: Rule)
    ensures forall c :: c in RuleCommands(max, rule) ==>
                          && (c.address.Generic() || c.address.Valid())
                          && (c.kind == Set ==> rule.actionType == AT_SET && InRange(max, c.value))
  {
    AddressesAreValid(rule);
    SendableIsNeverSet(SplitSkip(rule.action, ' '));
    ProductMembers(Addresses(rule), Actions(max, rule));
  }

  lemma {:induction false} SendableIsNeverSet(parts: seq<string>)
    ensures forall i :: 0 <= i < |Sendable(parts)| ==> Sendable(parts)[i].0 != Set
  {
    if parts != [] { SendableIsNeverSet(parts[1..]); }
  }

  lemma {:induction false} ProductMembers(addresses: seq<string>, actions: seq<(Kind, int)>)
    requires forall k :: 0 <= k < |addresses| ==> IsValidAddress(addresses[k])
    ensures forall c :: c in Product(addresses, actions) ==>
                          && (c.address.Generic() || c.address.Valid())
                          && exists j :: 0 <= j < |actions| && c.kind == actions[j].0 && c.value == actions[j].1
  {
    if addresses != [] {
      ProductMembers(addresses[1..], actions);
      forall c | c in AtAddress(SourceToAddress(addresses[0]).value, actions)
        ensures exists j :: 0 <= j < |actions| && c.kind == actions[j].0 && c.value == actions[j].1
      {
      }
    }
  }
}
