/**
  * What the text of a rule means: its fields in the order written, its type and action, its
  * addresses; from the text itself rather than through the functions that read it.
  */
module RuleMeanings {
  import opened Text
  import opened Commands
  import opened Rules
  import opened RuleTexts

  // ---------------------------------------------------------------- the fields

  /** Eight fields in a fixed order, with commas between them. */
  lemma SerializedText(rule: Rule)
    ensures Serialize(rule) ==
            (if rule.enabled then "1" else "0") + "," + (Upper(rule.address) + "," + (Number(rule.execTime) + "," + (
                                                                                        Number(rule.period) + "," + (Number(rule.actionType) + "," + (rule.action + "," + (
                                                                                                                                                        Number(rule.repeatTimes) + "," + Number(rule.repeatPeriodMn)))))))
  {
    var f := Fields(rule);
    assert f[0..] == f;
    JoinFrom(f, 7);
    JoinFrom(f, 6);
    JoinFrom(f, 5);
    JoinFrom(f, 4);
    JoinFrom(f, 3);
    JoinFrom(f, 2);
    JoinFrom(f, 1);
    JoinFrom(f, 0);
  }

  lemma JoinFrom(f: seq<string>, i: nat)
    requires |f| == 8 && i < 8
    ensures Join(f[i..], ',') == if i == 7 then f[7] else f[i] + [','] + Join(f[i + 1..], ',')
  {
    assert i < 7 ==> f[i..][1..] == f[i + 1..];
  }

  /** A text of comma-free fields is a rule exactly if there are eight, and what each is read as. */
  lemma EightFieldsAreARule(fields: seq<string>)
    requires fields != [] && forall i :: 0 <= i < |fields| ==> Free(fields[i], ',')
    ensures Deserialize(Join(fields, ',')).Some? <==> |fields| == 8
    ensures |fields| == 8 ==>
              var rule := Deserialize(Join(fields, ',')).value;
              && (rule.enabled <==> fields[0] == "1" && AddressesValid(Upper(fields[1])))
              && rule.address == Upper(fields[1])
              && rule.execTime == OrZero(ToInt(fields[2]))
              && rule.period == OrZero(ToInt(fields[3]))
              && rule.actionType == OrZero(ToInt(fields[4]))
              && rule.action == fields[5]
              && rule.repeatTimes == OrZero(ToUInt(fields[6]))
              && rule.repeatPeriodMn == OrZero(ToInt(fields[7]))
  {
    SplitJoin(fields, ',');
  }

  /** A field that is no number of its width is read as 0. */
  lemma NoNumberIsZero(fields: seq<string>)
    requires |fields| == 8 && forall i :: 0 <= i < |fields| ==> Free(fields[i], ',')
    ensures Deserialize(Join(fields, ',')).Some?
    ensures var rule := Deserialize(Join(fields, ',')).value;
            && (ToInt(fields[2]) == None ==> rule.execTime == 0)
            && (ToInt(fields[3]) == None ==> rule.period == 0)
            && (ToInt(fields[4]) == None ==> rule.actionType == 0)
            && (ToUInt(fields[6]) == None ==> rule.repeatTimes == 0)
            && (ToInt(fields[7]) == None ==> rule.repeatPeriodMn == 0)
  {
    EightFieldsAreARule(fields);
  }

  // ---------------------------------------------------------------- addresses

  /** Words separated by blanks are a valid address list exactly if there is one and all are
      addresses. */
  lemma AddressListIsValid(words: seq<string>)
    requires forall w :: w in words ==> w != [] && Free(w, ' ')
    ensures AddressesValid(Join(words, ' ')) <==> words != [] && forall w :: w in words ==> SourceToAddress(w).Some?
  {
    SplitSkipJoin(words, ' ');
  }

  lemma KeepFirst(word: string, rest: seq<string>)
    ensures KeepValid([word] + rest) == (if SourceToAddress(word).Some? then [word] else []) + KeepValid(rest)
  {
    assert ([word] + rest)[1..] == rest;
  }

  lemma Regroup<T>(p: seq<T>, q: seq<T>, r: seq<T>)
    ensures p + (q + r) == (p + q) + r
  {
  }

  lemma {:induction false} KeepConcat(before: seq<string>, after: seq<string>)
    ensures KeepValid(before + after) == KeepValid(before) + KeepValid(after)
  {
    if before == [] {
      assert before + after == after;
    } else {
      var word, rest := before[0], before[1..];
      KeepConcat(rest, after);
      KeepFirst(word, rest);
      KeepFirst(word, rest + after);
      Regroup([word], rest, after);
      Regroup(if SourceToAddress(word).Some? then [word] else [], KeepValid(rest), KeepValid(after));
      assert before == [word] + rest;
    }
  }

  lemma KeepValidAround(before: seq<string>, word: string, after: seq<string>)
    ensures KeepValid(before + ([word] + after)) ==
            KeepValid(before) + ((if SourceToAddress(word).Some? then [word] else []) + KeepValid(after))
  {
    KeepConcat(before, [word] + after);
    KeepFirst(word, after);
  }

  /** A "*" among the addresses stands for all of them; otherwise each address stays in its place
      and what is none is dropped. */
  lemma AddressesOfRule(rule: Rule, before: seq<string>, word: string, after: seq<string>)
    requires forall w :: w in before + ([word] + after) ==> w != [] && Free(w, ' ')
    requires rule.address == Join(before + ([word] + after), ' ')
    ensures "*" in before + ([word] + after) ==> Addresses(rule) == ["*"]
    ensures "*" !in before + ([word] + after) ==>
              Addresses(rule) == KeepValid(before) + ((if SourceToAddress(word).Some? then [word] else []) + KeepValid(after))
  {
    SplitSkipJoin(before + ([word] + after), ' ');
    KeepValidAround(before, word, after);
  }

  // ---------------------------------------------------------------- types and actions

  /** The types in the order in which the program lists them: 0 is ON, 1 OFF, 2 SET; any other but
      3 gives no command. */
  lemma ActionOfType(max: int, rule: Rule, v: int)
    ensures rule.actionType == 0 ==> Actions(max, rule) == [(On, -1)]
    ensures rule.actionType == 1 ==> Actions(max, rule) == [(Off, -1)]
    ensures rule.actionType == 2 && rule.action == Number(v) && -2147483648 <= v <= 2147483647 ==>
              Actions(max, rule) == if -1 <= v <= max then [(Set, v)] else []
    ensures rule.actionType == 2 && ToInt(rule.action) == None ==> Actions(max, rule) == []
    ensures rule.actionType !in [0, 1, 2, 3] ==> Actions(max, rule) == []
  {
    ToIntReadsNumber(v);
  }

  /** The characters of kinds, as words. */
  function Codes(kinds: seq<Kind>): (r: seq<string>)
    ensures |r| == |kinds| && forall i :: 0 <= i < |r| ==> r[i] == [CodeOf(kinds[i])]
  {
    if kinds == [] then [] else [[CodeOf(kinds[0])]] + Codes(kinds[1..])
  }

  function Paired(kinds: seq<Kind>): (r: seq<(Kind, int)>)
    ensures |r| == |kinds| && forall i :: 0 <= i < |r| ==> r[i] == (kinds[i], -1)
  {
    if kinds == [] then [] else [(kinds[0], -1)] + Paired(kinds[1..])
  }

  /** The kinds, other than SET, whose character is a part by itself, in order. */
  ghost function KindsIn(parts: seq<string>): seq<Kind> {
    if parts == [] then []
    else (if IsCode(parts[0]) then [KindWithCode(parts[0])] else []) + KindsIn(parts[1..])
  }

  ghost predicate IsCode(part: string) { exists kind: Kind :: kind != Set && part == [CodeOf(kind)] }

  ghost function KindWithCode(part: string): (kind: Kind)
    requires IsCode(part)
    ensures kind != Set && part == [CodeOf(kind)]
  {
    var kind: Kind :| kind != Set && part == [CodeOf(kind)];
    kind
  }

  lemma CodeIsSendable(part: string)
    ensures IsSendable(part) <==> IsCode(part)
    ensures IsCode(part) ==> KindOf(part[0]) == Some(KindWithCode(part))
  {
    if IsSendable(part) {
      var kind := KindOf(part[0]).value;
      SendableIsCode(part, kind);
      assert IsCode(part);
    }
    if IsCode(part) { SendableIsCode(part, KindWithCode(part)); }
  }

  lemma {:induction false} SendableAreCodes(parts: seq<string>)
    ensures Sendable(parts) == Paired(KindsIn(parts))
  {
    if parts != [] {
      CodeIsSendable(parts[0]);
      SendableAreCodes(parts[1..]);
      if IsCode(parts[0]) {
        var kind := KindWithCode(parts[0]);
        assert ([kind] + KindsIn(parts[1..]))[1..] == KindsIn(parts[1..]);
      } else {
        assert [] + KindsIn(parts[1..]) == KindsIn(parts[1..]);
      }
    }
  }

  /** Whatever the action of a SEND rule, it gives the kinds whose character is one of its parts,
      in order, and nothing for the other parts. */
  lemma SendsItsCharacters(max: int, rule: Rule)
    requires rule.actionType == 3
    ensures Actions(max, rule) == Paired(KindsIn(SplitSkip(rule.action, ' ')))
  {
    SendableAreCodes(SplitSkip(rule.action, ' '));
  }

  lemma CodesDiffer(a: Kind, b: Kind)
    requires CodeOf(a) == CodeOf(b)
    ensures a == b
  {
  }

  lemma {:induction false} KindsInCodes(kinds: seq<Kind>)
    requires Set !in kinds
    ensures KindsIn(Codes(kinds)) == kinds
  {
    if kinds != [] {
      assert kinds[0] in kinds && forall k :: k in kinds[1..] ==> k in kinds;
      var code := [CodeOf(kinds[0])];
      assert IsCode(code);
      CodesDiffer(KindWithCode(code), kinds[0]);
      assert Codes(kinds)[1..] == Codes(kinds[1..]);
      KindsInCodes(kinds[1..]);
    }
  }

  /** An action written with the characters of kinds gives these kinds, in order. */
  lemma SendsWhatIsWritten(max: int, rule: Rule, kinds: seq<Kind>)
    requires rule.actionType == 3 && Set !in kinds && rule.action == Join(Codes(kinds), ' ')
    ensures Actions(max, rule) == Paired(kinds)
  {
    forall w | w in Codes(kinds)
      ensures w != [] && Free(w, ' ')
    {
      var i :| 0 <= i < |kinds| && Codes(kinds)[i] == w;
      NotABlank(kinds[i]);
    }
    SplitSkipJoin(Codes(kinds), ' ');
    KindsInCodes(kinds);
    SendsItsCharacters(max, rule);
  }

  lemma NotABlank(kind: Kind)
    ensures Free([CodeOf(kind)], ' ')
  {
  }
}
