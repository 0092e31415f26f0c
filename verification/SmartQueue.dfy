/** What the smart queue erases, and when the values do not show it. */
module SmartQueue {
  import opened Commands
  import opened Planner
  import opened Queue

  ghost predicate SameValues(m: map<string, int>, n: map<string, int>) {
    forall k :: ValueAt(m, k) == ValueAt(n, k)
  }

  ghost predicate Concrete(queue: seq<Entry>) {
    forall e :: e in queue ==> !e.cmd.address.Generic()
  }

  // ---------------------------------------------------------------- SET and OFF

  /** Erasing the commands of one unit changes the result at that unit only. */
  lemma {:induction false} WithoutDrains(max: int, values: map<string, int>, q: seq<Entry>, a: Address)
    requires !a.Generic() && Concrete(q)
    ensures Drained(max, values, Without(q, a)) - {a.ToText()} ==
            Drained(max, values, q) - {a.ToText()}
  {
    if q != [] {
      WithoutDrains(max, values, q[1..], a);
      var kept, all := Drained(max, values, Without(q[1..], a)), Drained(max, values, q[1..]);
      if q[0].cmd.address == a {
        assert Without(q, a) == Without(q[1..], a);
      } else {
        if q[0].cmd.address.ToText() == a.ToText() { ToTextIsInjective(q[0].cmd.address, a); }
        assert (Without(q, a))[1..] == Without(q[1..], a);
        var other := q[0].cmd.address.ToText();
        EqualElsewhere(kept, all, a.ToText(), other,
                       Apply(max, ValueAt(kept, other), q[0].cmd.kind, q[0].cmd.value));
      }
    }
  }

  lemma EqualElsewhere(m: map<string, int>, n: map<string, int>, key: string, other: string, v: int)
    requires m - {key} == n - {key} && key != other
    ensures ValueAt(m, other) == ValueAt(n, other)
    ensures m[other := v] - {key} == n[other := v] - {key}
  {
    assert other in m <==> other in m - {key};
    assert other in n <==> other in n - {key};
    assert other in m - {key} ==> (m - {key})[other] == (n - {key})[other];
    assert m[other := v] - {key} == (m - {key})[other := v];
    assert n[other := v] - {key} == (n - {key})[other := v];
  }

  lemma EqualAfterUpdate(m: map<string, int>, n: map<string, int>, key: string, v: int)
    requires m - {key} == n - {key}
    ensures m[key := v] == n[key := v]
  {
    assert m[key := v] == (m - {key})[key := v];
    assert n[key := v] == (n - {key})[key := v];
  }

  lemma DrainedNewest(max: int, values: map<string, int>, e: Entry, q: seq<Entry>)
    ensures Drained(max, values, [e] + q) == Atomic(max, Drained(max, values, q), e.cmd)
  {
    assert ([e] + q)[1..] == q;
  }

  /** An incoming SET or OFF may erase every older command of its unit: the drained values
      are those of the plain queue, at every unit, whatever the queue holds. */
  lemma CoalescingKeepsResult(s: State, cmd: Command)
    requires WellFormed(s) && cmd.Valid(s.max) && cmd.kind.Erases()
    ensures Result(Enqueue(s.(smart := true), cmd)) == Result(Enqueue(s.(smart := false), cmd))
  {
    EnqueueResult(s.(smart := true), cmd);
    EnqueueResult(s.(smart := false), cmd);
    QueueIsConcrete(s);
    ErasedIsOverwritten(s.max, s.values, s.queue, cmd);
  }

  lemma QueueIsConcrete(s: State)
    requires WellFormed(s)
    ensures Concrete(s.queue)
  {
  }

  /** A command that is queued acts after what the queue still holds. */
  lemma EnqueueResult(s: State, cmd: Command)
    requires !Cancels(s, cmd)
    ensures var kept := if s.smart && cmd.kind.Erases() then Without(s.queue, cmd.address) else s.queue;
            Result(Enqueue(s, cmd)) == Atomic(s.max, Drained(s.max, s.values, kept), cmd)
  {
    var kept := if s.smart && cmd.kind.Erases() then Without(s.queue, cmd.address) else s.queue;
    DrainedNewest(s.max, s.values, Entry(s.nextId, cmd, false), kept);
  }

  lemma ErasedIsOverwritten(max: int, values: map<string, int>, q: seq<Entry>, cmd: Command)
    requires cmd.kind.Erases() && !cmd.address.Generic() && Concrete(q)
    ensures Atomic(max, Drained(max, values, Without(q, cmd.address)), cmd) ==
            Atomic(max, Drained(max, values, q), cmd)
  {
    WithoutDrains(max, values, q, cmd.address);
    EqualAfterUpdate(Drained(max, values, Without(q, cmd.address)), Drained(max, values, q),
                     cmd.address.ToText(), if cmd.kind == Set then cmd.value else -1);
  }

  /** The same through actual worker turns. */
  lemma CoalescingKeepsDrainedValues(s: State, cmd: Command)
    requires WellFormed(s) && cmd.Valid(s.max) && cmd.kind.Erases()
    ensures WellFormed(Enqueue(s.(smart := true), cmd)) && WellFormed(Enqueue(s.(smart := false), cmd))
    ensures DrainAll(Enqueue(s.(smart := true), cmd)).values ==
            DrainAll(Enqueue(s.(smart := false), cmd)).values
  {
    CoalescingKeepsResult(s, cmd);
    DrainRefinesAtomic(Enqueue(s.(smart := true), cmd));
    DrainRefinesAtomic(Enqueue(s.(smart := false), cmd));
  }

  // ---------------------------------------------------------------- one unit at a time

  /** The queued commands of one unit, newest first. */
  function Cmds(queue: seq<Entry>, a: Address): seq<Command> {
    if queue == [] then []
    else (if queue[0].cmd.address == a then [queue[0].cmd] else []) + Cmds(queue[1..], a)
  }

  /** The value of a unit after its commands, oldest first. */
  function UnitResult(max: int, v: int, cmds: seq<Command>): int {
    if cmds == [] then v else Apply(max, UnitResult(max, v, cmds[1..]), cmds[0].kind, cmds[0].value)
  }

  /** How many newest commands are of one kind. */
  function Leading(cmds: seq<Command>, kind: Kind): (n: nat)
    ensures n <= |cmds|
    ensures n < |cmds| ==> cmds[n].kind != kind
    ensures forall i :: 0 <= i < n ==> cmds[i].kind == kind
  {
    if cmds == [] || cmds[0].kind != kind then 0 else 1 + Leading(cmds[1..], kind)
  }

  /** The commands without the newest of another kind. */
  function Dropped(cmds: seq<Command>, kind: Kind): seq<Command>
    requires Leading(cmds, kind) < |cmds|
  {
    cmds[..Leading(cmds, kind)] + cmds[Leading(cmds, kind) + 1..]
  }

  /** What queueing a command does to the commands of its unit. */
  function OnUnit(smart: bool, cmds: seq<Command>, cmd: Command): seq<Command> {
    if smart && cmd.kind.Erases() then [cmd]
    else if smart && cmd.kind.IsStep() && Leading(cmds, cmd.kind) < |cmds| then Dropped(cmds, cmd.kind)
    else [cmd] + cmds
  }

  lemma {:induction false} CmdsConcat(p: seq<Entry>, q: seq<Entry>, a: Address)
    ensures Cmds(p + q, a) == Cmds(p, a) + Cmds(q, a)
  {
    if p == [] {
      assert p + q == q;
    } else {
      assert (p + q)[1..] == p[1..] + q;
      CmdsConcat(p[1..], q, a);
    }
  }

  lemma CmdsOne(e: Entry, a: Address)
    ensures Cmds([e], a) == if e.cmd.address == a then [e.cmd] else []
  {
  }

  lemma {:induction false} CmdsWithout(queue: seq<Entry>, a: Address, b: Address)
    ensures Cmds(Without(queue, a), b) == if a == b then [] else Cmds(queue, b)
  {
    if queue != [] {
      CmdsWithout(queue[1..], a, b);
      CmdsConcat(if queue[0].cmd.address == a then [] else [queue[0]], Without(queue[1..], a), b);
    }
  }

  lemma {:induction false} CmdsNone(queue: seq<Entry>, a: Address)
    ensures Cmds(queue, a) == [] <==> forall i :: 0 <= i < |queue| ==> queue[i].cmd.address != a
  {
    if queue != [] {
      CmdsNone(queue[1..], a);
      assert forall i :: 0 < i < |queue| ==> queue[i] == queue[1..][i - 1];
    }
  }

  /** A unit's own commands decide its value. */
  lemma {:induction false} ResultAtUnit(max: int, values: map<string, int>, q: seq<Entry>, a: Address)
    requires Concrete(q) && !a.Generic()
    ensures ValueAt(Drained(max, values, q), a.ToText()) == UnitResult(max, ValueAt(values, a.ToText()), Cmds(q, a))
  {
    if q != [] {
      ResultAtUnit(max, values, q[1..], a);
      assert q[0] in q;
      var newest, older := q[0].cmd, Cmds(q[1..], a);
      if newest.address == a {
        assert Cmds(q, a) == [newest] + older && ([newest] + older)[1..] == older;
      } else {
        assert Cmds(q, a) == older;
        if newest.address.ToText() == a.ToText() { ToTextIsInjective(newest.address, a); }
      }
    }
  }

  /** Other keys than those of queued commands keep their values. */
  lemma {:induction false} ResultElsewhere(max: int, values: map<string, int>, q: seq<Entry>, key: string)
    requires forall e :: e in q ==> e.cmd.address.ToText() != key
    ensures ValueAt(Drained(max, values, q), key) == ValueAt(values, key)
  {
    if q != [] {
      assert q[0] in q;
      ResultElsewhere(max, values, q[1..], key);
    }
  }

  /** Two queues with the same commands for every unit but one leave the same values
      everywhere exactly if they do at that unit. */
  lemma SameExactlyAtUnit(max: int, values: map<string, int>, p: seq<Entry>, q: seq<Entry>, a: Address)
    requires Concrete(p) && Concrete(q) && !a.Generic()
    requires forall b :: b != a ==> Cmds(p, b) == Cmds(q, b)
    ensures SameValues(Drained(max, values, p), Drained(max, values, q)) <==>
            var v := ValueAt(values, a.ToText());
            UnitResult(max, v, Cmds(p, a)) == UnitResult(max, v, Cmds(q, a))
  {
    ResultAtUnit(max, values, p, a);
    ResultAtUnit(max, values, q, a);
    forall key | key != a.ToText()
      ensures ValueAt(Drained(max, values, p), key) == ValueAt(Drained(max, values, q), key)
    {
      SameAtKey(max, values, p, q, a, key);
    }
  }

  lemma SameAtKey(max: int, values: map<string, int>, p: seq<Entry>, q: seq<Entry>, a: Address, key: string)
    requires Concrete(p) && Concrete(q) && key != a.ToText()
    requires forall b :: b != a ==> Cmds(p, b) == Cmds(q, b)
    ensures ValueAt(Drained(max, values, p), key) == ValueAt(Drained(max, values, q), key)
  {
    if e :| (e in p || e in q) && e.cmd.address.ToText() == key {
      ResultAtUnit(max, values, p, e.cmd.address);
      ResultAtUnit(max, values, q, e.cmd.address);
    } else {
      ResultElsewhere(max, values, p, key);
      ResultElsewhere(max, values, q, key);
    }
  }

  /** A queue around one entry, seen from its unit and from another one. */
  lemma CmdsAround(pre: seq<Entry>, e: Entry, post: seq<Entry>, b: Address)
    ensures Cmds(pre + ([e] + post), b) ==
            Cmds(pre, b) + ((if e.cmd.address == b then [e.cmd] else []) + Cmds(post, b))
    ensures Cmds(pre + post, b) == Cmds(pre, b) + Cmds(post, b)
    ensures e.cmd.address != b ==> Cmds(pre + ([e] + post), b) == Cmds(pre + post, b)
  {
    CmdsConcat(pre, [e] + post, b);
    CmdsConcat([e], post, b);
    CmdsConcat(pre, post, b);
    CmdsOne(e, b);
    assert [] + Cmds(post, b) == Cmds(post, b);
  }

  /** A clash behind commands of the incoming kind. */
  lemma ClashOnUnit(pre: seq<Entry>, e: Entry, post: seq<Entry>, cmd: Command, b: Address)
    requires Clashes(e, cmd)
    requires forall j :: 0 <= j < |Cmds(pre, cmd.address)| ==> Cmds(pre, cmd.address)[j].kind == cmd.kind
    ensures var a, cmds := cmd.address, Cmds(pre + ([e] + post), cmd.address);
            && Leading(cmds, cmd.kind) == |Cmds(pre, a)| < |cmds|
            && e.cmd == cmds[Leading(cmds, cmd.kind)]
            && Cmds(post, a) == cmds[Leading(cmds, cmd.kind) + 1..]
            && Cmds(pre + post, b) == if b == a then Dropped(cmds, cmd.kind) else Cmds(pre + ([e] + post), b)
  {
    CmdsAround(pre, e, post, cmd.address);
    CmdsAround(pre, e, post, b);
    SplitAtOther(Cmds(pre, cmd.address), e.cmd, Cmds(post, cmd.address), cmd.kind);
  }

  /** The scan for a clash sees the unit's commands only: the position found, and what the
      removal leaves of each unit. */
  lemma ScanOnUnit(queue: seq<Entry>, cmd: Command, b: Address)
    ensures var i, cmds := FindOther(queue, cmd), Cmds(queue, cmd.address);
            && Leading(cmds, cmd.kind) == |Cmds(queue[..i], cmd.address)|
            && (i < |queue| <==> Leading(cmds, cmd.kind) < |cmds|)
            && (i < |queue| ==>
                  && queue[i].cmd == cmds[Leading(cmds, cmd.kind)]
                  && Cmds(queue[i + 1..], cmd.address) == cmds[Leading(cmds, cmd.kind) + 1..]
                  && Cmds(queue[..i] + queue[i + 1..], b) ==
                     if b == cmd.address then Dropped(cmds, cmd.kind) else Cmds(queue, b))
  {
    var i, a := FindOther(queue, cmd), cmd.address;
    var pre := queue[..i];
    PrefixOnUnit(queue, cmd, i);
    if i < |queue| {
      var e, post := queue[i], queue[i + 1..];
      assert queue == pre + ([e] + post);
      ClashOnUnit(pre, e, post, cmd, b);
    } else {
      assert pre == queue;
      LeadingAll(Cmds(queue, a), cmd.kind);
    }
  }

  /** Up to the clash all commands of the unit are of the incoming kind. */
  lemma {:induction false} PrefixOnUnit(queue: seq<Entry>, cmd: Command, i: nat)
    requires i <= FindOther(queue, cmd)
    ensures forall j :: 0 <= j < |Cmds(queue[..i], cmd.address)| ==> Cmds(queue[..i], cmd.address)[j].kind == cmd.kind
  {
    if i > 0 {
      PrefixOnUnit(queue, cmd, i - 1);
      assert queue[..i] == queue[..i - 1] + [queue[i - 1]];
      CmdsConcat(queue[..i - 1], [queue[i - 1]], cmd.address);
    }
  }

  lemma {:induction false} LeadingAll(cmds: seq<Command>, kind: Kind)
    requires forall j :: 0 <= j < |cmds| ==> cmds[j].kind == kind
    ensures Leading(cmds, kind) == |cmds|
  {
    if cmds != [] { LeadingAll(cmds[1..], kind); }
  }

  lemma {:induction false} SplitAtOther(newer: seq<Command>, other: Command, older: seq<Command>, kind: Kind)
    requires forall j :: 0 <= j < |newer| ==> newer[j].kind == kind
    requires other.kind != kind
    ensures var cmds := newer + ([other] + older);
            && Leading(cmds, kind) == |newer|
            && cmds[|newer|] == other
            && cmds[|newer| + 1..] == older
            && Dropped(cmds, kind) == newer + older
  {
    var cmds := newer + ([other] + older);
    assert cmds[|newer|] == other && cmds[..|newer|] == newer && cmds[|newer| + 1..] == older;
    assert forall j :: 0 <= j < |newer| ==> cmds[j] == newer[j];
  }

  /** A step cancels exactly if its unit has a command of another kind. */
  lemma CancelsOnUnit(s: State, cmd: Command)
    ensures var cmds := Cmds(s.queue, cmd.address);
            Cancels(s, cmd) <==> s.smart && cmd.kind.IsStep() && Leading(cmds, cmd.kind) < |cmds|
  {
    ScanOnUnit(s.queue, cmd, cmd.address);
  }

  lemma PushOnUnit(s: State, cmd: Command, b: Address)
    requires !Cancels(s, cmd)
    ensures var queued := Cmds(Enqueue(s, cmd).queue, b);
            queued == if b != cmd.address then Cmds(s.queue, b)
            else if s.smart && cmd.kind.Erases() then [cmd] else [cmd] + Cmds(s.queue, b)
  {
    CmdsWithout(s.queue, cmd.address, b);
    var kept := if s.smart && cmd.kind.Erases() then Without(s.queue, cmd.address) else s.queue;
    CmdsPushed(Entry(s.nextId, cmd, false), kept, b);
    assert [cmd] + [] == [cmd];
  }

  lemma CancelOnUnit(s: State, cmd: Command, b: Address)
    requires Cancels(s, cmd)
    ensures Leading(Cmds(s.queue, cmd.address), cmd.kind) < |Cmds(s.queue, cmd.address)|
    ensures Cmds(Enqueue(s, cmd).queue, b) ==
            if b == cmd.address then Dropped(Cmds(s.queue, cmd.address), cmd.kind) else Cmds(s.queue, b)
  {
    ClashRemoved(s.queue, cmd, FindOther(s.queue, cmd), Enqueue(s, cmd).queue, b);
  }

  lemma ClashRemoved(queue: seq<Entry>, cmd: Command, i: nat, left: seq<Entry>, b: Address)
    requires i == FindOther(queue, cmd) < |queue| && left == queue[..i] + queue[i + 1..]
    ensures var cmds := Cmds(queue, cmd.address);
            && Leading(cmds, cmd.kind) < |cmds|
            && Cmds(left, b) == if b == cmd.address then Dropped(cmds, cmd.kind) else Cmds(queue, b)
  {
    ScanOnUnit(queue, cmd, b);
  }

  lemma OnUnitIs(smart: bool, cmds: seq<Command>, cmd: Command, cancels: bool, after: seq<Command>)
    requires cancels <==> smart && cmd.kind.IsStep() && Leading(cmds, cmd.kind) < |cmds|
    requires cancels ==> after == Dropped(cmds, cmd.kind)
    requires !cancels ==> after == if smart && cmd.kind.Erases() then [cmd] else [cmd] + cmds
    ensures after == OnUnit(smart, cmds, cmd)
  {
  }

  lemma EnqueueOnOwnUnit(s: State, cmd: Command, a: Address, after: seq<Command>)
    requires a == cmd.address && after == Cmds(Enqueue(s, cmd).queue, a)
    ensures after == OnUnit(s.smart, Cmds(s.queue, a), cmd)
  {
    CancelsOnUnit(s, cmd);
    if Cancels(s, cmd) { CancelOnUnit(s, cmd, a); } else { PushOnUnit(s, cmd, a); }
    OnUnitIs(s.smart, Cmds(s.queue, a), cmd, Cancels(s, cmd), after);
  }

  /** Queueing changes the commands of the one unit, as `OnUnit` says. */
  lemma EnqueueOnUnit(s: State, cmd: Command, b: Address)
    ensures Cmds(Enqueue(s, cmd).queue, b) ==
            if b == cmd.address then OnUnit(s.smart, Cmds(s.queue, b), cmd) else Cmds(s.queue, b)
  {
    if b == cmd.address {
      EnqueueOnOwnUnit(s, cmd, b, Cmds(Enqueue(s, cmd).queue, b));
    } else if Cancels(s, cmd) {
      CancelOnUnit(s, cmd, b);
    } else {
      PushOnUnit(s, cmd, b);
    }
  }

  lemma CmdsPushed(e: Entry, queue: seq<Entry>, b: Address)
    ensures Cmds([e] + queue, b) == if e.cmd.address == b then [e.cmd] + Cmds(queue, b) else Cmds(queue, b)
  {
    CmdsConcat([e], queue, b);
    CmdsOne(e, b);
    assert [] + Cmds(queue, b) == Cmds(queue, b);
  }

  /** Dropping the oldest command, or marking it notified, are all a worker turn does to the queue. */
  lemma TurnQueue(s: State)
    requires s.queue != []
    ensures var older, e := s.queue[..|s.queue| - 1], s.queue[|s.queue| - 1];
            Turn(s).queue == older || Turn(s).queue == older + [e.(notified := true)]
  {
  }

  /** A worker turn takes at most the oldest command of a unit. */
  lemma TurnOnUnit(s: State, b: Address)
    ensures var cmds := Cmds(s.queue, b);
            Cmds(Turn(s).queue, b) == cmds || (cmds != [] && Cmds(Turn(s).queue, b) == cmds[..|cmds| - 1])
  {
    if s.queue != [] {
      var older, e := s.queue[..|s.queue| - 1], s.queue[|s.queue| - 1];
      TurnQueue(s);
      assert s.queue == older + [e];
      CmdsConcat(older, [e], b);
      CmdsConcat(older, [e.(notified := true)], b);
      CmdsOne(e, b);
      CmdsOne(e.(notified := true), b);
      LastOnUnit(Cmds(older, b), if e.cmd.address == b then [e.cmd] else []);
    }
  }

  lemma LastOnUnit(cmds: seq<Command>, last: seq<Command>)
    requires |last| <= 1
    ensures cmds == cmds + last || (cmds + last)[..|cmds + last| - 1] == cmds
  {
    if last == [] { assert cmds + last == cmds; }
  }

  // ---------------------------------------------------------------- normal form

  predicate AllAre(cmds: seq<Command>, kind: Kind) { forall i :: 0 <= i < |cmds| ==> cmds[i].kind == kind }

  predicate InCore(kind: Kind) { kind.Erases() || kind.IsStep() }

  /** One SET or OFF, or only DIMs, or only BRIGHTs, or nothing. */
  predicate Core(cmds: seq<Command>) {
    (|cmds| == 1 && cmds[0].kind.Erases()) || AllAre(cmds, Dim) || AllAre(cmds, Bright)
  }

  /** A core with newer commands of other kinds in front. */
  predicate Normal(cmds: seq<Command>) {
    if cmds != [] && !InCore(cmds[0].kind) then Normal(cmds[1..]) else Core(cmds)
  }

  ghost predicate NormalQueue(queue: seq<Entry>) {
    forall a :: Normal(Cmds(queue, a))
  }

  lemma CoreIsNormal(cmds: seq<Command>)
    requires Core(cmds)
    ensures Normal(cmds)
  {
  }

  lemma CoreParts(cmds: seq<Command>)
    requires Core(cmds) && cmds != []
    ensures Core(cmds[1..]) && Core(cmds[..|cmds| - 1])
  {
    if |cmds| == 1 { assert AllAre(cmds[..0], Dim); }
  }

  /** Without its newest or its oldest command a normal form is one still. */
  lemma {:induction false} NormalParts(cmds: seq<Command>)
    requires Normal(cmds) && cmds != []
    ensures Normal(cmds[1..]) && Normal(cmds[..|cmds| - 1])
  {
    if !InCore(cmds[0].kind) {
      if |cmds| > 1 {
        NormalParts(cmds[1..]);
        assert cmds[..|cmds| - 1][1..] == cmds[1..][..|cmds| - 2];
      }
    } else {
      CoreParts(cmds);
      CoreIsNormal(cmds[1..]);
      CoreIsNormal(cmds[..|cmds| - 1]);
    }
  }

  /** In normal form the newest command of another kind than a step is the newest of all. */
  lemma NormalLeading(cmds: seq<Command>, kind: Kind)
    requires Normal(cmds) && kind.IsStep() && Leading(cmds, kind) < |cmds|
    ensures Leading(cmds, kind) == 0
  {
    if cmds[0].kind == kind {
      assert false;
    }
  }

  lemma OnUnitKeepsNormal(cmds: seq<Command>, cmd: Command)
    requires Normal(cmds)
    ensures Normal(OnUnit(true, cmds, cmd))
  {
    var after := OnUnit(true, cmds, cmd);
    if cmd.kind.IsStep() {
      if Leading(cmds, cmd.kind) < |cmds| {
        NormalLeading(cmds, cmd.kind);
        NormalParts(cmds);
        assert after == cmds[1..];
      } else {
        assert AllAre(after, cmd.kind);
      }
    } else if !cmd.kind.Erases() {
      assert after[1..] == cmds;
    }
  }

  /** Queueing with the smart queue on keeps the normal form. */
  lemma EnqueueKeepsNormal(s: State, cmd: Command)
    requires s.smart && NormalQueue(s.queue)
    ensures NormalQueue(Enqueue(s, cmd).queue)
  {
    forall b
      ensures Normal(Cmds(Enqueue(s, cmd).queue, b))
    {
      assert Normal(Cmds(s.queue, b));
      EnqueueOnUnit(s, cmd, b);
      OnUnitKeepsNormal(Cmds(s.queue, b), cmd);
    }
  }

  /** A worker turn keeps the normal form too. */
  lemma TurnKeepsNormal(s: State)
    requires NormalQueue(s.queue)
    ensures NormalQueue(Turn(s).queue)
  {
    forall b
      ensures Normal(Cmds(Turn(s).queue, b))
    {
      var cmds := Cmds(s.queue, b);
      assert Normal(cmds);
      TurnOnUnit(s, b);
      if cmds != [] { NormalParts(cmds); }
    }
  }

  /** The kinds pending for one unit, newest first. */
  function Kinds(cmds: seq<Command>): (kinds: seq<Kind>)
    ensures |kinds| == |cmds| && forall i :: 0 <= i < |cmds| ==> kinds[i] == cmds[i].kind
  {
    if cmds == [] then [] else [cmds[0].kind] + Kinds(cmds[1..])
  }

  /** At most one SET or OFF, then no steps, and never DIM together with BRIGHT. */
  predicate OneDirection(p: seq<Kind>) {
    && multiset(p)[Set] + multiset(p)[Off] <= 1
    && !(Dim in p && Bright in p)
    && (Set in p || Off in p ==> Dim !in p && Bright !in p)
  }

  lemma CoreMeaning(cmds: seq<Command>)
    requires Core(cmds)
    ensures OneDirection(Kinds(cmds))
  {
    var p := Kinds(cmds);
    if |p| == 1 { assert p == [p[0]]; } else { assert Set !in p && Off !in p; }
  }

  lemma OneMoreKind(k: Kind, p: seq<Kind>)
    requires !InCore(k) && OneDirection(p)
    ensures OneDirection([k] + p)
  {
    assert multiset([k] + p) == multiset{k} + multiset(p);
    assert forall x :: x in [k] + p <==> x == k || x in p;
  }

  /** What normal form means. */
  lemma {:induction false} NormalMeaning(cmds: seq<Command>)
    requires Normal(cmds)
    ensures OneDirection(Kinds(cmds))
  {
    if cmds != [] && !InCore(cmds[0].kind) {
      NormalMeaning(cmds[1..]);
      OneMoreKind(cmds[0].kind, Kinds(cmds[1..]));
    } else {
      CoreMeaning(cmds);
    }
  }

  /** In normal form a cancelled command is the newest one of its unit. */
  lemma CancelsNewest(queue: seq<Entry>, cmd: Command)
    requires Normal(Cmds(queue, cmd.address)) && cmd.kind.IsStep()
    requires FindOther(queue, cmd) < |queue|
    ensures Cmds(queue[..FindOther(queue, cmd)], cmd.address) == []
    ensures forall j :: 0 <= j < FindOther(queue, cmd) ==> queue[j].cmd.address != cmd.address
  {
    var newer := queue[..FindOther(queue, cmd)];
    ScanOnUnit(queue, cmd, cmd.address);
    NormalLeading(Cmds(queue, cmd.address), cmd.kind);
    CmdsNone(newer, cmd.address);
    assert forall j :: 0 <= j < |newer| ==> newer[j] == queue[j];
  }

  // ---------------------------------------------------------------- cancelled steps

  /** The level the steps start from: a unit that is off is first lit. */
  function Lit(max: int, v: int): int { if v == -1 then max else v }

  /** When a removed command and the step that met it would have undone each other, as a
      condition on the value just before the removed command. */
  predicate Undone(max: int, v: int, removed: Command, step: Kind) {
    match removed.kind
    case Dim => 1 <= v
    case Bright => 0 <= v < max
    case Set => v == (if removed.value == -1 then (if step == Dim then max - 1 else max)
                      else if step == Dim then (if removed.value == 0 then 0 else removed.value - 1)
                      else (if removed.value == max then max else removed.value + 1))
    case Off => v == if step == Dim then max - 1 else max
    case _ => v == if step == Dim then 0 else max
  }

  /** The same when `k` newer steps of the unit stay queued: one step more, or both at the end
      of the range. */
  predicate UndoneBehind(max: int, v: int, removed: Command, step: Kind, k: nat) {
    if k == 0 then Undone(max, v, removed, step)
    else
      var without, with := Lit(max, v), Lit(max, Apply(max, v, removed.kind, removed.value));
      if step == Dim then with == without + 1 || (without <= k && with <= k + 1)
      else with + 1 == without || (max <= without + k && max <= with + k + 1)
  }

  /** A number of equal steps. */
  function Steps(max: int, v: int, step: Kind, n: nat): int {
    if n == 0 then v else Apply(max, Steps(max, v, step, n - 1), step, 0)
  }

  lemma {:induction false} StepsLevel(max: int, v: int, step: Kind, n: nat)
    requires 1 <= max && InRange(max, v) && step.IsStep() && n > 0
    ensures var w := Lit(max, v);
            Steps(max, v, step, n) ==
            if step == Dim then (if w < n then 0 else w - n) else if max < w + n then max else w + n
  {
    if n > 1 { StepsLevel(max, v, step, n - 1); }
    assert n == 1 ==> Steps(max, v, step, n - 1) == v;
  }

  lemma {:induction false} LeadingSteps(max: int, v: int, cmds: seq<Command>, n: nat, step: Kind)
    requires n <= |cmds| && step.IsStep() && forall i :: 0 <= i < n ==> cmds[i].kind == step
    ensures UnitResult(max, v, cmds) == Steps(max, UnitResult(max, v, cmds[n..]), step, n)
  {
    if n > 0 {
      LeadingSteps(max, v, cmds[1..], n - 1, step);
      assert cmds[1..][n - 1..] == cmds[n..];
    }
  }

  lemma UndoneIsExact(max: int, v: int, removed: Command, step: Kind, k: nat)
    requires 1 <= max && InRange(max, v) && step.IsStep() && removed.kind != step
    requires removed.kind == Set ==> InRange(max, removed.value)
    ensures Steps(max, Apply(max, v, removed.kind, removed.value), step, k + 1) == Steps(max, v, step, k) <==>
            UndoneBehind(max, v, removed, step, k)
  {
    var w := Apply(max, v, removed.kind, removed.value);
    StepsLevel(max, w, step, k + 1);
    if k > 0 { StepsLevel(max, v, step, k); }
  }

  /** With and without the cancellation, at the unit. */
  lemma CancelledOnUnit(max: int, v: int, cmds: seq<Command>, cmd: Command)
    requires 1 <= max && cmd.kind.IsStep() && Leading(cmds, cmd.kind) < |cmds|
    requires var n := Leading(cmds, cmd.kind);
             InRange(max, UnitResult(max, v, cmds[n + 1..])) && (cmds[n].kind == Set ==> InRange(max, cmds[n].value))
    ensures var n := Leading(cmds, cmd.kind);
            UnitResult(max, v, Dropped(cmds, cmd.kind)) == UnitResult(max, v, [cmd] + cmds) <==>
            UndoneBehind(max, UnitResult(max, v, cmds[n + 1..]), cmds[n], cmd.kind, n)
  {
    var n := Leading(cmds, cmd.kind);
    var before := UnitResult(max, v, cmds[n + 1..]);
    var dropped, queued := Dropped(cmds, cmd.kind), [cmd] + cmds;
    LeadingSteps(max, v, dropped, n, cmd.kind);
    assert dropped[n..] == cmds[n + 1..];
    LeadingSteps(max, v, queued, n + 1, cmd.kind);
    assert queued[n + 1..] == cmds[n..] && cmds[n..][1..] == cmds[n + 1..];
    UndoneIsExact(max, before, cmds[n], cmd.kind, n);
  }

  /** The value of the unit just before the command an incoming step would cancel. */
  function ValueBefore(s: State, cmd: Command): int
    requires FindOther(s.queue, cmd) < |s.queue|
  {
    ValueAt(Drained(s.max, s.values, s.queue[FindOther(s.queue, cmd) + 1..]), cmd.address.ToText())
  }

  /** The cancelled command and the incoming step undo each other, behind the steps that stay. */
  predicate CancelsUnseen(s: State, cmd: Command)
    requires FindOther(s.queue, cmd) < |s.queue|
  {
    var i := FindOther(s.queue, cmd);
    UndoneBehind(s.max, ValueBefore(s, cmd), s.queue[i].cmd, cmd.kind, |Cmds(s.queue[..i], cmd.address)|)
  }

  /** The commands of the unit, without the cancelled pair and with it. */
  ghost predicate Cancelled(s: State, cmd: Command, p: seq<Entry>, q: seq<Entry>) {
    var cmds := Cmds(s.queue, cmd.address);
    && Concrete(p) && Concrete(q)
    && (forall b :: b != cmd.address ==> Cmds(p, b) == Cmds(q, b))
    && Leading(cmds, cmd.kind) < |cmds|
    && Cmds(p, cmd.address) == Dropped(cmds, cmd.kind)
    && Cmds(q, cmd.address) == [cmd] + cmds
  }

  lemma TwoQueues(s: State, cmd: Command, p: seq<Entry>, q: seq<Entry>)
    requires WellFormed(s) && cmd.Valid(s.max) && Cancels(s, cmd)
    requires p == Enqueue(s, cmd).queue && q == Enqueue(s.(smart := false), cmd).queue
    ensures Cancelled(s, cmd, p, q)
  {
    forall b ensures b != cmd.address ==> Cmds(p, b) == Cmds(q, b) {
      EnqueueOnUnit(s, cmd, b);
      EnqueueOnUnit(s.(smart := false), cmd, b);
    }
    QueuedIsConcrete(s, cmd);
    QueuedIsConcrete(s.(smart := false), cmd);
    CancelledQueues(s, cmd);
  }

  lemma ResultIsDrained(s: State, cmd: Command)
    ensures Result(Enqueue(s, cmd)) == Drained(s.max, s.values, Enqueue(s, cmd).queue)
  {
  }

  /** The values left by the smart queue and by the plain queue after an incoming DIM or
      BRIGHT meets another command agree exactly under `CancelsUnseen`, for every queue. */
  lemma CancellationExact(s: State, cmd: Command)
    requires WellFormed(s) && cmd.Valid(s.max) && Cancels(s, cmd)
    ensures SameValues(Result(Enqueue(s, cmd)), Result(Enqueue(s.(smart := false), cmd))) <==> CancelsUnseen(s, cmd)
    ensures Result(Enqueue(s.(smart := false), cmd)) == Atomic(s.max, Result(s), cmd)
  {
    EnqueueResult(s.(smart := false), cmd);
    ResultIsDrained(s, cmd);
    ResultIsDrained(s.(smart := false), cmd);
    CancelledQueuesResult(s, cmd, Enqueue(s, cmd).queue, Enqueue(s.(smart := false), cmd).queue);
  }

  lemma CancelledQueuesResult(s: State, cmd: Command, p: seq<Entry>, q: seq<Entry>)
    requires WellFormed(s) && cmd.Valid(s.max) && Cancels(s, cmd)
    requires p == Enqueue(s, cmd).queue && q == Enqueue(s.(smart := false), cmd).queue
    ensures SameValues(Drained(s.max, s.values, p), Drained(s.max, s.values, q)) <==> CancelsUnseen(s, cmd)
  {
    TwoQueues(s, cmd, p, q);
    CancelledBefore(s, cmd, p, q);
  }

  lemma CancelledBefore(s: State, cmd: Command, p: seq<Entry>, q: seq<Entry>)
    requires WellFormed(s) && cmd.Valid(s.max) && Cancels(s, cmd) && Cancelled(s, cmd, p, q)
    ensures SameValues(Drained(s.max, s.values, p), Drained(s.max, s.values, q)) <==> CancelsUnseen(s, cmd)
  {
    AtUnitBefore(s, FindOther(s.queue, cmd), cmd.address);
    CancelledValues(s, cmd, p, q);
  }

  lemma CancelledValues(s: State, cmd: Command, p: seq<Entry>, q: seq<Entry>)
    requires Cancels(s, cmd) && 1 <= s.max && !cmd.address.Generic() && Cancelled(s, cmd, p, q)
    requires s.queue[FindOther(s.queue, cmd)].cmd.Valid(s.max)
    requires ValueBefore(s, cmd) ==
             UnitResult(s.max, ValueAt(s.values, cmd.address.ToText()), Cmds(s.queue[FindOther(s.queue, cmd) + 1..], cmd.address))
    requires InRange(s.max, ValueBefore(s, cmd))
    ensures SameValues(Drained(s.max, s.values, p), Drained(s.max, s.values, q)) <==> CancelsUnseen(s, cmd)
  {
    SameExactlyAtUnit(s.max, s.values, p, q, cmd.address);
    CancelledAtUnit(s, cmd, ValueAt(s.values, cmd.address.ToText()), Cmds(p, cmd.address), Cmds(q, cmd.address));
  }

  lemma QueuedIsConcrete(s: State, cmd: Command)
    requires WellFormed(s) && cmd.Valid(s.max)
    ensures Concrete(Enqueue(s, cmd).queue)
  {
  }

  lemma CancelledQueues(s: State, cmd: Command)
    requires Cancels(s, cmd)
    ensures var cmds := Cmds(s.queue, cmd.address);
            && Leading(cmds, cmd.kind) < |cmds|
            && Cmds(Enqueue(s, cmd).queue, cmd.address) == Dropped(cmds, cmd.kind)
            && Cmds(Enqueue(s.(smart := false), cmd).queue, cmd.address) == [cmd] + cmds
  {
    ScanOnUnit(s.queue, cmd, cmd.address);
    EnqueueOnUnit(s, cmd, cmd.address);
    EnqueueOnUnit(s.(smart := false), cmd, cmd.address);
  }

  /** Where the scan stops, seen from the unit's commands. */
  lemma CancelledPlace(s: State, cmd: Command) returns (k: nat)
    requires Cancels(s, cmd)
    ensures var i, cmds := FindOther(s.queue, cmd), Cmds(s.queue, cmd.address);
            && k == Leading(cmds, cmd.kind) < |cmds|
            && k == |Cmds(s.queue[..i], cmd.address)|
            && s.queue[i].cmd == cmds[k]
            && Cmds(s.queue[i + 1..], cmd.address) == cmds[k + 1..]
  {
    ScanOnUnit(s.queue, cmd, cmd.address);
    k := Leading(Cmds(s.queue, cmd.address), cmd.kind);
  }

  /** At the unit, from the value before the cancelled command. */
  lemma CancelledAtUnit(s: State, cmd: Command, v: int, p: seq<Command>, q: seq<Command>)
    requires Cancels(s, cmd) && 1 <= s.max
    requires s.queue[FindOther(s.queue, cmd)].cmd.Valid(s.max)
    requires ValueBefore(s, cmd) == UnitResult(s.max, v, Cmds(s.queue[FindOther(s.queue, cmd) + 1..], cmd.address))
    requires InRange(s.max, ValueBefore(s, cmd))
    requires var cmds := Cmds(s.queue, cmd.address);
             Leading(cmds, cmd.kind) < |cmds| && p == Dropped(cmds, cmd.kind) && q == [cmd] + cmds
    ensures UnitResult(s.max, v, p) == UnitResult(s.max, v, q) <==> CancelsUnseen(s, cmd)
  {
    var k := CancelledPlace(s, cmd);
    CancelledOnUnit(s.max, v, Cmds(s.queue, cmd.address), cmd);
  }

  lemma OlderIsOk(s: State, i: nat)
    requires WellFormed(s) && i < |s.queue|
    ensures Concrete(s.queue[i + 1..]) && AllInRange(s.max, Drained(s.max, s.values, s.queue[i + 1..]))
    ensures s.queue[i].cmd.Valid(s.max)
  {
    var older := s.queue[i + 1..];
    assert s.queue[i] in s.queue && forall e :: e in older ==> e in s.queue;
    DrainedInRange(s.max, s.values, older);
  }

  lemma ValueInRange(max: int, values: map<string, int>, key: string)
    requires 1 <= max && AllInRange(max, values)
    ensures InRange(max, ValueAt(values, key))
  {
  }

  lemma AtUnitBefore(s: State, i: nat, a: Address)
    requires WellFormed(s) && i < |s.queue| && !a.Generic()
    ensures var older := s.queue[i + 1..];
            && ValueAt(Drained(s.max, s.values, older), a.ToText()) ==
               UnitResult(s.max, ValueAt(s.values, a.ToText()), Cmds(older, a))
            && InRange(s.max, ValueAt(Drained(s.max, s.values, older), a.ToText()))
    ensures s.queue[i].cmd.Valid(s.max)
  {
    OlderIsOk(s, i);
    ValueInRange(s.max, Drained(s.max, s.values, s.queue[i + 1..]), a.ToText());
    ResultAtUnit(s.max, s.values, s.queue[i + 1..], a);
  }

  ghost predicate AllInRange(max: int, values: map<string, int>) {
    forall k :: k in values ==> InRange(max, values[k])
  }

  lemma {:induction false} DrainedInRange(max: int, values: map<string, int>, q: seq<Entry>)
    requires 1 <= max && AllInRange(max, values)
    requires forall e :: e in q ==> e.cmd.Valid(max)
    ensures AllInRange(max, Drained(max, values, q))
  {
    if q != [] {
      assert q[0] in q;
      DrainedInRange(max, values, q[1..]);
      var m := Drained(max, values, q[1..]);
      ApplyInRange(max, ValueAt(m, q[0].cmd.address.ToText()), q[0].cmd);
    }
  }
}
