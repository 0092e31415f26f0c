/** The list of configured units and its search for a free address (nodes-model.cpp). */
module NodesModels {

  datatype Node = Node(channel: char, unit: int)

  /** The editor forces channels into A..P and units into 0..16; 0 is no single unit. */
  predicate InRange(n: Node) { 'A' <= n.channel <= 'P' && 0 <= n.unit <= 16 }

  ghost predicate AllInRange(nodes: seq<Node>) { forall i :: 0 <= i < |nodes| ==> InRange(nodes[i]) }

  ghost predicate Distinct(nodes: seq<Node>) {
    forall i, j :: 0 <= i < j < |nodes| ==> nodes[i] != nodes[j]
  }

  predicate Full(nodes: seq<Node>, channel: char) {
    forall u :: 1 <= u <= 16 ==> Node(channel, u) in nodes
  }

  /** The channel `i` places after `start`, cyclically from A to P. */
  function Cycle(start: char, i: nat): char
    requires 'A' <= start <= 'P'
    ensures 'A' <= Cycle(start, i) <= 'P'
  {
    ('A' as int + (start as int - 'A' as int + i) % 16) as char
  }

  /** The channels in turn: from A to P and on to A again. */
  lemma CycleIsTheAlphabet(i: nat, k: nat)
    requires i < 16
    ensures Cycle("ABCDEFGHIJKLMNOP"[i], k) == "ABCDEFGHIJKLMNOP"[(i + k) % 16]
  {
    var c := "ABCDEFGHIJKLMNOP"[i];
    assert c as int == 65 + i;
    var j := (i + k) % 16;
    assert "ABCDEFGHIJKLMNOP"[j] as int == 65 + j;
  }

  /** Some address A..P, 1..16 is not used. */
  ghost predicate HasFree(nodes: seq<Node>) {
    exists n: Node :: InRange(n) && n.unit >= 1 && n !in nodes
  }

  /** The address a new node gets: the least free unit of the first channel, counted
      cyclically from `start`, that is not full. */
  ghost predicate IsFirstFree(nodes: seq<Node>, start: char, n: Node)
    requires 'A' <= start <= 'P'
  {
    && n !in nodes && 1 <= n.unit <= 16
    && (forall u :: 1 <= u < n.unit ==> Node(n.channel, u) in nodes)
    && exists i: nat :: i < 16 && n.channel == Cycle(start, i) &&
                        forall j: nat :: j < i ==> Full(nodes, Cycle(start, j))
  }

  // ---------------------------------------------------------------- counting addresses

  function Code(n: Node): int { (n.channel as int - 'A' as int) * 16 + n.unit - 1 }

  function NodeAt(code: nat): Node
    requires code < 256
  {
    Node(('A' as int + code / 16) as char, code % 16 + 1)
  }

  predicate IsUnit(n: Node) { InRange(n) && n.unit >= 1 }

  ghost function UsedCodes(nodes: seq<Node>): set<int> {
    set n | n in nodes && IsUnit(n) :: Code(n)
  }

  lemma CodeRange(n: Node)
    requires IsUnit(n)
    ensures 0 <= Code(n) < 256 && NodeAt(Code(n)) == n
  {
  }

  lemma UsedCode(nodes: seq<Node>, n: Node)
    requires IsUnit(n)
    ensures Code(n) in UsedCodes(nodes) <==> n in nodes
  {
    if Code(n) in UsedCodes(nodes) {
      var m :| m in nodes && IsUnit(m) && Code(m) == Code(n);
      CodeRange(m);
      CodeRange(n);
    }
  }

  lemma {:induction false} RangeCount(s: set<int>, n: nat)
    requires forall x :: x in s ==> 0 <= x < n
    ensures |s| <= n
    ensures |s| == n <==> forall x :: 0 <= x < n ==> x in s
    decreases n
  {
    if n > 0 {
      var last := n - 1;
      var t := s - {last};
      RangeCount(t, n - 1);
      assert forall x :: 0 <= x < last ==> (x in s <==> x in t);
      if last in s {
        assert |t| == |s| - 1;
      } else {
        assert t == s;
      }
    } else {
      assert forall x :: x !in s;
      assert |s| == 0;
    }
  }

  /** An address is free exactly when fewer than 256 different ones are used. */
  lemma FreeExactly(nodes: seq<Node>)
    ensures HasFree(nodes) <==> |UsedCodes(nodes)| < 256
    ensures |UsedCodes(nodes)| <= 256
  {
    var used := UsedCodes(nodes);
    forall x | x in used ensures 0 <= x < 256 {
      var m :| m in nodes && IsUnit(m) && Code(m) == x;
      CodeRange(m);
    }
    RangeCount(used, 256);
    if HasFree(nodes) {
      var n: Node :| InRange(n) && n.unit >= 1 && n !in nodes;
      CodeRange(n);
      UsedCode(nodes, n);
      assert !(forall x :: 0 <= x < 256 ==> x in used);
    }
    if |used| < 256 {
      var x :| 0 <= x < 256 && x !in used;
      var n := NodeAt(x);
      assert Code(n) == x;
      UsedCode(nodes, n);
      assert InRange(n) && n.unit >= 1 && n !in nodes;
    }
  }

  lemma {:induction false} UsedAtMostLength(nodes: seq<Node>)
    ensures |UsedCodes(nodes)| <= |nodes|
  {
    if nodes == [] {
      assert forall x :: x !in UsedCodes(nodes);
      assert |UsedCodes(nodes)| == 0;
    } else {
      var last := |nodes| - 1;
      UsedAtMostLength(nodes[..last]);
      assert nodes == nodes[..last] + [nodes[last]];
      SubsetCount(UsedCodes(nodes), UsedCodes(nodes[..last]) + {Code(nodes[last])});
    }
  }

  lemma {:induction false} SubsetCount(a: set<int>, b: set<int>)
    requires a <= b
    ensures |a| <= |b|
  {
    assert b == a + (b - a);
  }

  /** With fewer than 256 nodes an address is always free. */
  lemma FewNodesLeaveFree(nodes: seq<Node>)
    requires |nodes| < 256
    ensures HasFree(nodes)
  {
    UsedAtMostLength(nodes);
    FreeExactly(nodes);
  }

  /** When every channel is full from a start, no address is free. */
  lemma AllFullNoFree(nodes: seq<Node>, start: char)
    requires 'A' <= start <= 'P'
    ensures (forall i: nat :: i < 16 ==> Full(nodes, Cycle(start, i))) <==> !HasFree(nodes)
  {
    if forall i: nat :: i < 16 ==> Full(nodes, Cycle(start, i)) {
      forall n: Node | InRange(n) && n.unit >= 1 ensures n in nodes {
        var i := (n.channel as int - start as int) % 16;
        CycleReaches(start, n.channel, i);
        assert Full(nodes, Cycle(start, i));
        assert Node(n.channel, n.unit) in nodes;
      }
    } else {
      var i: nat :| i < 16 && !Full(nodes, Cycle(start, i));
      var u :| 1 <= u <= 16 && Node(Cycle(start, i), u) !in nodes;
      assert InRange(Node(Cycle(start, i), u));
    }
  }

  lemma CycleReaches(start: char, channel: char, i: nat)
    requires 'A' <= start <= 'P' && 'A' <= channel <= 'P'
    requires i == (channel as int - start as int) % 16
    ensures i < 16 && Cycle(start, i) == channel
  {
    var a, b := start as int - 'A' as int, channel as int - 'A' as int;
    assert a + i == b - 16 * ((b - a) / 16);
    assert (a + i) % 16 == b;
  }

  // ---------------------------------------------------------------- inserting a node

  function InsertAt(nodes: seq<Node>, position: nat, n: Node): seq<Node>
    requires position <= |nodes|
  {
    nodes[..position] + [n] + nodes[position..]
  }

  lemma InsertAtUsed(nodes: seq<Node>, position: nat, n: Node)
    requires position <= |nodes| && AllInRange(nodes) && IsUnit(n)
    ensures AllInRange(InsertAt(nodes, position, n))
    ensures UsedCodes(InsertAt(nodes, position, n)) == UsedCodes(nodes) + {Code(n)}
    ensures Code(n) in UsedCodes(nodes) <==> n in nodes
  {
    var r := InsertAt(nodes, position, n);
    assert nodes == nodes[..position] + nodes[position..];
    assert forall m :: m in r <==> m in nodes || m == n;
    UsedCode(nodes, n);
  }

  lemma InsertAtDistinct(nodes: seq<Node>, position: nat, n: Node)
    requires position <= |nodes|
    ensures Distinct(InsertAt(nodes, position, n)) <==> Distinct(nodes) && n !in nodes
  {
    if Distinct(nodes) && n !in nodes { InsertedDistinct(nodes, position, n); }
    if Distinct(InsertAt(nodes, position, n)) { InsertedWasDistinct(nodes, position, n); }
  }

  lemma InsertedDistinct(nodes: seq<Node>, position: nat, n: Node)
    requires position <= |nodes| && Distinct(nodes) && n !in nodes
    ensures Distinct(InsertAt(nodes, position, n))
  {
    var r := InsertAt(nodes, position, n);
    forall i, j | 0 <= i < j < |r| ensures r[i] != r[j] {
      var x, y := if i < position then i else i - 1, if j < position then j else j - 1;
      if i == position { assert r[j] == nodes[y]; }
      else if j == position { assert r[i] == nodes[x]; }
      else { assert r[i] == nodes[x] && r[j] == nodes[y]; }
    }
  }

  lemma InsertedWasDistinct(nodes: seq<Node>, position: nat, n: Node)
    requires position <= |nodes| && Distinct(InsertAt(nodes, position, n))
    ensures Distinct(nodes) && n !in nodes
  {
    var r := InsertAt(nodes, position, n);
    forall i | 0 <= i < |nodes| ensures nodes[i] != n {
      var x := if i < position then i else i + 1;
      assert r[x] == nodes[i] && r[position] == n;
    }
    forall i, j | 0 <= i < j < |nodes| ensures nodes[i] != nodes[j] {
      var x, y := if i < position then i else i + 1, if j < position then j else j + 1;
      assert r[x] == nodes[i] && r[y] == nodes[j];
    }
  }

  lemma FreeFound(nodes: seq<Node>, start: char, i: nat, n: Node)
    requires 'A' <= start <= 'P' && i < 16 && n.channel == Cycle(start, i)
    requires n !in nodes && 1 <= n.unit <= 16
    requires forall u :: 1 <= u < n.unit ==> Node(n.channel, u) in nodes
    requires forall j: nat :: j < i ==> Full(nodes, Cycle(start, j))
    ensures IsFirstFree(nodes, start, n) && HasFree(nodes)
  {
    assert InRange(n);
  }

  lemma CycleNext(start: char, i: nat)
    requires 'A' <= start <= 'P'
    ensures Cycle(start, i + 1) == if Cycle(start, i) == 'P' then 'A' else (Cycle(start, i) as int + 1) as char
  {
  }

  lemma AddedCount(s: set<int>, x: int)
    ensures |s + {x}| == |s| + if x in s then 0 else 1
  {
    if x in s { assert s + {x} == s; }
  }

  /** The node at `j` has the address that was the first free one without it and the nodes
      inserted after it, which stand between `position` and it. */
  ghost predicate GetsFirstFree(nodes: seq<Node>, position: nat, j: nat)
    requires position <= j < |nodes|
  {
    var before := nodes[..position] + nodes[j + 1..];
    var start := if before == [] then 'A' else before[0].channel;
    'A' <= start <= 'P' && HasFree(before) ==> IsFirstFree(before, start, nodes[j])
  }

  lemma OneMoreRow(before: seq<Node>, after: seq<Node>, position: nat, row: nat)
    requires position + row <= |before| && |after| == |before| + 1 && AllInRange(before)
    requires after == InsertAt(before, position, after[position])
    requires HasFree(before) ==>
               IsFirstFree(before, if |before| > 0 then before[0].channel else 'A', after[position])
    requires forall j :: position <= j < position + row ==> GetsFirstFree(before, position, j)
    ensures forall j :: position <= j < position + row + 1 ==> GetsFirstFree(after, position, j)
    ensures after[..position] == before[..position]
    ensures after[position + row + 1..] == before[position + row..]
  {
    forall j | position <= j < position + row + 1
      ensures GetsFirstFree(after, position, j)
    {
      if j == position {
        assert after[..position] + after[j + 1..] == before;
      } else {
        assert GetsFirstFree(before, position, j - 1);
        assert after[..position] == before[..position] && after[j + 1..] == before[j..] && after[j] == before[j - 1];
      }
    }
  }

  class NodesModel {
    var nodes: seq<Node>

    constructor ()
      ensures nodes == []
    {
      nodes := [];
    }

    /** The least free unit of a channel, if there is one. */
    method FindUnitOnChannel(channel: char, unit0: int) returns (found: bool, unit: int)
      ensures found <==> !Full(nodes, channel)
      ensures found ==> 1 <= unit <= 16 && Node(channel, unit) !in nodes
      ensures found ==> forall u :: 1 <= u < unit ==> Node(channel, u) in nodes
      ensures !found ==> unit == unit0
    {
      var candidate := 1;
      while candidate < 17
        invariant 1 <= candidate <= 17
        invariant forall u :: 1 <= u < candidate ==> Node(channel, u) in nodes
      {
        var taken := false;
        var i := 0;
        while i < |nodes|
          invariant 0 <= i <= |nodes|
          invariant !taken && Node(channel, candidate) !in nodes[..i]
        {
          if nodes[i].channel == channel && nodes[i].unit == candidate {
            taken := true;
            break;
          }
          i := i + 1;
        }
        assert taken ==> nodes[i] == Node(channel, candidate);
        assert !taken ==> nodes[..i] == nodes;
        if !taken {
          return true, candidate;
        }
        candidate := candidate + 1;
      }
      return false, unit0;
    }

    /** The address for a new node; the given one stays when every address is used. */
    method FindUnitAvailable(channel0: char, unit0: int) returns (channel: char, unit: int)
      requires AllInRange(nodes) && 'A' <= channel0 <= 'P'
      ensures var start := if |nodes| > 0 then nodes[0].channel else channel0;
              && 'A' <= start <= 'P'
              && (HasFree(nodes) ==> IsFirstFree(nodes, start, Node(channel, unit)))
              && (!HasFree(nodes) ==> channel == start && unit == unit0)
    {
      channel, unit := channel0, unit0;
      if |nodes| > 0 {
        channel := nodes[0].channel;
      }
      ghost var start := channel;
      AllFullNoFree(nodes, start);
      var i := 0;
      while i < 16
        invariant 0 <= i <= 16 && channel == Cycle(start, i) && unit == unit0
        invariant forall j: nat :: j < i ==> Full(nodes, Cycle(start, j))
      {
        var found;
        found, unit := FindUnitOnChannel(channel, unit);
        if found {
          FreeFound(nodes, start, i, Node(channel, unit));
          return;
        }
        CycleNext(start, i);
        channel := (channel as int + 1) as char;
        if channel == 'Q' {
          channel := 'A';
        }
        i := i + 1;
      }
    }

    /** One new row: it gets the first free address, or repeats one when none is free. */
    method InsertRow(position: nat)
      requires AllInRange(nodes) && position <= |nodes|
      modifies this
      ensures AllInRange(nodes) && |nodes| == |old(nodes)| + 1
      ensures nodes == InsertAt(old(nodes), position, nodes[position])
      ensures HasFree(old(nodes)) ==>
                IsFirstFree(old(nodes), if |old(nodes)| > 0 then old(nodes)[0].channel else 'A', nodes[position])
      ensures !HasFree(old(nodes)) ==> old(nodes) != [] && nodes[position] == Node(old(nodes)[0].channel, 1)
      ensures Distinct(nodes) <==> Distinct(old(nodes)) && |UsedCodes(old(nodes))| < 256
      ensures |UsedCodes(nodes)| == |UsedCodes(old(nodes))| + if |UsedCodes(old(nodes))| < 256 then 1 else 0
    {
      FreeExactly(nodes);
      if nodes == [] { FewNodesLeaveFree(nodes); }
      var channel, unit := FindUnitAvailable('A', 1);
      var n := Node(channel, unit);
      if !HasFree(nodes) { assert IsUnit(n); }
      InsertAtUsed(nodes, position, n);
      InsertAtDistinct(nodes, position, n);
      AddedCount(UsedCodes(nodes), Code(n));
      nodes := nodes[..position] + [n] + nodes[position..];
    }

    /** New rows get free addresses, each the first one free when it is inserted, in front of the
        row before; the nodes stay distinct exactly while addresses last. */
    method InsertRows(position: nat, rows: nat)
      requires AllInRange(nodes) && position <= |nodes|
      modifies this
      ensures AllInRange(nodes) && |nodes| == |old(nodes)| + rows
      ensures nodes[..position] == old(nodes)[..position]
      ensures nodes[position + rows..] == old(nodes)[position..]
      ensures forall j :: position <= j < position + rows ==> GetsFirstFree(nodes, position, j)
      ensures Distinct(old(nodes)) ==>
                (Distinct(nodes) <==> rows == 0 || |UsedCodes(old(nodes))| + rows <= 256)
    {
      var row := 0;
      ghost var used := |UsedCodes(nodes)|;
      while row < rows
        invariant row <= rows && AllInRange(nodes) && |nodes| == |old(nodes)| + row
        invariant nodes[..position] == old(nodes)[..position]
        invariant nodes[position + row..] == old(nodes)[position..]
        invariant forall j :: position <= j < position + row ==> GetsFirstFree(nodes, position, j)
        invariant |UsedCodes(nodes)| == if used + row <= 256 || row == 0 then used + row else 256
        invariant Distinct(old(nodes)) ==> (Distinct(nodes) <==> row == 0 || used + row <= 256)
      {
        FreeExactly(nodes);
        ghost var before := nodes;
        InsertRow(position);
        OneMoreRow(before, nodes, position, row);
        row := row + 1;
      }
    }

    /** Removed rows are gone and the others stay in order. */
    method RemoveRows(position: nat, rows: nat)
      requires position + rows <= |nodes|
      modifies this
      ensures nodes == old(nodes)[..position] + old(nodes)[position + rows..]
      ensures Distinct(old(nodes)) ==> Distinct(nodes)
    {
      var row := 0;
      while row < rows
        invariant row <= rows
        invariant nodes == old(nodes)[..position] + old(nodes)[position + row..]
      {
        nodes := nodes[..position] + nodes[position + 1..];
        row := row + 1;
      }
      assert forall i :: 0 <= i < |nodes| ==> nodes[i] == old(nodes)[if i < position then i else i + rows];
    }
  }
}
