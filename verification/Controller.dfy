/** Sending commands to the transmitter: the ON that addresses a unit before it is dimmed (x10controller.cpp). */
module Controllers {

  datatype Code = On | Off | Dim | Bright | Other(code: int) {
    predicate IsStep() { Dim? || Bright? }
  }

  datatype Frame = Frame(code: Code, house: int, unit: int)

  predicate SameUnit(a: Frame, b: Frame) { a.house == b.house && a.unit == b.unit }

  /** The frames one call sends, given the unit addressed last. */
  function Frames(last: Frame, cmd: Frame): seq<Frame> {
    if !SameUnit(last, cmd) && cmd.code.IsStep() then [Frame(On, cmd.house, cmd.unit), cmd] else [cmd]
  }

  /** The frames of a run of calls; `last` is the frame before. */
  function AllFrames(last: Frame, cmds: seq<Frame>): seq<Frame>
    decreases |cmds|
  {
    if cmds == [] then [] else Frames(last, cmds[0]) + AllFrames(cmds[0], cmds[1..])
  }

  /** In every run a DIM or BRIGHT directly follows a frame for the same unit. */
  lemma {:induction false} StepsAreAddressed(last: Frame, cmds: seq<Frame>)
    ensures var f := [last] + AllFrames(last, cmds);
            && (forall i :: 0 < i < |f| && (f[i].code == Dim || f[i].code == Bright) ==>
                              f[i - 1].house == f[i].house && f[i - 1].unit == f[i].unit)
            && f[|f| - 1] == ([last] + cmds)[|cmds|]
    decreases |cmds|
  {
    if cmds != [] {
      var rest := AllFrames(cmds[0], cmds[1..]);
      StepsAreAddressed(cmds[0], cmds[1..]);
      var g := [cmds[0]] + rest;
      if |Frames(last, cmds[0])| == 2 {
        assert [last] + AllFrames(last, cmds) == [last, Frame(On, cmds[0].house, cmds[0].unit)] + g;
      } else {
        assert [last] + AllFrames(last, cmds) == [last] + g;
      }
    }
  }

  /** Which frames are ONs added in front of a step. */
  function Added(last: Frame, cmds: seq<Frame>): (r: seq<bool>)
    ensures |r| == |AllFrames(last, cmds)|
    decreases |cmds|
  {
    if cmds == [] then []
    else (if |Frames(last, cmds[0])| == 2 then [true, false] else [false]) + Added(cmds[0], cmds[1..])
  }

  function Given(frames: seq<Frame>, added: seq<bool>): seq<Frame>
    requires |frames| == |added|
  {
    if frames == [] then []
    else (if added[0] then [] else [frames[0]]) + Given(frames[1..], added[1..])
  }

  /** An ON, and a DIM or BRIGHT for the same house and unit. */
  predicate Addresses(on: Frame, step: Frame) {
    on.code == On && (step.code == Dim || step.code == Bright) && on.house == step.house && on.unit == step.unit
  }

  /** Each added frame is an ON for the unit of the step behind it. */
  ghost predicate AddedAreOns(f: seq<Frame>, a: seq<bool>)
    requires |f| == |a|
  {
    forall i :: 0 <= i < |f| && a[i] ==>
                  i + 1 < |f| && !a[i + 1] && Addresses(f[i], f[i + 1])
  }

  lemma PrependGiven(frame: Frame, f: seq<Frame>, a: seq<bool>)
    requires |f| == |a| && AddedAreOns(f, a)
    ensures AddedAreOns([frame] + f, [false] + a)
    ensures Given([frame] + f, [false] + a) == [frame] + Given(f, a)
  {
    var g, b := [frame] + f, [false] + a;
    assert g[1..] == f && b[1..] == a;
    assert forall i :: 0 < i < |g| ==> g[i] == f[i - 1] && b[i] == a[i - 1];
  }

  lemma PrependOn(on: Frame, f: seq<Frame>, a: seq<bool>)
    requires |f| == |a| && AddedAreOns(f, a) && f != [] && !a[0]
    requires on.code == On && f[0].code.IsStep() && SameUnit(on, f[0])
    ensures AddedAreOns([on] + f, [true] + a)
    ensures Given([on] + f, [true] + a) == Given(f, a)
  {
    var g, b := [on] + f, [true] + a;
    assert g[1..] == f && b[1..] == a;
    assert forall i :: 0 < i < |g| ==> g[i] == f[i - 1] && b[i] == a[i - 1];
  }

  /** Leaving the added frames aside, the frames are the commands given, in order. */
  lemma {:induction false} CommandsAreKept(last: Frame, cmds: seq<Frame>)
    ensures Given(AllFrames(last, cmds), Added(last, cmds)) == cmds
    ensures AddedAreOns(AllFrames(last, cmds), Added(last, cmds))
    decreases |cmds|
  {
    if cmds != [] {
      var cmd := cmds[0];
      CommandsAreKept(cmd, cmds[1..]);
      var f, a := AllFrames(cmd, cmds[1..]), Added(cmd, cmds[1..]);
      PrependGiven(cmd, f, a);
      if |Frames(last, cmd)| == 2 {
        var on := Frame(On, cmd.house, cmd.unit);
        PrependOn(on, [cmd] + f, [false] + a);
        assert AllFrames(last, cmds) == [on] + ([cmd] + f);
        assert Added(last, cmds) == [true] + ([false] + a);
      }
    }
  }

  /** The frame before position `i`. */
  function Previous(last: Frame, f: seq<Frame>, i: nat): Frame
    requires i < |f|
  {
    if i == 0 then last else f[i - 1]
  }

  /** Each added ON follows a frame for another unit. */
  ghost predicate OnsAreNeeded(last: Frame, f: seq<Frame>, a: seq<bool>)
    requires |f| == |a|
  {
    forall i :: 0 <= i < |f| && a[i] ==>
                  Previous(last, f, i).house != f[i].house || Previous(last, f, i).unit != f[i].unit
  }

  lemma PrependNeeded(last: Frame, frame: Frame, added: bool, f: seq<Frame>, a: seq<bool>)
    requires |f| == |a| && OnsAreNeeded(frame, f, a) && (added ==> !SameUnit(last, frame))
    ensures OnsAreNeeded(last, [frame] + f, [added] + a)
  {
    var g, b := [frame] + f, [added] + a;
    forall i | 0 <= i < |g| && b[i]
      ensures !SameUnit(Previous(last, g, i), g[i])
    {
      if i > 0 {
        var k := i - 1;
        assert a[k] && g[i] == f[k];
        assert !SameUnit(Previous(frame, f, k), f[k]);
        assert Previous(last, g, i) == Previous(frame, f, k);
      }
    }
  }

  /** No ON is added in front of a step for the unit addressed last. */
  lemma {:induction false} AddedOnsAreNeeded(last: Frame, cmds: seq<Frame>)
    ensures OnsAreNeeded(last, AllFrames(last, cmds), Added(last, cmds))
    decreases |cmds|
  {
    if cmds != [] {
      var cmd := cmds[0];
      AddedOnsAreNeeded(cmd, cmds[1..]);
      var f, a := AllFrames(cmd, cmds[1..]), Added(cmd, cmds[1..]);
      if |Frames(last, cmd)| == 2 {
        var on := Frame(On, cmd.house, cmd.unit);
        PrependNeeded(on, cmd, false, f, a);
        PrependNeeded(last, on, true, [cmd] + f, [false] + a);
        assert AllFrames(last, cmds) == [on] + ([cmd] + f);
        assert Added(last, cmds) == [true] + ([false] + a);
      } else {
        PrependNeeded(last, cmd, false, f, a);
      }
    }
  }

  class X10Controller {
    var isOperational: bool
    var lastHouse: int
    var lastUnit: int
    ghost var sent: seq<Frame>  // logical commands, before the unit is adjusted for a step

    /** Once something was sent, the last-unit fields are those of the last frame. */
    ghost predicate Valid()
      reads this
    {
      sent != [] ==> lastHouse == sent[|sent| - 1].house && lastUnit == sent[|sent| - 1].unit
    }

    /** A DIM or BRIGHT directly follows a frame for the same unit, except perhaps a very first one. */
    ghost predicate Addressed()
      reads this
    {
      forall i :: 0 < i < |sent| && sent[i].code.IsStep() ==> SameUnit(sent[i - 1], sent[i])
    }

    constructor (isOperational: bool)
      ensures Valid() && Addressed() && sent == []
    {
      this.isOperational := isOperational;
      sent := [];
    }

    /** One call: the recursion sends one ON at most. */
    method X10Send(cmd: Frame) returns (result: int)
      requires Valid() && Addressed()
      modifies this`lastHouse, this`lastUnit, this`sent
      ensures Valid() && Addressed()
      ensures !isOperational ==> result == -1 && sent == old(sent)
      ensures isOperational ==> result == 0
      ensures isOperational ==> sent == old(sent) + Frames(Frame(On, old(lastHouse), old(lastUnit)), cmd)
      decreases cmd.code.IsStep()
    {
      if !isOperational {
        return -1;
      }
      if (cmd.house != lastHouse || cmd.unit != lastUnit) && cmd.code.IsStep() {
        var _ := X10Send(Frame(On, cmd.house, cmd.unit));
      }
      sent := sent + [cmd];
      lastHouse := cmd.house;
      lastUnit := cmd.unit;
      result := 0;
    }
  }
}
