/** The receive buffer of the CM19A driver (x10-cm19a.c): callback, publication, reads. */
module ReadBuffers {

  newtype byte = x: int | 0 <= x < 256

  // ---------------------------------------------------------------- the buffer as a value

  /** The bytes held, and how many of them a read may take. */
  datatype Buffer = Buffer(bytes: seq<byte>, published: nat)

  datatype Action =
    | Callback(data: seq<byte>)
    | Publish(idle: bool)
    | Read(readLen: nat, idle: bool)

  function Min(a: nat, b: nat): nat { if a < b then a else b }

  /** Arriving bytes are kept all together or dropped all together (read_intr_cb). */
  predicate Fits(size: nat, b: Buffer, data: seq<byte>) { |b.bytes| + |data| < size }

  function Received(size: nat, b: Buffer, data: seq<byte>): Buffer {
    if Fits(size, b, data) then b.(bytes := b.bytes + data) else b
  }

  /** Everything held becomes readable once the line was idle, or when the buffer is full (check_read_buffer). */
  function Published(size: nat, b: Buffer, idle: bool): Buffer {
    if idle || |b.bytes| == size then b.(published := |b.bytes|) else b
  }

  /** One non-blocking read: the number of bytes taken, and the rest (read_intr_data). */
  function Taken(size: nat, b: Buffer, readLen: nat, idle: bool): (nat, Buffer)
    requires Ok(size, b)
  {
    if readLen == 0 then (0, b)
    else
      var p := Published(size, b, idle);
      var n := Min(readLen, p.published);
      (n, Buffer(p.bytes[n..], p.published - n))
  }

  predicate Ok(size: nat, b: Buffer) { b.published <= |b.bytes| < size }

  function Take(size: nat, b: Buffer, a: Action): (r: Buffer)
    requires Ok(size, b)
    ensures Ok(size, r)
  {
    match a
    case Callback(data) => Received(size, b, data)
    case Publish(idle) => Published(size, b, idle)
    case Read(readLen, idle) => Taken(size, b, readLen, idle).1
  }

  function Run(size: nat, b: Buffer, actions: seq<Action>): (r: Buffer)
    requires Ok(size, b)
    ensures Ok(size, r)
    decreases |actions|
  {
    if actions == [] then b else Run(size, Take(size, b, actions[0]), actions[1..])
  }

  function AcceptedBy(size: nat, b: Buffer, a: Action): seq<byte> {
    if a.Callback? && Fits(size, b, a.data) then a.data else []
  }

  function RemovedBy(size: nat, b: Buffer, a: Action): seq<byte>
    requires Ok(size, b)
  {
    if a.Read? then b.bytes[..Taken(size, b, a.readLen, a.idle).0] else []
  }

  /** The bytes kept over a run, in order of arrival. */
  function Accepted(size: nat, b: Buffer, actions: seq<Action>): seq<byte>
    requires Ok(size, b)
    decreases |actions|
  {
    if actions == [] then []
    else AcceptedBy(size, b, actions[0]) + Accepted(size, Take(size, b, actions[0]), actions[1..])
  }

  /** The bytes reads removed over a run, in order. */
  function Removed(size: nat, b: Buffer, actions: seq<Action>): seq<byte>
    requires Ok(size, b)
    decreases |actions|
  {
    if actions == [] then []
    else RemovedBy(size, b, actions[0]) + Removed(size, Take(size, b, actions[0]), actions[1..])
  }

  lemma StepIsFifo(size: nat, b: Buffer, a: Action)
    requires Ok(size, b)
    ensures b.bytes + AcceptedBy(size, b, a) == RemovedBy(size, b, a) + Take(size, b, a).bytes
  {
    if a.Read? {
      var n := Taken(size, b, a.readLen, a.idle).0;
      assert b.bytes == b.bytes[..n] + b.bytes[n..];
    }
  }

  /** Over every interleaving the buffer is a queue: what was held and accepted is what was
      removed followed by what is held, byte for byte. */
  lemma {:induction false} BufferIsFifo(size: nat, b: Buffer, actions: seq<Action>)
    requires Ok(size, b)
    ensures b.bytes + Accepted(size, b, actions) ==
            Removed(size, b, actions) + Run(size, b, actions).bytes
    decreases |actions|
  {
    if actions != [] {
      var next := Take(size, b, actions[0]);
      StepIsFifo(size, b, actions[0]);
      BufferIsFifo(size, next, actions[1..]);
      Reassociate(b.bytes, AcceptedBy(size, b, actions[0]), Accepted(size, next, actions[1..]),
                  RemovedBy(size, b, actions[0]), next.bytes,
                  Removed(size, next, actions[1..]), Run(size, next, actions[1..]).bytes);
    }
  }

  lemma Reassociate(held: seq<byte>, kept: seq<byte>, more: seq<byte>, gone: seq<byte>, next: seq<byte>,
                    later: seq<byte>, last: seq<byte>)
    requires held + kept == gone + next && next + more == later + last
    ensures held + (kept + more) == (gone + later) + last
  {
    assert held + (kept + more) == (held + kept) + more;
    assert (gone + next) + more == gone + (next + more);
    assert gone + (later + last) == (gone + later) + last;
  }

  /** A buffer in order is never full, so publication waits for the line to be idle; until then
      a read takes only what was published before, and afterwards all it has room for. */
  lemma FullTestNeverHolds(size: nat, b: Buffer, idle: bool)
    requires Ok(size, b)
    ensures Published(size, b, idle) == if idle then b.(published := |b.bytes|) else b
    ensures forall readLen :: Taken(size, b, readLen, idle).0 ==
                              Min(readLen, if idle then |b.bytes| else b.published)
  {
  }

  /** The bytes that arrive over a run. */
  function Arriving(actions: seq<Action>): seq<byte> {
    if actions == [] then []
    else (if actions[0].Callback? then actions[0].data else []) + Arriving(actions[1..])
  }

  /** While all that is held and still arrives leaves a byte free, nothing is dropped. */
  lemma {:induction false} NothingIsLost(size: nat, b: Buffer, actions: seq<Action>)
    requires Ok(size, b) && |b.bytes| + |Arriving(actions)| < size
    ensures Accepted(size, b, actions) == Arriving(actions)
    decreases |actions|
  {
    if actions != [] {
      StepIsFifo(size, b, actions[0]);
      NothingIsLost(size, Take(size, b, actions[0]), actions[1..]);
    }
  }

  /** What does not leave a byte free is dropped whole, and nothing else changes. */
  lemma TooMuchIsDropped(size: nat, b: Buffer, data: seq<byte>)
    requires Ok(size, b)
    ensures Take(size, b, Callback(data)) ==
            if |b.bytes| + |data| < size then Buffer(b.bytes + data, b.published) else b
  {
  }

  /** The first `n` of the published bytes, and the rest. */
  function Split(p: Buffer, n: nat): Buffer
    requires n <= p.published <= |p.bytes|
  {
    Buffer(p.bytes[n..], p.published - n)
  }

  lemma SplitTwice(p: Buffer, first: nat, second: nat)
    requires p.published <= |p.bytes|
    ensures var n := Min(first, p.published);
            var m := Min(second, p.published - n);
            n + m == Min(first + second, p.published) && Split(Split(p, n), m) == Split(p, n + m)
  {
    var n := Min(first, p.published);
    var m := Min(second, p.published - n);
    assert p.bytes[n..][m..] == p.bytes[n + m..];
  }

  lemma TakenIsSplit(size: nat, b: Buffer, readLen: nat, idle: bool, p: Buffer)
    requires Ok(size, b) && p == Published(size, b, idle) && (readLen > 0 || p == b)
    ensures p.published <= |p.bytes| < size
    ensures Taken(size, b, readLen, idle) == (Min(readLen, p.published), Split(p, Min(readLen, p.published)))
  {
    if readLen == 0 { assert p.bytes[0..] == p.bytes; }
  }

  lemma PublishedIsOk(size: nat, b: Buffer, idle: bool, n: nat)
    requires Ok(size, b) && n <= Published(size, b, idle).published
    ensures n <= |Published(size, b, idle).bytes|
    ensures Ok(size, Split(Published(size, b, idle), n))
    ensures Published(size, Split(Published(size, b, idle), n), false) == Split(Published(size, b, idle), n)
  {
  }

  /** Two reads take what one read of both lengths would, and leave the same. */
  lemma TwoReadsAreOne(size: nat, b: Buffer, first: nat, second: nat, idle: bool)
    requires Ok(size, b) && first > 0
    ensures Ok(size, Taken(size, b, first, idle).1)
    ensures var one, both := Taken(size, b, first, idle), Taken(size, b, first + second, idle);
            && both.0 == one.0 + Taken(size, one.1, second, false).0
            && both.1 == Taken(size, one.1, second, false).1
  {
    var p := Published(size, b, idle);
    var n := Min(first, p.published);
    PublishedIsOk(size, b, idle, n);
    TakenIsSplit(size, b, first, idle, p);
    SecondRead(size, b, second, idle, p, n);
    TakenIsSplit(size, b, first + second, idle, p);
    SplitTwice(p, first, second);
  }

  lemma SecondRead(size: nat, b: Buffer, second: nat, idle: bool, p: Buffer, n: nat)
    requires Ok(size, b) && p == Published(size, b, idle) && n <= p.published <= |p.bytes|
    ensures Ok(size, Split(p, n))
    ensures Taken(size, Split(p, n), second, false) ==
            (Min(second, p.published - n), Split(Split(p, n), Min(second, p.published - n)))
  {
    PublishedIsOk(size, b, idle, n);
    TakenIsSplit(size, Split(p, n), second, false, Split(p, n));
  }

  // ---------------------------------------------------------------- the buffer in memory

  class ReadBuffer {
    const readBuf: array<byte>
    var readBufLen: nat
    var readPktLen: nat

    ghost predicate Valid()
      reads this
    {
      readPktLen <= readBufLen < readBuf.Length
    }

    ghost function View(): Buffer
      reads this, readBuf
      requires Valid()
    {
      Buffer(readBuf[..readBufLen], readPktLen)
    }

    constructor (size: nat)
      requires size > 0
      ensures Valid() && fresh(readBuf) && readBuf.Length == size && View() == Buffer([], 0)
    {
      readBuf := new byte[size];
      readBufLen := 0;
      readPktLen := 0;
    }

    /** Bytes from the device are copied behind those held, if they leave room. */
    method ReadIntrCb(data: array<byte>)
      requires Valid() && data != readBuf
      modifies this`readBufLen, readBuf
      ensures Valid() && View() == Received(readBuf.Length, old(View()), data[..])
      ensures old(readBufLen) + data.Length < readBuf.Length ==>
                readBuf[..readBufLen] == old(readBuf[..readBufLen]) + old(data[..])
      ensures old(readBufLen) + data.Length >= readBuf.Length ==>
                readBufLen == old(readBufLen) && readBuf[..] == old(readBuf[..])
    {
      if data.Length > 0 {
        if readBufLen + data.Length < readBuf.Length {
          for i := 0 to data.Length
            invariant readBufLen == old(readBufLen)
            invariant readBuf[..readBufLen + i] == old(readBuf[..readBufLen]) + data[..i]
          {
            readBuf[readBufLen + i] := data[i];
          }
          readBufLen := readBufLen + data.Length;
          assert data[..data.Length] == data[..];
        }
      } else {
        assert data[..] == [];
      }
    }

    method CheckReadBuffer(idle: bool)
      requires Valid()
      modifies this`readPktLen
      ensures Valid() && View() == Published(readBuf.Length, old(View()), idle)
    {
      if idle || readBufLen == readBuf.Length {
        readPktLen := readBufLen;
      }
    }

    /** The bytes behind the first `n` move to the front, in place. */
    method MoveDown(n: nat, len: nat)
      requires n + len <= readBuf.Length
      modifies readBuf
      ensures readBuf[..len] == old(readBuf[n..n + len])
    {
      for i := 0 to len
        invariant readBuf[..i] == old(readBuf[n..n + i])
        invariant forall j :: i <= j < readBuf.Length ==> readBuf[j] == old(readBuf[j])
      {
        readBuf[i] := readBuf[n + i];
      }
    }

    /** One attempt to read; None when nothing is published yet. */
    method ReadIntrData(readLen: nat, idle: bool) returns (taken: nat)
      requires Valid()
      modifies this, readBuf
      ensures Valid() && (taken, View()) == Taken(readBuf.Length, old(View()), readLen, idle)
    {
      if readLen == 0 {
        return 0;
      }
      CheckReadBuffer(idle);
      if readPktLen == 0 {
        assert View().bytes[0..] == View().bytes;
        return 0;
      }
      taken := Min(readLen, readPktLen);
      readBufLen := readBufLen - taken;
      readPktLen := readPktLen - taken;
      MoveDown(taken, readBufLen);
      assert readBuf[..readBufLen] == old(readBuf[..readBufLen])[taken..];
    }
  }
}
