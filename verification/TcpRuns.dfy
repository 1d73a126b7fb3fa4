/**
 * Whole runs of one connection: any sequence of calls, timer polls and arriving
 * segments. A world is the connection plus the history an observer would record;
 * the theorems say what that history always looks like.
 */
module TcpRuns {
  import opened Machine
  import opened TcpSpec

  datatype Event =
    | Queue(bytes: seq<byte>)
    | CloseCall
    | Poll(now: u64)
    | Arrive(segment: Segment, at: u64)
    | Read(room: nat)
    | Discard
    | TickCall(time: u64)
    | AbortCall

  datatype Sent = Sent(t: Transmit, at: u64)

  /**
   * accepted: bytes queue_send took; acked: payloads of fully acknowledged segments;
   * log: everything poll_transmit emitted; received: payload bytes taken from the peer;
   * drained: bytes read or discarded by the owner.
   */
  datatype World = World(
    c: Tcb, iss: u32, accepted: seq<byte>, acked: seq<byte>, log: seq<Sent>,
    finSent: bool, received: seq<byte>, drained: seq<byte>, finReceived: bool)

  function Payloads(segments: seq<Outstanding>): seq<byte> {
    if segments == [] then [] else segments[0].payload + Payloads(segments[1..])
  }

  function StepQueue(w: World, bytes: seq<byte>): World {
    var (c, r) := QueueSend(w.c, bytes);
    w.(c := c, accepted := if r.Ok? then w.accepted + bytes else w.accepted)
  }

  function StepPoll(w: World, now: u64): World {
    var (c, r) := PollTransmit(w.c, now);
    if r.Ok? && r.value.Some? then
      w.(c := c, log := w.log + [Sent(r.value.value, now)],
         finSent := w.finSent || r.value.value.flags.fin)
    else w.(c := c)
  }

  /** The history when an arriving segment s left the connection as c. */
  function ArriveWith(w: World, s: Segment, c: Tcb): World {
    if c.state == Reset || |c.outstanding| > |w.c.outstanding| || |c.receiveBuffer| < |w.c.receiveBuffer|
    then w.(c := c)
    else
      var taken := c.receiveBuffer[|w.c.receiveBuffer|..];
      w.(c := c,
         acked := w.acked + Payloads(w.c.outstanding[..|w.c.outstanding| - |c.outstanding|]),
         received := w.received + taken,
         finReceived := w.finReceived
           || (w.c.state != SynSent && s.flags.fin && c.rcv != Wrap32(w.c.rcv + |taken|)))
  }

  function StepArrive(w: World, s: Segment, now: u64): World {
    ArriveWith(w, s, OnSegment(w.c, s, now).0)
  }

  function Step(w: World, e: Event): World {
    match e
    case Queue(bytes) => StepQueue(w, bytes)
    case CloseCall => w.(c := RequestClose(w.c).0)
    case Poll(now) => StepPoll(w, now)
    case Arrive(s, now) => StepArrive(w, s, now)
    case Read(room) =>
      var (c, out) := Receive(w.c, room);
      w.(c := c, drained := w.drained + out)
    case Discard => w.(c := w.c.(receiveBuffer := []), drained := w.drained + w.c.receiveBuffer)
    case TickCall(now) => w.(c := Tick(w.c, now).0)
    case AbortCall => w.(c := Abort(w.c))
  }

  /** The parameters of try_connect that the connection keeps. */
  datatype Opening = Opening(
    iss: u32, localMss: u16, sendCapacity: nat, receiveCapacity: nat, timeout: u64, retryLimit: byte)

  function Begin(o: Opening): World {
    World(Connect(o.iss, o.localMss, o.sendCapacity, o.receiveCapacity, o.timeout, o.retryLimit),
          o.iss, [], [], [], false, [], [], false)
  }

  predicate Next(w: World, e: Event, w': World) {
    w' == Step(w, e)
  }

  /** A run: the worlds passed through, one more than the events between them. */
  predicate IsRun(o: Opening, ws: seq<World>, es: seq<Event>) {
    && |ws| == |es| + 1
    && ws[0] == Begin(o)
    && forall i :: 0 <= i < |es| ==> Next(ws[i], es[i], ws[i + 1])
  }

  /** An arrival leaves the connection alone, aborts it, or takes one of two paths. */
  lemma SegmentCases(c: Tcb, s: Segment, now: u64)
    ensures var d := OnSegment(c, s, now).0;
      || d == c
      || (s.flags.rst && d == Abort(c))
      || (c.state == SynSent && d == OnSynSent(c, s).0)
      || (c.state !in {SynSent, Closed, Reset} && d == OnInOrder(c, s, now).0)
  {
  }

  // ---------------------------------------------------------------- serial numbers

  lemma WrapPlus(x: int, y: int)
    ensures Wrap32(Wrap32(x) + y) == Wrap32(x + y)
  {
    ModShift(Wrap32(x) + y, x / U32_SPAN);
  }

  lemma WrapDifference(x: int, y: int)
    ensures Wrap32(Wrap32(x) - Wrap32(y)) == Wrap32(x - y)
    ensures Wrap32(Wrap32(x) + y) == Wrap32(x + y)
  {
    WrapPlus(x, y);
    var m: int := 0 - Wrap32(y);
    WrapPlus(x, m);
    ModShift(x - y, y / U32_SPAN);
    assert x - y + y / U32_SPAN * U32_SPAN == x - Wrap32(y);
  }

  lemma {:induction false} ModShift(r: int, k: int)
    ensures (r + k * U32_SPAN) % U32_SPAN == r % U32_SPAN
    decreases if k < 0 then -k else k
  {
    if k > 0 {
      ModShift(r, k - 1);
      assert (r + (k - 1) * U32_SPAN + U32_SPAN) % U32_SPAN == (r + (k - 1) * U32_SPAN) % U32_SPAN;
    } else if k < 0 {
      ModShift(r, k + 1);
      assert (r + k * U32_SPAN + U32_SPAN) % U32_SPAN == (r + k * U32_SPAN) % U32_SPAN;
    }
  }

  /** Within half the sequence space the wrapped order is the integer order. */
  lemma SerialOrder(x: int, y: int)
    requires -0x8000_0000 <= x - y < 0x8000_0000
    ensures SequenceBefore(Wrap32(x), Wrap32(y)) <==> x < y
  {
    WrapDifference(x, y);
  }

  /**
   * The acknowledgment test on wrapped numbers, against integers: with at most
   * 65,536 numbers in flight from `una`, it accepts exactly the numbers congruent
   * to a position between `una` and `una + span`.
   */
  lemma AckWindow(una: int, span: nat, a: u32)
    requires span <= 0x1_0000
    ensures (!SequenceBefore(a, Wrap32(una)) && !SequenceAfter(a, Wrap32(una + span)))
            <==> Wrap32(a - una) <= span
    ensures Wrap32(una + Wrap32(a - una)) == a
  {
    var d := Wrap32(a - una);
    var k := (a - una) / U32_SPAN;
    assert a - una == d + k * U32_SPAN;
    ModShift(a, -k);
    AckWindowOffsets(una, span, a, d, k);
  }

  lemma AckWindowOffsets(una: int, span: nat, a: u32, d: u32, k: int)
    requires a - una == d + k * U32_SPAN
    ensures Wrap32(a - Wrap32(una)) == d
    ensures Wrap32(Wrap32(una + span) - a) == Wrap32(span - d)
  {
    assert Wrap32(a - Wrap32(una)) == Wrap32(a - una) by { WrapDifference(a, una); }
    assert Wrap32(Wrap32(una + span) - a) == Wrap32(span - d) by {
      var m: int := 0 - a;
      WrapDifference(una + span, m);
      ModShift(span - d, -k);
    }
    ModShift(d, k);
  }
}
