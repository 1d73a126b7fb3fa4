/**
 * The receiving side against an arbitrary network. The peer sends one stream; the
 * network may lose, duplicate, delay and reorder its segments, cut it anywhere, and
 * add any acknowledgments, windows and resets of its own.
 */
module TcpReceive {
  import opened Machine
  import opened TcpSpec
  import opened TcpRuns

  /** The peer's initial number and its whole stream. */
  datatype Peer = Peer(irs: u32, stream: seq<byte>)

  predicate ValidPeer(p: Peer) {
    |p.stream| < 0xFFFF_FFFF
  }

  /** Where in the stream a sequence number points, counting from the first data byte. */
  function StreamOffset(p: Peer, sequence: u32): u32 {
    Wrap32(sequence - (p.irs + 1))
  }

  /** A segment whose SYN, data and FIN are the peer's own. */
  predicate FromPeer(p: Peer, s: Segment) {
    if s.flags.syn then s.sequence == p.irs
    else
      var off := StreamOffset(p, s.sequence);
      && (s.payload != [] ==>
            off + |s.payload| <= |p.stream| && s.payload == p.stream[off..off + |s.payload|])
      && (s.flags.fin ==> Wrap32(off + |s.payload|) == |p.stream|)
  }

  /** Only arriving segments are constrained. */
  predicate PeerEvent(p: Peer, e: Event) {
    e.Arrive? ==> FromPeer(p, e.segment)
  }

  /** Numbers taken from the peer so far: its bytes, and one for its FIN. */
  function Taken32(w: World): nat {
    |w.received| + B2N(w.finReceived)
  }

  predicate ReceiveInv(p: Peer, w: World) {
    && w.received <= p.stream
    && (w.finReceived ==> w.received == p.stream)
    && |w.c.receiveBuffer| <= w.c.receiveCapacity
    && (w.c.state != Reset ==> w.received == w.drained + w.c.receiveBuffer)
    && w.drained + w.c.receiveBuffer <= w.received
    && (w.c.state == SynSent ==> w.received == [] && !w.finReceived)
    && (w.c.state != SynSent && w.c.state != Reset ==> w.c.rcv == Wrap32(p.irs + 1 + Taken32(w)))
  }

  /** A number congruent to a position inside the space is at that position. */
  lemma OffsetOf(p: Peer, sequence: u32, k: nat)
    requires k < U32_SPAN && sequence == Wrap32(p.irs + 1 + k)
    ensures StreamOffset(p, sequence) == k
  {
    WrapPlus(p.irs + 1 + k, -(p.irs + 1));
  }

  /** In-order payload is the next piece of the stream, never past the FIN. */
  lemma NextPiece(p: Peer, w: World, s: Segment)
    requires ValidPeer(p) && ReceiveInv(p, w) && FromPeer(p, s) && !s.flags.syn
    requires w.c.state !in {SynSent, Reset} && TakesPayload(w.c, s)
    ensures !w.finReceived && w.received + s.payload <= p.stream
    ensures Wrap32(w.c.rcv + |s.payload|) == Wrap32(p.irs + 1 + |w.received| + |s.payload|)
  {
    OffsetOf(p, s.sequence, Taken32(w));
    var k := |w.received|;
    assert !w.finReceived;
    assert w.received == p.stream[..k];
    assert p.stream[..k] + p.stream[k..k + |s.payload|] == p.stream[..k + |s.payload|];
    WrapDifference(p.irs + 1 + k, |s.payload|);
  }

  /** A FIN at the next number comes exactly once, after the whole stream. */
  lemma FinAtEnd(p: Peer, s: Segment, k: nat)
    requires ValidPeer(p) && FromPeer(p, s) && !s.flags.syn && s.flags.fin && k <= |p.stream| + 1
    requires Wrap32(s.sequence + |s.payload|) == Wrap32(p.irs + 1 + k)
    ensures k == |p.stream|
  {
    SameNumber(p.irs + 1, s.sequence, |s.payload|, k);
  }

  lemma SameNumber(base: int, sequence: int, n: int, k: int)
    requires 0 <= k < U32_SPAN && Wrap32(sequence + n) == Wrap32(base + k)
    ensures Wrap32(Wrap32(sequence - base) + n) == k
  {
    WrapPlus(sequence - base, n);
    WrapPlus(sequence + n, -base);
    WrapPlus(base + k, -base);
  }

  /** f: the segment was refused, or its payload taken, or its payload and then its FIN. */
  predicate Receives(c: Tcb, s: Segment, f: Tcb) {
    && |f.outstanding| <= |c.outstanding| && f.receiveCapacity == c.receiveCapacity
    && f.state !in {SynSent, Reset}
    && (|| (f.receiveBuffer == c.receiveBuffer && f.rcv == c.rcv)
        || (&& (TakesPayload(c, s) ==> |c.receiveBuffer| + |s.payload| <= c.receiveCapacity)
            && f.receiveBuffer == Taken(c, s).receiveBuffer
            && (|| f.rcv == Taken(c, s).rcv
                || (&& s.flags.fin && Wrap32(s.sequence + |s.payload|) == Taken(c, s).rcv
                    && f.rcv == Wrap32(Taken(c, s).rcv + 1)))))
  }

  /** What the receiving fields become when a segment reaches the payload stage. */
  lemma InOrderReceives(c: Tcb, s: Segment, now: u64)
    requires c.state !in {SynSent, Closed, Reset}
    ensures Receives(c, s, OnInOrder(c, s, now).0)
  {
    var (a, stop) := AckStage(c, s);
    assert a.rcv == c.rcv && a.receiveBuffer == c.receiveBuffer && a.receiveCapacity == c.receiveCapacity;
    assert |a.outstanding| <= |c.outstanding| && a.state !in {SynSent, Reset};
    if stop.None? && !(TakesPayload(a, s) && |a.receiveBuffer| + |s.payload| > a.receiveCapacity) {
      var first := if s.acknowledgment == c.una then DuplicateAck else Accepted;
      FinReceives(Taken(a, s), s, now, PayloadResult(a, s, first));
    }
  }

  lemma FinReceives(t: Tcb, s: Segment, now: u64, r: ReceiveResult)
    requires t.state !in {SynSent, Reset}
    ensures var f := FinStage(t, s, now, r).0;
      && f.receiveBuffer == t.receiveBuffer && f.outstanding == t.outstanding
      && f.receiveCapacity == t.receiveCapacity && f.state !in {SynSent, Reset}
      && (|| f.rcv == t.rcv
          || (&& s.flags.fin && Wrap32(s.sequence + |s.payload|) == t.rcv
              && f.rcv == Wrap32(t.rcv + 1)))
  {
  }

  /** The world after the payload stage, before a FIN is looked at. */
  lemma TakenKeepsReceive(p: Peer, w: World, s: Segment)
    requires ValidPeer(p) && ReceiveInv(p, w) && FromPeer(p, s) && !s.flags.syn
    requires w.c.state !in {SynSent, Reset}
    requires TakesPayload(w.c, s) ==> |w.c.receiveBuffer| + |s.payload| <= w.c.receiveCapacity
    ensures ReceiveInv(p, w.(c := Taken(w.c, s),
                             received := w.received + (if TakesPayload(w.c, s) then s.payload else [])))
    ensures Wrap32(w.c.rcv + (if TakesPayload(w.c, s) then |s.payload| else 0)) == Taken(w.c, s).rcv
  {
    if TakesPayload(w.c, s) {
      NextPiece(p, w, s);
    } else {
      assert w.received + [] == w.received;
    }
  }

  /** Then the FIN, if it is the next number. */
  lemma FinKeepsReceive(p: Peer, w: World, s: Segment)
    requires ValidPeer(p) && ReceiveInv(p, w) && FromPeer(p, s) && !s.flags.syn && s.flags.fin
    requires w.c.state !in {SynSent, Reset} && Wrap32(s.sequence + |s.payload|) == w.c.rcv
    ensures !w.finReceived
    ensures ReceiveInv(p, w.(c := w.c.(rcv := Wrap32(w.c.rcv + 1)), finReceived := true))
  {
    FinAtEnd(p, s, Taken32(w));
    WrapDifference(p.irs + 1 + |w.received|, 1);
  }

  /** The receive invariant looks at five fields of the connection. */
  lemma ReceiveLooksAt(p: Peer, w: World, w': World)
    requires ReceiveInv(p, w) && w.c.state != Reset
    requires w'.c.rcv == w.c.rcv && w'.c.receiveBuffer == w.c.receiveBuffer
    requires w'.c.receiveCapacity == w.c.receiveCapacity
    requires (w'.c.state == SynSent) == (w.c.state == SynSent)
    requires w'.received == w.received && w'.drained == w.drained && w'.finReceived == w.finReceived
    ensures ReceiveInv(p, w')
  {
  }

  lemma ReceivesKeeps(p: Peer, w: World, s: Segment, f: Tcb)
    requires ValidPeer(p) && ReceiveInv(p, w) && FromPeer(p, s) && !s.flags.syn
    requires w.c.state !in {SynSent, Reset} && Receives(w.c, s, f)
    ensures ReceiveInv(p, ArriveWith(w, s, f))
  {
    var w' := ArriveWith(w, s, f);
    if f.receiveBuffer == w.c.receiveBuffer && f.rcv == w.c.rcv {
      assert w'.received == w.received;
      ReceiveLooksAt(p, w, w');
    } else {
      TakenKeepsReceive(p, w, s);
      var taken := if TakesPayload(w.c, s) then s.payload else [];
      var t := w.(c := Taken(w.c, s), received := w.received + taken);
      assert f.receiveBuffer[|w.c.receiveBuffer|..] == taken;
      assert Wrap32(w.c.rcv + |taken|) == t.c.rcv;
      if f.rcv == t.c.rcv {
        ReceiveLooksAt(p, t, w');
      } else {
        FinTakenKeeps(p, t, s, w');
      }
    }
  }

  lemma FinTakenKeeps(p: Peer, t: World, s: Segment, w': World)
    requires ValidPeer(p) && ReceiveInv(p, t) && FromPeer(p, s) && !s.flags.syn && s.flags.fin
    requires t.c.state !in {SynSent, Reset} && Wrap32(s.sequence + |s.payload|) == t.c.rcv
    requires w'.c.rcv == Wrap32(t.c.rcv + 1) && w'.c.receiveBuffer == t.c.receiveBuffer
    requires w'.c.receiveCapacity == t.c.receiveCapacity && w'.c.state !in {SynSent, Reset}
    requires w'.received == t.received && w'.drained == t.drained && w'.finReceived
    ensures ReceiveInv(p, w')
  {
    FinKeepsReceive(p, t, s);
    ReceiveLooksAt(p, t.(c := t.c.(rcv := w'.c.rcv), finReceived := true), w');
  }

  lemma HandshakeKeepsReceive(p: Peer, w: World, s: Segment)
    requires ReceiveInv(p, w) && FromPeer(p, s) && w.c.state == SynSent
    ensures ReceiveInv(p, ArriveWith(w, s, OnSynSent(w.c, s).0))
  {
    assert w.received + [] == w.received;
  }

  lemma UnchangedKeepsReceive(p: Peer, w: World, s: Segment)
    requires ReceiveInv(p, w)
    ensures ReceiveInv(p, ArriveWith(w, s, w.c)) && ReceiveInv(p, ArriveWith(w, s, Abort(w.c)))
  {
    assert w.received + [] == w.received;
    assert Wrap32(w.c.rcv) == w.c.rcv;
  }

  lemma ArriveKeepsReceive(p: Peer, w: World, s: Segment, now: u64)
    requires ValidPeer(p) && ReceiveInv(p, w) && FromPeer(p, s)
    ensures ReceiveInv(p, StepArrive(w, s, now))
  {
    SegmentCases(w.c, s, now);
    UnchangedKeepsReceive(p, w, s);
    var c := OnSegment(w.c, s, now).0;
    if c != w.c && c != Abort(w.c) {
      if w.c.state == SynSent {
        HandshakeKeepsReceive(p, w, s);
      } else {
        InOrderReceives(w.c, s, now);
        ReceivesKeeps(p, w, s, c);
      }
    }
  }

  lemma PollKeepsReceive(p: Peer, w: World, now: u64)
    requires ReceiveInv(p, w)
    ensures ReceiveInv(p, StepPoll(w, now))
  {
    var c := PollTransmit(w.c, now).0;
    assert c.rcv == w.c.rcv && c.receiveBuffer == w.c.receiveBuffer;
    assert c.receiveCapacity == w.c.receiveCapacity;
    assert c.state == SynSent <==> w.c.state == SynSent && c.state != Reset;
  }

  lemma StepKeepsReceive(p: Peer, w: World, e: Event)
    requires ValidPeer(p) && ReceiveInv(p, w) && PeerEvent(p, e)
    ensures ReceiveInv(p, Step(w, e))
  {
    match e
    case Arrive(s, now) => ArriveKeepsReceive(p, w, s, now);
    case Poll(now) => PollKeepsReceive(p, w, now);
    case Read(room) =>
      var n := Min(room, |w.c.receiveBuffer|);
      assert w.drained + w.c.receiveBuffer[..n] + w.c.receiveBuffer[n..] == w.drained + w.c.receiveBuffer;
    case Discard =>
      assert w.drained + w.c.receiveBuffer + [] == w.drained + w.c.receiveBuffer;
    case Queue(bytes) =>
    case CloseCall =>
    case TickCall(now) =>
    case AbortCall =>
  }

  // ---------------------------------------------------------------- outgoing acknowledgments

  predicate AckAt(p: Peer, acknowledgment: u32, j: nat) {
    acknowledgment == Wrap32(p.irs + 1 + j)
  }

  /** An acknowledgment number that covers only what was taken. */
  ghost predicate Covered(p: Peer, w: World, acknowledgment: u32) {
    exists j: nat :: j <= Taken32(w) && AckAt(p, acknowledgment, j)
  }

  ghost predicate AckInv(p: Peer, w: World) {
    && (forall i: nat :: i < |w.log| && w.log[i].t.flags.ack ==> Covered(p, w, w.log[i].t.acknowledgment))
    && (forall i: nat :: i < |w.c.outstanding| && w.c.outstanding[i].flags.ack ==>
          Covered(p, w, w.c.outstanding[i].acknowledgment))
  }

  lemma {:induction false} DropIsSuffix(segments: seq<Outstanding>, a: u32)
    ensures exists k :: 0 <= k <= |segments| && DropAcknowledged(segments, a) == segments[k..]
  {
    if segments == [] || SequenceAfter(SequenceEnd(segments[0]), a) {
      assert segments[0..] == segments;
    } else {
      DropIsSuffix(segments[1..], a);
      var k :| 0 <= k <= |segments[1..]| && DropAcknowledged(segments[1..], a) == segments[1..][k..];
      assert segments[1..][k..] == segments[k + 1..];
    }
  }

  lemma CoveredStays(p: Peer, w: World, w': World, a: u32)
    requires Covered(p, w, a) && Taken32(w) <= Taken32(w')
    ensures Covered(p, w', a)
  {
    var j: nat :| j <= Taken32(w) && AckAt(p, a, j);
    assert j <= Taken32(w') && AckAt(p, a, j);
  }

  lemma QuietKeepsAcks(p: Peer, w: World, w': World)
    requires AckInv(p, w) && w'.log == w.log && Taken32(w) <= Taken32(w')
    requires exists k :: 0 <= k <= |w.c.outstanding| && w'.c.outstanding == w.c.outstanding[k..]
    ensures AckInv(p, w')
  {
    forall i: nat | i < |w.log| && w.log[i].t.flags.ack
      ensures Covered(p, w', w.log[i].t.acknowledgment)
    {
      CoveredStays(p, w, w', w.log[i].t.acknowledgment);
    }
    forall i: nat | i < |w'.c.outstanding| && w'.c.outstanding[i].flags.ack
      ensures Covered(p, w', w'.c.outstanding[i].acknowledgment)
    {
      var k :| 0 <= k <= |w.c.outstanding| && w'.c.outstanding == w.c.outstanding[k..];
      CoveredStays(p, w, w', w.c.outstanding[k + i].acknowledgment);
    }
  }

  lemma InOrderSuffix(c: Tcb, s: Segment, now: u64)
    requires c.state !in {SynSent, Closed, Reset}
    ensures exists k :: 0 <= k <= |c.outstanding| && OnInOrder(c, s, now).0.outstanding == c.outstanding[k..]
  {
    DropIsSuffix(c.outstanding, s.acknowledgment);
    assert c.outstanding[0..] == c.outstanding;
    var (a, stop) := AckStage(c, s);
    assert a.outstanding == c.outstanding || a.outstanding == DropAcknowledged(c.outstanding, s.acknowledgment);
    if stop.None? {
      assert OnInOrder(c, s, now).0.outstanding == a.outstanding;
    }
  }

  lemma ArriveSuffix(c: Tcb, s: Segment, now: u64)
    ensures exists k :: 0 <= k <= |c.outstanding| && OnSegment(c, s, now).0.outstanding == c.outstanding[k..]
  {
    SegmentCases(c, s, now);
    assert c.outstanding[0..] == c.outstanding && c.outstanding[|c.outstanding|..] == [];
    DropIsSuffix(c.outstanding, s.acknowledgment);
    if c.state !in {SynSent, Closed, Reset} {
      InOrderSuffix(c, s, now);
    }
  }

  /** A fresh segment acknowledges exactly what has been taken. */
  lemma FreshAck(p: Peer, w: World)
    requires ReceiveInv(p, w) && w.c.state !in {SynSent, Reset}
    ensures Covered(p, w, w.c.rcv)
  {
    assert AckAt(p, w.c.rcv, Taken32(w));
  }

  /** An emission repeats the first outstanding segment or is fresh. */
  lemma PollAckSources(w: World, now: u64)
    ensures var w' := StepPoll(w, now);
      && w'.received == w.received && w'.finReceived == w.finReceived
      && |w.c.outstanding| <= |w'.c.outstanding|
      && (forall i: nat :: i < |w'.c.outstanding| ==>
            var o := w'.c.outstanding[i];
            if i < |w.c.outstanding| then o.acknowledgment == w.c.outstanding[i].acknowledgment
                                          && o.flags == w.c.outstanding[i].flags
            else o.acknowledgment == w.c.rcv && w.c.state !in {SynSent, Reset})
      && (w'.log == w.log
          || (&& |w'.log| == |w.log| + 1 && w.log <= w'.log && w'.c.outstanding != []
              && w'.log[|w.log|].t.acknowledgment == w'.c.outstanding[0].acknowledgment
              && w'.log[|w.log|].t.flags == w'.c.outstanding[0].flags))
  {
  }

  lemma PollKeepsAcks(p: Peer, w: World, now: u64)
    requires ReceiveInv(p, w) && AckInv(p, w)
    ensures AckInv(p, StepPoll(w, now))
  {
    var w' := StepPoll(w, now);
    PollAckSources(w, now);
    if w.c.state !in {SynSent, Reset} { FreshAck(p, w); }
    forall i: nat | i < |w'.c.outstanding| && w'.c.outstanding[i].flags.ack
      ensures Covered(p, w', w'.c.outstanding[i].acknowledgment)
    {
      CoveredStays(p, w, w', w'.c.outstanding[i].acknowledgment);
    }
    forall i: nat | i < |w'.log| && w'.log[i].t.flags.ack
      ensures Covered(p, w', w'.log[i].t.acknowledgment)
    {
      if i < |w.log| { CoveredStays(p, w, w', w'.log[i].t.acknowledgment); }
    }
  }

  lemma StepKeepsAcks(p: Peer, w: World, e: Event)
    requires ReceiveInv(p, w) && AckInv(p, w)
    ensures AckInv(p, Step(w, e))
  {
    var w' := Step(w, e);
    match e
    case Poll(now) => PollKeepsAcks(p, w, now);
    case Arrive(s, now) =>
      ArriveSuffix(w.c, s, now);
      QuietKeepsAcks(p, w, w');
    case _ =>
      assert w.c.outstanding[0..] == w.c.outstanding && w.c.outstanding[|w.c.outstanding|..] == [];
      QuietKeepsAcks(p, w, w');
  }
}
