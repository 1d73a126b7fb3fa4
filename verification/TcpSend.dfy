/** What every run keeps about the bytes going out. */
module TcpSend {
  import opened Machine
  import opened TcpSpec
  import opened TcpRuns

  /** The states reached only after the FIN went out. */
  predicate FinPhase(s: State) {
    s in {FinWait1, FinWait2, LastAck, TimeWait, Closed}
  }

  function OutPayload(c: Tcb): seq<byte> {
    if c.outstanding == [] then [] else c.outstanding[0].payload
  }

  /** The unbounded sequence position of the first byte not fully acknowledged. */
  function Base(w: World): nat {
    w.iss + 1 + |w.acked|
  }

  predicate SegmentInv(w: World, s: Outstanding) {
    && s.sequence == Wrap32(Base(w))
    && w.c.next == SequenceEnd(s)
    && s.sentAt.Some? && s.mss == None
    && s.flags == (if w.finSent then FIN_ACK else PSH_ACK)
    && (w.finSent <==> s.payload == [])
    && |s.payload| <= 0xFFFF
    && Wrap32(w.c.una - s.sequence) < Extent(s)
  }

  /** The part of the stream invariant that does not look at the state. */
  predicate StreamCore(w: World) {
    && w.accepted == w.acked + OutPayload(w.c) + w.c.sendBuffer
    && |OutPayload(w.c)| + |w.c.sendBuffer| <= w.c.sendCapacity
    && (w.finSent ==> w.c.sendBuffer == [])
    && (w.c.outstanding == [] ==> w.c.una == w.c.next == Wrap32(Base(w) + B2N(w.finSent)))
    && (w.c.outstanding != [] ==> SegmentInv(w, w.c.outstanding[0]))
  }

  predicate StateMatches(w: World) {
    && (w.finSent <==> FinPhase(w.c.state))
    && (w.c.state in {FinWait1, LastAck} ==> w.c.outstanding != [])
    && (w.c.state == FinWait2 ==> w.c.outstanding == [])
  }

  predicate StreamInv(w: World) {
    StreamCore(w) && StateMatches(w)
  }

  predicate HandshakeInv(w: World) {
    && w.accepted == w.acked == w.c.sendBuffer == [] && !w.finSent
    && w.c.una == w.iss && w.c.next == Wrap32(w.iss + 1)
    && |w.c.outstanding| == 1
    && var s := w.c.outstanding[0];
       s.sequence == w.iss && s.flags == SYN && s.payload == []
  }

  predicate SendInv(w: World) {
    && |w.c.outstanding| <= 1
    && (w.c.state == SynSent ==> HandshakeInv(w))
    && (w.c.state != SynSent && w.c.state != Reset ==> StreamInv(w))
    && (w.c.state == Reset && w.c.outstanding != [] ==>
          w.c.outstanding[0].sentAt.Some? && w.c.outstanding[0].retries >= w.c.retryLimit)
  }

  // ---------------------------------------------------------------- preservation

  lemma QueueKeepsSend(w: World, bytes: seq<byte>)
    requires SendInv(w)
    ensures SendInv(StepQueue(w, bytes))
  {
    if CanSend(w.c.state) {
      assert InFlight(w.c.outstanding) == |OutPayload(w.c)|;
      var w' := StepQueue(w, bytes);
      assert w'.accepted == w'.acked + OutPayload(w'.c) + w'.c.sendBuffer;
      assert Base(w') == Base(w);
      assert w.c.outstanding != [] ==> SegmentInv(w', w.c.outstanding[0]);
    }
  }

  lemma PollDataKeepsSend(w: World, now: u64)
    requires SendInv(w) && w.c.outstanding == [] && CanSend(w.c.state) && w.c.sendBuffer != []
    ensures SendInv(StepPoll(w, now))
  {
    var n := Min(SegmentLimit(w.c), |w.c.sendBuffer|);
    if n != 0 {
      var w' := StepPoll(w, now);
      assert w.c.sendBuffer == w.c.sendBuffer[..n] + w.c.sendBuffer[n..];
      assert w'.accepted == w'.acked + OutPayload(w'.c) + w'.c.sendBuffer;
    }
  }

  lemma PollFinKeepsSend(w: World, now: u64)
    requires SendInv(w) && w.c.outstanding == [] && CanSend(w.c.state)
    requires w.c.sendBuffer == [] && w.c.closeRequested
    ensures SendInv(StepPoll(w, now))
  {
    var w' := StepPoll(w, now);
    var s := w'.c.outstanding[0];
    assert Base(w') == Base(w) && s.sequence == Wrap32(Base(w));
    assert w'.c.una == s.sequence;
  }

  /** Polling an outstanding segment touches only its timer and retry count. */
  lemma PollOutstandingShape(w: World, now: u64)
    requires |w.c.outstanding| == 1
    ensures var w', s := StepPoll(w, now), w.c.outstanding[0];
      && |w'.c.outstanding| == 1
      && var s' := w'.c.outstanding[0];
      && s' == s.(sentAt := s'.sentAt, retries := s'.retries)
      && (s.sentAt.Some? ==> s'.sentAt.Some?)
      && (w'.c == w.c.(outstanding := [s'])
          || (w'.c == w.c.(state := Reset) && s.sentAt.Some? && s.retries >= w.c.retryLimit))
      && (w'.c.state == Reset && s.sentAt.Some? && s.retries >= w.c.retryLimit ==> w'.log == w.log && s' == s)
      && w' == w.(c := w'.c, log := w'.log, finSent := w'.finSent)
      && (w'.finSent == w.finSent || s.flags.fin)
  {
    assert w.c.outstanding == [w.c.outstanding[0]];
  }

  lemma PollOutstandingKeepsSend(w: World, now: u64)
    requires SendInv(w) && w.c.outstanding != []
    ensures SendInv(StepPoll(w, now))
  {
    PollOutstandingShape(w, now);
    var w' := StepPoll(w, now);
    if w'.c.state !in {SynSent, Reset} {
      assert w'.finSent == w.finSent;
      assert Base(w') == Base(w) && OutPayload(w'.c) == OutPayload(w.c);
      assert SegmentInv(w', w'.c.outstanding[0]);
    }
  }

  lemma PollKeepsSend(w: World, now: u64)
    requires SendInv(w)
    ensures SendInv(StepPoll(w, now))
  {
    if w.c.outstanding != [] {
      PollOutstandingKeepsSend(w, now);
    } else if CanSend(w.c.state) {
      if w.c.sendBuffer != [] {
        PollDataKeepsSend(w, now);
      } else if w.c.closeRequested {
        PollFinKeepsSend(w, now);
      }
    }
  }

  lemma OffsetShift(q: int, o: int, a: int)
    ensures Wrap32(a - (q + o)) == Wrap32(Wrap32(a - q) - o)
  {
    var k := (a - q) / U32_SPAN;
    ModShift(Wrap32(a - q) - o, k);
  }

  /** Acceptance of `a` in offsets from the first outstanding number `q`. */
  lemma AckOffsets(q: u32, extent: nat, una: u32, a: u32)
    requires Wrap32(una - q) <= extent <= 0x1_0000
    ensures (!SequenceBefore(a, una) && !SequenceAfter(a, Wrap32(q + extent)))
       <==> Wrap32(una - q) <= Wrap32(a - q) <= extent
  {
    var o: int, d: int := Wrap32(una - q), Wrap32(a - q);
    assert una == Wrap32(q + o) by { AckWindow(q, 0, una); }
    AckWindow(q + o, extent - o, a);
    assert Wrap32(a - (q + o)) == Wrap32(d - o) by { OffsetShift(q, o, a); }
    OffsetRange(o, d, extent);
  }

  lemma OffsetRange(o: int, d: int, extent: int)
    requires 0 <= o <= extent <= 0x1_0000 && 0 <= d < U32_SPAN
    ensures Wrap32(d - o) <= extent - o <==> o <= d <= extent
  {
  }

  /** The segment is retired exactly by the number just past it. */
  lemma RetireOffset(q: u32, extent: nat, a: u32)
    requires Wrap32(a - q) <= extent <= 0x1_0000
    ensures a == Wrap32(q + extent) <==> Wrap32(a - q) == extent
    ensures SequenceAfter(Wrap32(q + extent), a) <==> Wrap32(a - q) < extent
  {
    var d := Wrap32(a - q);
    assert a == Wrap32(q + d) by { AckWindow(q, 0, a); }
    SerialOrder(q + d, q + extent);
    if a == Wrap32(q + extent) {
      WrapDifference(q + extent, q);
    }
  }

  /** One acceptable number moves `una` inside the segment, or retires the segment. */
  lemma AckEffect(w: World, a: u32)
    requires |w.c.outstanding| == 1 && SegmentInv(w, w.c.outstanding[0])
    ensures var s := w.c.outstanding[0];
      && (AckAcceptable(w.c, a) <==> Wrap32(w.c.una - s.sequence) <= Wrap32(a - s.sequence) <= Extent(s))
      && (AckAcceptable(w.c, a) ==>
            DropAcknowledged(w.c.outstanding, a) == if a == w.c.next then [] else [s])
      && (AckAcceptable(w.c, a) && a != w.c.next ==> Wrap32(a - s.sequence) < Extent(s))
  {
    var s := w.c.outstanding[0];
    AckOffsets(s.sequence, Extent(s), w.c.una, a);
    assert w.c.outstanding == [s];
    if AckAcceptable(w.c, a) {
      RetireOffset(s.sequence, Extent(s), a);
    }
  }

  lemma AckWithNothingOut(c: Tcb, a: u32)
    requires c.una == c.next
    ensures AckAcceptable(c, a) <==> a == c.una
  {
    AckWindow(c.una, 0, a);
    WrapDifference(c.una, 0);
  }

  function AfterAck(w: World, a: Tcb): World
    requires |a.outstanding| <= |w.c.outstanding|
  {
    w.(c := a, acked := w.acked + Payloads(w.c.outstanding[..|w.c.outstanding| - |a.outstanding|]))
  }

  /** The number past the segment: the segment's bytes join the acknowledged ones. */
  lemma RetiredKeepsStream(w: World, s: Outstanding, c: Tcb)
    requires StreamCore(w) && w.c.outstanding == [s]
    requires c == w.c.(una := w.c.next, outstanding := [])
    ensures StreamCore(AfterAck(w, c))
  {
    assert Payloads([s]) == s.payload by { assert [s][1..] == []; }
    assert [s][..1] == [s];
    var w' := AfterAck(w, c);
    assert w'.acked == w.acked + s.payload;
    assert w'.accepted == w'.acked + OutPayload(c) + c.sendBuffer;
    assert c.next == Wrap32(Base(w') + B2N(w.finSent)) by {
      WrapDifference(Base(w), Extent(s));
    }
  }

  /** A number inside the segment: only `una` moves. */
  lemma PartialKeepsStream(w: World, s: Outstanding, a: u32)
    requires StreamCore(w) && w.c.outstanding == [s] && Wrap32(a - s.sequence) < Extent(s)
    ensures StreamCore(AfterAck(w, w.c.(una := a)))
  {
    assert Payloads([s][..0]) == [];
    var w' := AfterAck(w, w.c.(una := a));
    assert w' == w.(c := w.c.(una := a));
    assert Base(w') == Base(w);
  }

  lemma AcknowledgedKeepsStream(w: World, a: u32)
    requires SendInv(w) && w.c.state !in {SynSent, Reset, Closed} && a != w.c.una
    requires AckAcceptable(w.c, a)
    ensures w.c.outstanding != []
    ensures var c := Acknowledged(w.c, a);
      && |c.outstanding| <= |w.c.outstanding|
      && (a == w.c.next <==> c.outstanding == [])
      && StreamCore(AfterAck(w, c))
  {
    if w.c.outstanding == [] {
      AckWithNothingOut(w.c, a);
      assert false;
    }
    AckEffect(w, a);
    var s := w.c.outstanding[0];
    assert w.c.outstanding == [s];
    if a == w.c.next {
      RetiredKeepsStream(w, s, Acknowledged(w.c, a));
    } else {
      PartialKeepsStream(w, s, a);
    }
  }

  /** The core only looks at five fields of the connection. */
  lemma CoreLooksAt(w: World, c: Tcb)
    requires StreamCore(w)
    requires SameSending(c, w.c)
    ensures StreamCore(w.(c := c))
  {
    assert Base(w.(c := c)) == Base(w);
  }

  lemma AcceptedAckKeepsSend(w: World, s: Segment)
    requires SendInv(w) && w.c.state !in {SynSent, Reset, Closed}
    requires s.acknowledgment != w.c.una && AckAcceptable(w.c, s.acknowledgment)
    ensures var c := AckStage(w.c, s).0;
      && |c.outstanding| <= |w.c.outstanding|
      && SendInv(AfterAck(w, c))
      && c.state in {w.c.state, FinWait2, Closed}
  {
    AcknowledgedKeepsStream(w, s.acknowledgment);
    var a, c := Acknowledged(w.c, s.acknowledgment), AckStage(w.c, s).0;
    var w' := AfterAck(w, c);
    assert w' == AfterAck(w, a).(c := c);
    CoreLooksAt(AfterAck(w, a), c);
    assert StateMatches(w');
  }

  lemma AckStageKeepsSend(w: World, s: Segment)
    requires SendInv(w) && w.c.state !in {SynSent, Reset, Closed}
    ensures var c := AckStage(w.c, s).0;
      && |c.outstanding| <= |w.c.outstanding|
      && SendInv(AfterAck(w, c))
      && c.state in {w.c.state, FinWait2, Closed}
  {
    if s.acknowledgment != w.c.una && AckAcceptable(w.c, s.acknowledgment) {
      AcceptedAckKeepsSend(w, s);
    } else {
      var c := AckStage(w.c, s).0;
      assert Payloads(w.c.outstanding[..|w.c.outstanding| - |c.outstanding|]) == [];
      assert AfterAck(w, c) == w.(c := c);
      CoreLooksAt(w, c);
    }
  }

  /** Payload and FIN processing leave the sending side alone. */
  lemma TailKeepsSend(w: World, c: Tcb)
    requires SendInv(w) && w.c.state !in {SynSent, Reset}
    requires SameSending(c, w.c)
    requires c.state == w.c.state || (w.c.state == Established && c.state == CloseWait)
          || (w.c.state in {FinWait1, FinWait2} && c.state == TimeWait)
    ensures SendInv(w.(c := c))
  {
    CoreLooksAt(w, c);
  }

  lemma HandshakeKeepsSend(w: World, s: Segment)
    requires SendInv(w) && w.c.state == SynSent
    ensures var c := OnSynSent(w.c, s).0;
      && |c.outstanding| <= |w.c.outstanding| && c.receiveBuffer == w.c.receiveBuffer
      && SendInv(AfterAck(w, c))
  {
    assert w.c.outstanding[..0] == [];
    var (c, r) := OnSynSent(w.c, s);
    if r.Ok? {
      var syn := w.c.outstanding[0];
      assert w.c.outstanding == [syn] && [syn][..1] == [syn] && Payloads([syn]) == [];
      assert Extent(syn) == 1;
      assert SequenceEnd(syn) == w.c.next;
      assert !SequenceAfter(w.c.next, w.c.next);
      assert DropAcknowledged([syn], w.c.next) == DropAcknowledged([syn][1..], w.c.next) == [];
    }
  }

  /** The fields of the sending side. */
  predicate SameSending(c: Tcb, d: Tcb) {
    && c.una == d.una && c.next == d.next && c.outstanding == d.outstanding
    && c.sendBuffer == d.sendBuffer && c.sendCapacity == d.sendCapacity
    && c.timeout == d.timeout && c.retryLimit == d.retryLimit
  }

  lemma FinShape(c: Tcb, s: Segment, now: u64, r: ReceiveResult)
    ensures var f := FinStage(c, s, now, r).0;
      && SameSending(f, c) && f.receiveBuffer == c.receiveBuffer
      && (f.state == c.state || (c.state == Established && f.state == CloseWait)
          || (c.state in {FinWait1, FinWait2} && f.state == TimeWait))
  {
  }

  lemma InOrderShape(c: Tcb, s: Segment, now: u64)
    ensures var a, f := AckStage(c, s).0, OnInOrder(c, s, now).0;
      && SameSending(f, a)
      && (f.state == a.state || (a.state == Established && f.state == CloseWait)
          || (a.state in {FinWait1, FinWait2} && f.state == TimeWait))
      && a.receiveBuffer == c.receiveBuffer <= f.receiveBuffer
  {
    var (a, stop) := AckStage(c, s);
    if stop.None? {
      var first := if s.acknowledgment == c.una then DuplicateAck else Accepted;
      FinShape(Taken(a, s), s, now, PayloadResult(a, s, first));
    }
  }

  lemma UnchangedKeepsSend(w: World)
    requires SendInv(w)
    ensures AfterAck(w, w.c) == w
  {
    assert Payloads(w.c.outstanding[..|w.c.outstanding| - |w.c.outstanding|]) == [];
  }

  lemma InOrderKeepsSend(w: World, s: Segment, now: u64)
    requires SendInv(w) && w.c.state !in {SynSent, Reset, Closed}
    ensures var c := OnInOrder(w.c, s, now).0;
      && |c.outstanding| <= |w.c.outstanding| && w.c.receiveBuffer <= c.receiveBuffer
      && SendInv(AfterAck(w, c))
  {
    AckStageKeepsSend(w, s);
    InOrderShape(w.c, s, now);
    var a, c := AckStage(w.c, s).0, OnInOrder(w.c, s, now).0;
    assert AfterAck(w, c) == AfterAck(w, a).(c := c);
    TailKeepsSend(AfterAck(w, a), c);
  }

  lemma SegmentKeepsSend(w: World, s: Segment, now: u64)
    requires SendInv(w)
    ensures var c := OnSegment(w.c, s, now).0;
      && (c.state != Reset ==>
            |c.outstanding| <= |w.c.outstanding| && w.c.receiveBuffer <= c.receiveBuffer
            && SendInv(AfterAck(w, c)))
      && (c.state == Reset ==> c == w.c || c.outstanding == [])
  {
    UnchangedKeepsSend(w);
    SegmentCases(w.c, s, now);
    var c := OnSegment(w.c, s, now).0;
    if c != w.c && c != Abort(w.c) {
      if w.c.state == SynSent {
        HandshakeKeepsSend(w, s);
      } else {
        InOrderKeepsSend(w, s, now);
      }
    }
  }

  lemma ArriveKeepsSend(w: World, s: Segment, now: u64)
    requires SendInv(w)
    ensures SendInv(StepArrive(w, s, now))
  {
    SegmentKeepsSend(w, s, now);
    var c := OnSegment(w.c, s, now).0;
    if c.state != Reset {
      HistoryIrrelevant(AfterAck(w, c), StepArrive(w, s, now));
    }
  }

  lemma HistoryIrrelevant(w: World, w': World)
    requires SendInv(w)
    requires (w.c, w.iss, w.accepted, w.acked, w.finSent)
          == (w'.c, w'.iss, w'.accepted, w'.acked, w'.finSent)
    ensures SendInv(w')
  {
  }

  /** Reading, closing requests and the timer leave the stream fields alone. */
  lemma QuietKeepsSend(w: World, w': World)
    requires SendInv(w)
    requires SameSending(w.c, w'.c)
    requires w.c.state == w'.c.state || (w.c.state == TimeWait && w'.c.state == Closed)
    requires (w.iss, w.accepted, w.acked, w.finSent) == (w'.iss, w'.accepted, w'.acked, w'.finSent)
    ensures SendInv(w')
  {
    if w.c.state !in {SynSent, Reset} {
      CoreLooksAt(w, w'.c);
      assert StreamCore(w') by { assert Base(w') == Base(w.(c := w'.c)); }
    }
  }

  lemma StepKeepsSend(w: World, e: Event)
    requires SendInv(w)
    ensures SendInv(Step(w, e))
  {
    match e
    case Queue(bytes) => QueueKeepsSend(w, bytes);
    case Poll(now) => PollKeepsSend(w, now);
    case Arrive(s, now) => ArriveKeepsSend(w, s, now);
    case AbortCall =>
    case _ => QuietKeepsSend(w, Step(w, e));
  }
}
