/**
 * What each arriving segment reports, in every run: bytes or a FIN that were taken are always
 * reported for acknowledgment, and any other report says exactly where the segment stood.
 */
module TcpReports {
  import opened Machine
  import opened TcpSpec
  import opened TcpRuns
  import opened TcpSend
  import opened TcpClosing

  /** What `on_segment` reports for the segment that arrives at event i of a run. */
  function Report(ws: seq<World>, es: seq<Event>, i: nat): Result<ReceiveResult, Error>
    requires i < |ws| && i < |es| && es[i].Arrive?
  {
    OnSegment(ws[i].c, es[i].segment, es[i].at).1
  }

  // ---------------------------------------------------------------- taken means acknowledged

  lemma FinReports(c: Tcb, s: Segment, now: u64, r: ReceiveResult)
    ensures var (f, q) := FinStage(c, s, now, r);
      && (f.rcv != c.rcv ==> q == Acknowledge) && (!s.flags.fin ==> q == r && f == c)
      && (s.flags.fin ==> q == if Wrap32(s.sequence + |s.payload|) == c.rcv then Acknowledge else OutOfOrder)
  {
  }

  lemma InOrderTaken(c: Tcb, s: Segment, now: u64)
    requires Processed(c, s)
    ensures var (f, r) := OnInOrder(c, s, now);
      f.receiveBuffer != c.receiveBuffer || f.rcv != c.rcv ==> r == Ok(Acknowledge)
  {
    var (a, stop) := AckStage(c, s);
    if stop.None? && !(TakesPayload(a, s) && |a.receiveBuffer| + |s.payload| > a.receiveCapacity) {
      var first := if s.acknowledgment == c.una then DuplicateAck else Accepted;
      FinReports(Taken(a, s), s, now, PayloadResult(a, s, first));
    }
  }

  lemma SegmentTaken(c: Tcb, s: Segment, now: u64)
    requires c.state != SynSent && OnSegment(c, s, now).0.state != Reset
    ensures var (f, r) := OnSegment(c, s, now);
      f.receiveBuffer != c.receiveBuffer || f.rcv != c.rcv ==> r == Ok(Acknowledge)
  {
    SegmentPaths(c, s, now);
    if Processed(c, s) {
      InOrderTaken(c, s, now);
      ProcessedIs(c, s, now);
    }
  }

  lemma ProcessedIs(c: Tcb, s: Segment, now: u64)
    requires Processed(c, s)
    ensures OnSegment(c, s, now) == OnInOrder(c, s, now)
  {
  }

  lemma StepTaken(w: World, s: Segment, now: u64)
    requires var w' := StepArrive(w, s, now); w'.received != w.received || (w'.finReceived && !w.finReceived)
    ensures OnSegment(w.c, s, now).1 == Ok(Acknowledge)
  {
    var c := OnSegment(w.c, s, now).0;
    if w.c.state != SynSent && c.state != Reset {
      SegmentTaken(w.c, s, now);
    }
  }

  /** In every run, a segment whose bytes or FIN were taken is reported for acknowledgment. */
  lemma TakenIsAcknowledged(o: Opening, ws: seq<World>, es: seq<Event>, i: nat)
    requires IsRun(o, ws, es) && i < |es| && es[i].Arrive?
    requires ws[i + 1].received != ws[i].received || (ws[i + 1].finReceived && !ws[i].finReceived)
    ensures Report(ws, es, i) == Ok(Acknowledge)
  {
    assert Next(ws[i], es[i], ws[i + 1]);
    StepTaken(ws[i], es[i].segment, es[i].at);
  }

  // ---------------------------------------------------------------- where a segment stood

  /** The segment reaches the sequence tests: the connection is open, no RST, no SYN, an acknowledgment. */
  predicate Tested(c: Tcb, s: Segment) {
    c.state !in {SynSent, Closed, Reset} && !s.flags.rst && !s.flags.syn && s.flags.ack
  }

  predicate AckTaken(c: Tcb, s: Segment) {
    s.acknowledgment == c.una || AckAcceptable(c, s.acknowledgment)
  }

  /** The acknowledgment of the own FIN that ends a connection. */
  predicate EndsIt(c: Tcb, s: Segment) {
    c.state == LastAck && s.acknowledgment == c.next != c.una && AckAcceptable(c, s.acknowledgment)
  }

  /** The segment's integer position p, within half the number space of the next expected position n. */
  predicate StandsAt(c: Tcb, s: Segment, p: int, n: int) {
    s.sequence == Wrap32(p) && c.rcv == Wrap32(n) && -0x8000_0000 <= p - n < 0x8000_0000
  }

  lemma Positions(c: Tcb, s: Segment, p: int, n: int)
    requires StandsAt(c, s, p, n)
    ensures (SequenceBefore(s.sequence, c.rcv) <==> p < n) && (s.sequence == c.rcv <==> p == n)
  {
    SerialOrder(p, n);
    WrapDifference(p, n);
  }

  /** Nothing but a bare acknowledgment, which is only looked at when it stands at the next number. */
  predicate Bare(s: Segment) {
    s.payload == [] && !s.flags.fin
  }

  predicate Overflows(c: Tcb, s: Segment, p: int, n: int) {
    s.payload != [] && p == n && |c.receiveBuffer| + |s.payload| > c.receiveCapacity
  }

  lemma BareReports(c: Tcb, s: Segment, now: u64, p: int, n: int)
    requires Tested(c, s) && StandsAt(c, s, p, n) && Bare(s) && p != n
    ensures OnSegment(c, s, now) == (c, Ok(if p < n then DuplicateSegment else OutOfOrder))
  {
    Positions(c, s, p, n);
  }

  /** The errors: an acknowledgment outside the window, or no room for payload that is due. */
  lemma ErrorReports(c: Tcb, s: Segment, now: u64, p: int, n: int)
    requires Tested(c, s) && StandsAt(c, s, p, n) && !(Bare(s) && p != n)
    ensures var r := OnSegment(c, s, now).1;
      && (r == Err(InvalidAcknowledgment) <==> !AckTaken(c, s))
      && (r == Ok(WasClosed) <==> EndsIt(c, s))
      && (r == Err(ReceiveBufferFull) <==> AckTaken(c, s) && !EndsIt(c, s) && Overflows(c, s, p, n))
      && (r.Err? ==> r.error in {InvalidAcknowledgment, ReceiveBufferFull})
  {
    Positions(c, s, p, n);
    ProcessedIs(c, s, now);
  }

  lemma FinEnds(c: Tcb, s: Segment, p: int, n: int)
    requires StandsAt(c, s, p, n)
    ensures Wrap32(s.sequence + |s.payload|) == Taken(c, s).rcv
       <==> (s.payload != [] && p == n) || Wrap32(p + |s.payload| - n) == 0
  {
    Positions(c, s, p, n);
    WrapPlus(p, |s.payload|);
    WrapPlus(n, |s.payload|);
    WrapDifference(p + |s.payload|, n);
  }

  /** What an accepted segment reports. */
  predicate ReportsPlace(c: Tcb, s: Segment, p: int, n: int, r: ReceiveResult, una: u32) {
    if s.flags.fin then
      r == if p == n || Wrap32(p + |s.payload| - n) == 0 then Acknowledge else OutOfOrder
    else if p < n then r == DuplicateSegment
    else if p > n then r == OutOfOrder
    else if s.payload != [] then r == Acknowledge
    else r == if una == c.una then DuplicateAck else Accepted
  }

  lemma PlaceReports(c: Tcb, s: Segment, now: u64, p: int, n: int)
    requires Tested(c, s) && StandsAt(c, s, p, n) && !(Bare(s) && p != n)
    requires AckTaken(c, s) && !EndsIt(c, s) && !Overflows(c, s, p, n)
    ensures var (f, r) := OnSegment(c, s, now); r.Ok? && ReportsPlace(c, s, p, n, r.value, f.una)
  {
    Positions(c, s, p, n);
    FinEnds(c, s, p, n);
    ProcessedIs(c, s, now);
    InOrderPlaced(c, s, now);
  }

  lemma InOrderPlaced(c: Tcb, s: Segment, now: u64)
    requires Processed(c, s) && AckTaken(c, s) && !EndsIt(c, s)
    requires !(TakesPayload(c, s) && |c.receiveBuffer| + |s.payload| > c.receiveCapacity)
    ensures var (f, r) := OnInOrder(c, s, now);
      && f.una == s.acknowledgment && r.Ok?
      && (s.flags.fin ==>
            r.value == if Wrap32(s.sequence + |s.payload|) == Taken(c, s).rcv then Acknowledge else OutOfOrder)
      && (!s.flags.fin && s.payload != [] ==>
            r.value == if s.sequence == c.rcv then Acknowledge
                       else if SequenceBefore(s.sequence, c.rcv) then DuplicateSegment else OutOfOrder)
      && (Bare(s) ==> r.value == if s.acknowledgment == c.una then DuplicateAck else Accepted)
  {
    var a := AckStage(c, s).0;
    var first := if s.acknowledgment == c.una then DuplicateAck else Accepted;
    InOrderShape(c, s, now);
    FinReports(Taken(a, s), s, now, PayloadResult(a, s, first));
  }

  /**
   * In every run, what a segment on an open connection reports, by its integer position p and
   * the next expected position n within half the number space of each other: a bare
   * acknowledgment elsewhere is a duplicate or out of order; an unacceptable acknowledgment and
   * payload that does not fit are the only errors; the acknowledgment of the last FIN closes;
   * a FIN is acknowledged exactly when it ends at n, and is otherwise out of order; payload is
   * acknowledged at n, a duplicate before it and out of order past it; and a bare
   * acknowledgment at n is accepted exactly when it moves the first unacknowledged number.
   */
  lemma ReportedExactly(o: Opening, ws: seq<World>, es: seq<Event>, i: nat, p: int, n: int)
    requires IsRun(o, ws, es) && i < |es| && es[i].Arrive?
    requires Tested(ws[i].c, es[i].segment) && StandsAt(ws[i].c, es[i].segment, p, n)
    ensures var c, c', s, r := ws[i].c, ws[i + 1].c, es[i].segment, Report(ws, es, i);
      if Bare(s) && p != n then r == Ok(if p < n then DuplicateSegment else OutOfOrder) && c' == c
      else if !AckTaken(c, s) then r == Err(InvalidAcknowledgment) && c' == c
      else if EndsIt(c, s) then r == Ok(WasClosed) && c'.state == Closed
      else if Overflows(c, s, p, n) then r == Err(ReceiveBufferFull) && ws[i + 1].received == ws[i].received
      else r.Ok? && ReportsPlace(c, s, p, n, r.value, c'.una)
  {
    var c, s, now := ws[i].c, es[i].segment, es[i].at;
    assert Next(ws[i], es[i], ws[i + 1]);
    ArriveLeaves(ws[i], s, now);
    if Bare(s) && p != n {
      BareReports(c, s, now, p, n);
    } else {
      ErrorReports(c, s, now, p, n);
      ErrorLeaves(c, s, now);
      if AckTaken(c, s) && !EndsIt(c, s) && !Overflows(c, s, p, n) { PlaceReports(c, s, now, p, n); }
      if Overflows(c, s, p, n) { StepTakes(ws[i], es[i]); }
    }
  }

  lemma ArriveLeaves(w: World, s: Segment, now: u64)
    ensures StepArrive(w, s, now).c == OnSegment(w.c, s, now).0
  {
  }

  lemma ErrorLeaves(c: Tcb, s: Segment, now: u64)
    requires Tested(c, s) && (!Bare(s) || s.sequence == c.rcv)
    ensures var f := OnSegment(c, s, now).0; (!AckTaken(c, s) ==> f == c) && (EndsIt(c, s) ==> f.state == Closed)
  {
  }

  // ---------------------------------------------------------------- opening and resetting

  /** A RST counts when it acknowledges the SYN, or on an open connection stands exactly at the next number. */
  predicate ResetsAt(c: Tcb, s: Segment) {
    s.flags.rst && if c.state == SynSent then s.flags.ack && s.acknowledgment == c.next else s.sequence == c.rcv
  }

  /** The connection is reset and forgets everything buffered or in flight, and nothing else. */
  predicate Emptied(c: Tcb, c': Tcb) {
    && c'.state == Reset && c'.outstanding == [] && c'.sendBuffer == [] && c'.receiveBuffer == []
    && c == c'.(state := c.state, outstanding := c.outstanding, sendBuffer := c.sendBuffer,
                receiveBuffer := c.receiveBuffer)
  }

  /** In every run a segment is reported as a reset, and then empties the connection, exactly when its RST counts. */
  lemma ResetExactly(o: Opening, ws: seq<World>, es: seq<Event>, i: nat)
    requires IsRun(o, ws, es) && i < |es| && es[i].Arrive?
    ensures var c, c', s := ws[i].c, ws[i + 1].c, es[i].segment;
      && (Report(ws, es, i) == Ok(WasReset) <==> ResetsAt(c, s))
      && (ResetsAt(c, s) ==> Emptied(c, c')) && (c.state != Reset && c'.state == Reset ==> ResetsAt(c, s))
      && (s.flags.rst && !ResetsAt(c, s) ==> c' == c)
  {
    assert Next(ws[i], es[i], ws[i + 1]);
    var c, s, now := ws[i].c, es[i].segment, es[i].at;
    ArriveLeaves(ws[i], s, now);
    if !s.flags.rst { NeverResets(c, s, now); }
  }

  lemma NeverResets(c: Tcb, s: Segment, now: u64)
    requires !s.flags.rst
    ensures var (f, r) := OnSegment(c, s, now); (f.state == Reset ==> c.state == Reset) && r != Ok(WasReset)
  {
    SegmentCases(c, s, now);
    InOrderShape(c, s, now);
    if c.state !in {SynSent, Closed, Reset} && Processed(c, s) { InOrderNoReset(c, s, now); }
  }

  lemma InOrderNoReset(c: Tcb, s: Segment, now: u64)
    requires Processed(c, s)
    ensures OnInOrder(c, s, now).1 != Ok(WasReset)
  {
    var (a, stop) := AckStage(c, s);
    if stop.None? {
      var first := if s.acknowledgment == c.una then DuplicateAck else Accepted;
      FinReports(Taken(a, s), s, now, PayloadResult(a, s, first));
    }
  }
}
