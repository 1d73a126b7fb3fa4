/**
 * What a connection takes, sends and announces, exactly: when queued bytes are accepted, when a
 * poll emits and how much, which windows and segment sizes apply, and how long it lingers.
 */
module TcpLimits {
  import opened Machine
  import opened TcpSpec
  import opened TcpRuns
  import opened TcpSend
  import opened TcpLog
  import opened TcpTheorems
  import opened TcpClosing
  import opened TcpReports

  // ---------------------------------------------------------------- queueing

  lemma OneInFlight(c: Tcb)
    requires |c.outstanding| <= 1
    ensures InFlight(c.outstanding) == |OutPayload(c)|
  {
    if c.outstanding != [] { assert c.outstanding[1..] == []; }
  }

  /**
   * In every run bytes are accepted exactly when the connection can send and they fit the
   * capacity together with everything accepted before and not yet acknowledged.
   */
  lemma QueuedExactly(o: Opening, ws: seq<World>, es: seq<Event>, i: nat, bytes: seq<byte>)
    requires IsRun(o, ws, es) && i < |es| && es[i] == Queue(bytes)
    ensures var w, w' := ws[i], ws[i + 1];
      && (QueueSend(w.c, bytes).1.Ok?
          <==> CanSend(w.c.state) && |w.accepted| - |w.acked| + |bytes| <= w.c.sendCapacity)
      && w'.accepted == w.accepted + (if QueueSend(w.c, bytes).1.Ok? then bytes else [])
      && (QueueSend(w.c, bytes).1.Err? ==> w'.c == w.c)
  {
    assert Next(ws[i], es[i], ws[i + 1]);
    RunKeepsSend(o, ws, es, i);
    OneInFlight(ws[i].c);
    assert ws[i].accepted + [] == ws[i].accepted;
  }

  // ---------------------------------------------------------------- asking to close

  /** A close call that came while the connection could send. */
  predicate Asked(ws: seq<World>, es: seq<Event>, j: nat) {
    j < |es| <= |ws| && es[j].CloseCall? && CanSend(ws[j].c.state)
  }

  lemma InOrderKeepsRequest(c: Tcb, s: Segment, now: u64)
    ensures OnInOrder(c, s, now).0.closeRequested == c.closeRequested
  {
    var (a, stop) := AckStage(c, s);
    assert a.closeRequested == c.closeRequested;
  }

  lemma SegmentKeepsRequest(c: Tcb, s: Segment, now: u64)
    ensures OnSegment(c, s, now).0.closeRequested == c.closeRequested
  {
    SegmentCases(c, s, now);
    InOrderKeepsRequest(c, s, now);
  }

  lemma StepRequests(w: World, e: Event)
    ensures Step(w, e).c.closeRequested <==> w.c.closeRequested || (e.CloseCall? && CanSend(w.c.state))
  {
    if e.Arrive? { SegmentKeepsRequest(w.c, e.segment, e.at); }
  }

  lemma RunRequests(o: Opening, ws: seq<World>, es: seq<Event>, n: nat)
    requires IsRun(o, ws, es) && n < |es|
    ensures ws[n + 1].c.closeRequested <==> ws[n].c.closeRequested || Asked(ws, es, n)
    ensures ws[0].c.closeRequested == false
  {
    assert Next(ws[n], es[n], ws[n + 1]);
    StepRequests(ws[n], es[n]);
  }

  lemma {:induction false} Accumulates(ws: seq<World>, es: seq<Event>, n: nat)
    requires n < |ws| && !ws[0].c.closeRequested
    requires forall i :: 0 <= i < n ==> (ws[i + 1].c.closeRequested <==> ws[i].c.closeRequested || Asked(ws, es, i))
    ensures ws[n].c.closeRequested <==> exists j :: 0 <= j < n && Asked(ws, es, j)
    decreases n
  {
    if n > 0 {
      Accumulates(ws, es, n - 1);
      assert ws[n - 1 + 1].c.closeRequested <==> ws[n - 1].c.closeRequested || Asked(ws, es, n - 1);
    }
  }

  /** In every run closing is pending exactly when it was asked for while the connection could send. */
  lemma RequestedExactly(o: Opening, ws: seq<World>, es: seq<Event>, n: nat)
    requires IsRun(o, ws, es) && n < |ws|
    ensures ws[n].c.closeRequested <==> exists j :: 0 <= j < n && Asked(ws, es, j)
    ensures RequestClose(ws[n].c).1.Ok? && n < |es| && es[n].CloseCall? ==> Asked(ws, es, n)
  {
    forall i | 0 <= i < n
      ensures ws[i + 1].c.closeRequested <==> ws[i].c.closeRequested || Asked(ws, es, i)
    {
      RunRequests(o, ws, es, i);
    }
    Accumulates(ws, es, n);
  }

  // ---------------------------------------------------------------- polling

  /** An unsent segment, or one whose delay has passed and that may be repeated once more. */
  predicate DueAgain(c: Tcb, now: u64) {
    && |c.outstanding| == 1
    && var s := c.outstanding[0];
       s.sentAt.None? || (SaturatingSub64(now, s.sentAt.value) >= Delay(c, s.retries) && s.retries < c.retryLimit)
  }

  predicate GivesUp(c: Tcb, now: u64) {
    && |c.outstanding| == 1
    && var s := c.outstanding[0];
       s.sentAt.Some? && SaturatingSub64(now, s.sentAt.value) >= Delay(c, s.retries) && s.retries >= c.retryLimit
  }

  /** Nothing is out, and there is data the peer has room for, or no data and a close to announce. */
  predicate DueFresh(c: Tcb) {
    && c.outstanding == [] && CanSend(c.state)
    && if c.sendBuffer != [] then c.localMss > 0 && c.peerMss > 0 && c.peerWindow > 0 else c.closeRequested
  }

  /** A fresh segment: as much buffered data as both segment sizes and the peer's window allow, or a bare FIN. */
  predicate FreshIs(c: Tcb, t: Transmit) {
    && t.sequence == c.next && t.acknowledgment == c.rcv && t.mss == None && !t.retransmission
    && t.payload <= c.sendBuffer && t.flags == (if c.sendBuffer == [] then FIN_ACK else PSH_ACK)
    && |t.payload| <= c.localMss && |t.payload| <= c.peerMss && |t.payload| <= c.peerWindow
    && (|t.payload| == |c.sendBuffer| || |t.payload| in {c.localMss, c.peerMss, c.peerWindow})
  }

  /** The window announced: the room left in the receive buffer, as far as 16 bits can say. */
  predicate WindowIs(c: Tcb, window: u16) {
    |c.receiveBuffer| <= c.receiveCapacity ==>
      window <= c.receiveCapacity - |c.receiveBuffer| && (window == c.receiveCapacity - |c.receiveBuffer| || window == 0xFFFF)
  }

  lemma PollOne(c: Tcb, now: u64)
    requires |c.outstanding| <= 1
    ensures var r := PollTransmit(c, now).1;
      && (r.Err? <==> GivesUp(c, now)) && (r.Err? ==> r.error == RetryLimit)
      && (r.Ok? && r.value.Some? <==> DueAgain(c, now) || DueFresh(c))
      && (r.Ok? && r.value.Some? ==> WindowIs(c, r.value.value.window))
      && (DueFresh(c) ==> FreshIs(c, r.value.value))
      && (DueAgain(c, now) ==> && SameSegment(r.value.value, TransmitFrom(c.outstanding[0], 0, false))
                               && r.value.value.retransmission == c.outstanding[0].sentAt.Some?)
  {
  }

  /**
   * In every run a poll emits exactly when the one outstanding segment is unsent or due again
   * within the retry limit, or nothing is out and there is data the peer has room for or a close
   * to announce; it reports the retry limit exactly when the segment is due beyond it. A fresh
   * segment carries as much as both segment sizes and the peer's window allow; every segment
   * announces the room left.
   */
  lemma PolledExactly(o: Opening, ws: seq<World>, es: seq<Event>, i: nat, now: u64)
    requires IsRun(o, ws, es) && i < |es| && es[i] == Poll(now)
    ensures var c, r := ws[i].c, PollTransmit(ws[i].c, now).1;
      && (r.Err? <==> GivesUp(c, now)) && (r.Err? ==> r.error == RetryLimit && ws[i + 1].c.state == Reset)
      && (r.Ok? && r.value.Some? <==> DueAgain(c, now) || DueFresh(c))
      && ws[i + 1].log == ws[i].log + (if r.Ok? && r.value.Some? then [Sent(r.value.value, now)] else [])
      && (r.Ok? && r.value.Some? ==> WindowIs(c, r.value.value.window))
      && (DueFresh(c) ==> FreshIs(c, r.value.value))
  {
    assert Next(ws[i], es[i], ws[i + 1]);
    RunKeepsSend(o, ws, es, i);
    PollOne(ws[i].c, now);
    PollLogs(ws[i], now);
  }

  lemma PollLogs(w: World, now: u64)
    ensures var r, w' := PollTransmit(w.c, now).1, StepPoll(w, now);
      && w'.log == w.log + (if r.Ok? && r.value.Some? then [Sent(r.value.value, now)] else [])
      && (r.Err? ==> w'.c.state == Reset)
  {
    assert w.log + [] == w.log;
  }

  // ---------------------------------------------------------------- what the peer announced

  /** The SYN-ACK that opens the connection. */
  predicate OpensBy(c: Tcb, e: Event) {
    && c.state == SynSent && e.Arrive? && !e.segment.flags.rst
    && e.segment.flags.syn && e.segment.flags.ack && e.segment.acknowledgment == c.next
  }

  /** A segment on an open connection whose acknowledgment is taken. */
  predicate Heard(c: Tcb, e: Event) {
    && e.Arrive? && Tested(c, e.segment) && (Bare(e.segment) ==> e.segment.sequence == c.rcv)
    && AckTaken(c, e.segment) && !EndsIt(c, e.segment)
  }

  lemma SynAcceptable(w: World)
    requires SendInv(w) && w.c.state == SynSent
    ensures AckAcceptable(w.c, w.c.next)
  {
  }

  lemma InOrderHeard(c: Tcb, s: Segment, now: u64)
    requires Processed(c, s)
    ensures var f := OnInOrder(c, s, now).0;
      && f.peerMss == c.peerMss && f.localMss == c.localMss
      && f.peerWindow == if AckTaken(c, s) && !EndsIt(c, s) then s.window else c.peerWindow
  {
  }

  lemma SegmentHeard(w: World, s: Segment, now: u64)
    requires SendInv(w)
    ensures var c, f, e := w.c, OnSegment(w.c, s, now).0, Arrive(s, now);
      && f.localMss == c.localMss
      && f.peerMss == (if OpensBy(c, e) && s.mss.Some? then Max(s.mss.value, 1) else c.peerMss)
      && f.peerWindow == (if OpensBy(c, e) || Heard(c, e) then s.window else c.peerWindow)
      && (c.state == SynSent ==> (f.state == Established <==> OpensBy(c, e)))
      && (OpensBy(c, e) ==> f.rcv == Wrap32(s.sequence + 1) && OnSegment(c, s, now).1 == Ok(Acknowledge))
  {
    if w.c.state == SynSent {
      SynAcceptable(w);
    } else if Processed(w.c, s) {
      ProcessedIs(w.c, s, now);
      InOrderHeard(w.c, s, now);
    }
  }

  lemma PollHears(c: Tcb, now: u64)
    ensures var f := PollTransmit(c, now).0;
      && f.localMss == c.localMss && f.peerMss == c.peerMss && f.peerWindow == c.peerWindow
      && (c.state == SynSent ==> f.state != Established)
  {
  }

  lemma CallsHear(w: World, e: Event)
    requires !e.Arrive?
    ensures var c, f := w.c, Step(w, e).c;
      && f.localMss == c.localMss && f.peerMss == c.peerMss && f.peerWindow == c.peerWindow
      && (c.state == SynSent ==> f.state != Established)
  {
    if e.Poll? {
      StateOfPoll(w, e.now);
      PollHears(w.c, e.now);
    }
  }

  /**
   * In every run the peer's segment size is the one its SYN-ACK announced, at least one, or the
   * local one if it announced none; the peer's window is the one of the last segment whose
   * acknowledgment was taken; and a connection is established exactly by the SYN-ACK that
   * acknowledges the SYN.
   */
  lemma AnnouncedExactly(o: Opening, ws: seq<World>, es: seq<Event>, i: nat)
    requires IsRun(o, ws, es) && i < |es|
    ensures var c, f, e := ws[i].c, ws[i + 1].c, es[i];
      && f.localMss == c.localMss
      && f.peerMss == (if OpensBy(c, e) && e.segment.mss.Some? then Max(e.segment.mss.value, 1) else c.peerMss)
      && f.peerWindow == (if OpensBy(c, e) || Heard(c, e) then e.segment.window else c.peerWindow)
      && (c.state == SynSent ==> (f.state == Established <==> OpensBy(c, e)))
      && (OpensBy(c, e) ==> f.rcv == Wrap32(e.segment.sequence + 1) && Report(ws, es, i) == Ok(Acknowledge))
    ensures ws[0].c.peerMss == ws[0].c.localMss == o.localMss && ws[0].c.peerWindow == 0
  {
    assert Next(ws[i], es[i], ws[i + 1]);
    RunKeepsSend(o, ws, es, i);
    if es[i].Arrive? {
      ArriveLeaves(ws[i], es[i].segment, es[i].at);
      SegmentHeard(ws[i], es[i].segment, es[i].at);
    } else {
      CallsHear(ws[i], es[i]);
    }
  }

  // ---------------------------------------------------------------- segments that are turned away

  /** The SYN-ACK of an established connection again: it stands where the peer began and acknowledges the SYN. */
  predicate Repeats(c: Tcb, s: Segment) {
    && c.state == Established && s.flags == Flags(false, true, false, false, true) && s.payload == []
    && Wrap32(s.sequence + 1) == c.rcv && s.acknowledgment == c.una
  }

  /**
   * In every run a segment that opens nothing, resets nothing and is not tested changes nothing.
   * Only a repeated SYN-ACK among them is reported for acknowledgment.
   */
  lemma TurnedAwayExactly(o: Opening, ws: seq<World>, es: seq<Event>, i: nat)
    requires IsRun(o, ws, es) && i < |es| && es[i].Arrive? && !es[i].segment.flags.rst
    requires !OpensBy(ws[i].c, es[i]) && !Tested(ws[i].c, es[i].segment)
    ensures ws[i + 1].c == ws[i].c
    ensures var c, s, r := ws[i].c, es[i].segment, Report(ws, es, i);
      if c.state == Closed || c.state == Reset then r == Err(InvalidState)
      else if c.state != SynSent && s.flags.syn then r == if Repeats(c, s) then Ok(Acknowledge) else Err(InvalidState)
      else r == Err(InvalidAcknowledgment)
  {
    assert Next(ws[i], es[i], ws[i + 1]);
    ArriveLeaves(ws[i], es[i].segment, es[i].at);
  }

  lemma OpenedAt(w: World, e: Event)
    requires SendInv(w) && OpensBy(w.c, e)
    ensures Step(w, e).c.una == e.segment.acknowledgment
  {
    SynAcceptable(w);
    ArriveLeaves(w, e.segment, e.at);
  }

  /** The SYN-ACK that opened the connection is acknowledged again exactly while nothing came or was acknowledged since. */
  lemma RepeatedExactly(o: Opening, ws: seq<World>, es: seq<Event>, i: nat, j: nat)
    requires IsRun(o, ws, es) && i < j < |es| && OpensBy(ws[i].c, es[i]) && es[j].Arrive?
    requires es[j].segment == es[i].segment && es[i].segment.flags == SYN_ACK && es[i].segment.payload == []
    requires ws[j].c.state == Established
    ensures ws[j + 1].c == ws[j].c
    ensures Report(ws, es, j) == Ok(Acknowledge)
       <==> ws[j].c.rcv == ws[i + 1].c.rcv && ws[j].c.una == ws[i + 1].c.una
  {
    AnnouncedExactly(o, ws, es, i);
    assert Next(ws[i], es[i], ws[i + 1]);
    RunKeepsSend(o, ws, es, i);
    OpenedAt(ws[i], es[i]);
    TurnedAwayExactly(o, ws, es, j);
  }

  // ---------------------------------------------------------------- lingering

  lemma FinLingers(c: Tcb, s: Segment, now: u64, r: ReceiveResult)
    ensures var f := FinStage(c, s, now, r).0;
      && (f.state == TimeWait && c.state != TimeWait ==> f.timeWaitUntil == Some(SaturatingAdd64(now, 30_000)))
      && (c.state == TimeWait ==> f.state == TimeWait && f.timeWaitUntil == c.timeWaitUntil)
  {
  }

  lemma InOrderLingers(c: Tcb, s: Segment, now: u64)
    requires Processed(c, s)
    ensures var f := OnInOrder(c, s, now).0;
      && (f.state == TimeWait && c.state != TimeWait ==> f.timeWaitUntil == Some(SaturatingAdd64(now, 30_000)))
      && (c.state == TimeWait ==> f.state == TimeWait && f.timeWaitUntil == c.timeWaitUntil)
  {
    var (a, stop) := AckStage(c, s);
    if stop.None? {
      var first := if s.acknowledgment == c.una then DuplicateAck else Accepted;
      FinLingers(Taken(a, s), s, now, PayloadResult(a, s, first));
    }
  }

  lemma SegmentLingers(c: Tcb, s: Segment, now: u64)
    requires c.state != SynSent
    ensures var f := OnSegment(c, s, now).0;
      && (f.state == TimeWait && c.state != TimeWait ==> f.timeWaitUntil == Some(SaturatingAdd64(now, 30_000)))
      && (c.state == TimeWait && f.state != Reset ==> f.state == TimeWait && f.timeWaitUntil == c.timeWaitUntil)
  {
    if OnSegment(c, s, now).0.state != Reset {
      SegmentPaths(c, s, now);
      if Processed(c, s) { InOrderLingers(c, s, now); }
    }
  }

  lemma CallsLinger(w: World, e: Event)
    requires !e.Arrive? && w.c.state == TimeWait
    ensures var f := Step(w, e).c;
      f.state == TimeWait ==> f.timeWaitUntil == w.c.timeWaitUntil
  {
  }

  lemma StepLingers(w: World, e: Event)
    requires w.c.state == TimeWait && Step(w, e).c.state == TimeWait
    ensures Step(w, e).c.timeWaitUntil == w.c.timeWaitUntil
  {
    if e.Arrive? {
      ArriveLeaves(w, e.segment, e.at);
      SegmentLingers(w.c, e.segment, e.at);
    } else {
      CallsLinger(w, e);
    }
  }

  lemma EntryTimer(w: World, e: Event)
    requires SendInv(w) && w.c.state != TimeWait && Step(w, e).c.state == TimeWait
    ensures e.Arrive? && Step(w, e).c.timeWaitUntil == Some(SaturatingAdd64(e.at, 30_000))
  {
    ToTimeWait(w, e);
    ArriveLeaves(w, e.segment, e.at);
    SegmentLingers(w.c, e.segment, e.at);
  }

  /** In `TimeWait` from just after event i up to world j. */
  predicate Lingering(ws: seq<World>, i: nat, j: nat)
    requires j < |ws|
  {
    j <= i || (ws[j].c.state == TimeWait && Lingering(ws, i, j - 1))
  }

  lemma {:induction false} LingeringIs(ws: seq<World>, i: nat, j: nat)
    requires i <= j < |ws| && forall k :: i < k <= j ==> ws[k].c.state == TimeWait
    ensures Lingering(ws, i, j)
    decreases j
  {
    if i < j { LingeringIs(ws, i, j - 1); }
  }

  lemma RunTimer(o: Opening, ws: seq<World>, es: seq<Event>, j: nat)
    requires IsRun(o, ws, es) && j < |es| && ws[j + 1].c.state == TimeWait
    ensures ws[j].c.state == TimeWait ==> ws[j + 1].c.timeWaitUntil == ws[j].c.timeWaitUntil
    ensures ws[j].c.state != TimeWait ==>
      es[j].Arrive? && ws[j + 1].c.timeWaitUntil == Some(SaturatingAdd64(es[j].at, 30_000))
  {
    assert Next(ws[j], es[j], ws[j + 1]);
    RunKeepsSend(o, ws, es, j);
    if ws[j].c.state == TimeWait { StepLingers(ws[j], es[j]); } else { EntryTimer(ws[j], es[j]); }
  }

  /** The timer set on entry is never moved while the connection lingers. */
  lemma {:induction false} TimerStays(o: Opening, ws: seq<World>, es: seq<Event>, i: nat, j: nat)
    requires IsRun(o, ws, es) && i < j <= |es| && ws[i].c.state != TimeWait && Lingering(ws, i, j)
    ensures es[i].Arrive? && ws[j].c.timeWaitUntil == Some(SaturatingAdd64(es[i].at, 30_000))
    decreases j
  {
    RunTimer(o, ws, es, j - 1);
    if i < j - 1 { TimerStays(o, ws, es, i, j - 1); }
  }

  /**
   * In every run a connection that entered `TimeWait` at some time is closed by a tick exactly
   * when 30 seconds have passed since, whatever arrived meanwhile.
   */
  lemma LingersExactly(o: Opening, ws: seq<World>, es: seq<Event>, i: nat, j: nat, now: u64)
    requires IsRun(o, ws, es) && i < j < |es| && ws[i].c.state != TimeWait && es[j] == TickCall(now)
    requires forall k :: i < k <= j ==> ws[k].c.state == TimeWait
    ensures es[i].Arrive? && (ws[j + 1].c.state == Closed <==> now >= SaturatingAdd64(es[i].at, 30_000))
    ensures ws[j + 1].c.state in {TimeWait, Closed} && ws[j + 1].c == ws[j].c.(state := ws[j + 1].c.state)
    ensures Tick(ws[j].c, now).1 == if ws[j + 1].c.state == Closed then WasClosed else Accepted
  {
    LingeringIs(ws, i, j);
    TimerStays(o, ws, es, i, j);
    assert Next(ws[j], es[j], ws[j + 1]);
  }
}
