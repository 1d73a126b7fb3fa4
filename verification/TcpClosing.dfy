/**
 * Two things a closing connection does not do: wait for its own FIN to be acknowledged, and
 * refuse bytes after the peer's FIN. For each, a run that shows it and exactly when it happens.
 */
module TcpClosing {
  import opened Machine
  import opened TcpSpec
  import opened TcpRuns
  import opened TcpSend
  import opened TcpTheorems

  /** The segment gets as far as acknowledgment processing. */
  predicate Processed(c: Tcb, s: Segment) {
    && c.state !in {SynSent, Closed, Reset} && !s.flags.rst && !s.flags.syn && s.flags.ack
    && (s.payload != [] || s.flags.fin || s.sequence == c.rcv)
  }

  lemma SegmentPaths(c: Tcb, s: Segment, now: u64)
    requires c.state != SynSent && OnSegment(c, s, now).0.state != Reset
    ensures OnSegment(c, s, now).0 == if Processed(c, s) then OnInOrder(c, s, now).0 else c
  {
  }

  // ---------------------------------------------------------------- the own FIN

  /** In the closing states, processing retires the FIN exactly by the number past it. */
  lemma RetiresFin(w: World, s: Segment, now: u64)
    requires SendInv(w) && w.finSent && w.c.state !in {SynSent, Reset, Closed}
    ensures OnInOrder(w.c, s, now).0.outstanding == [] <==> w.c.outstanding == [] || s.acknowledgment == w.c.next
  {
    InOrderShape(w.c, s, now);
    if w.c.outstanding != [] {
      var a := s.acknowledgment;
      AckEffect(w, a);
      var fin := w.c.outstanding[0];
      RetireOffset(fin.sequence, Extent(fin), w.c.una);
      NextOffset(fin.sequence, Extent(fin));
    } else {
      AckStageEmpty(w.c, s);
    }
  }

  lemma NextOffset(q: u32, extent: nat)
    requires extent <= 0x1_0000
    ensures Wrap32(Wrap32(q + extent) - q) == extent
  {
    WrapDifference(q + extent, q);
  }

  lemma AckStageEmpty(c: Tcb, s: Segment)
    requires c.outstanding == []
    ensures AckStage(c, s).0.outstanding == []
  {
  }

  /** The event acknowledges the FIN that was sent. */
  predicate AcksFin(w: World, e: Event) {
    w.finSent && e.Arrive? && Processed(w.c, e.segment) && e.segment.acknowledgment == w.c.next
  }

  lemma ArriveRetires(w: World, s: Segment, now: u64)
    requires SendInv(w) && w.finSent && OnSegment(w.c, s, now).0.state != Reset
    ensures OnSegment(w.c, s, now).0.outstanding == [] <==> w.c.outstanding == [] || AcksFin(w, Arrive(s, now))
  {
    SegmentPaths(w.c, s, now);
    if Processed(w.c, s) { RetiresFin(w, s, now); }
  }

  /** After its FIN a connection that is not reset has nothing out exactly when the FIN was acknowledged. */
  lemma StepRetires(w: World, e: Event)
    requires SendInv(w) && w.finSent && Step(w, e).c.state != Reset
    ensures Step(w, e).finSent
    ensures Step(w, e).c.outstanding == [] <==> w.c.outstanding == [] || AcksFin(w, e)
  {
    if e.Arrive? {
      ArriveRetires(w, e.segment, e.at);
    } else if e.Poll? && w.c.outstanding != [] {
      PollOutstandingShape(w, e.now);
    }
  }

  lemma FinGoesOut(w: World, e: Event)
    requires SendInv(w) && !w.finSent && Step(w, e).finSent
    ensures Step(w, e).c.outstanding != []
  {
    if w.c.outstanding != [] { PollOutstandingShape(w, e.now); }
  }

  /** Some event among the first n acknowledged the FIN. */
  predicate FinAcked(ws: seq<World>, es: seq<Event>, n: nat)
    requires n <= |ws| && n <= |es|
  {
    n > 0 && (FinAcked(ws, es, n - 1) || AcksFin(ws[n - 1], es[n - 1]))
  }

  lemma {:induction false} FinAckedSome(ws: seq<World>, es: seq<Event>, n: nat)
    requires n <= |ws| && n <= |es|
    ensures FinAcked(ws, es, n) <==> exists j :: 0 <= j < n && AcksFin(ws[j], es[j])
  {
    if n > 0 { FinAckedSome(ws, es, n - 1); }
  }

  /** What is in flight, and whether the FIN was acknowledged, at once. */
  predicate FlightMatches(w: World, acked: bool) {
    w.c.state != Reset ==> if w.finSent then w.c.outstanding == [] <==> acked else !acked
  }

  lemma StepMatches(w: World, e: Event, acked: bool)
    requires SendInv(w) && FlightMatches(w, acked)
    ensures FlightMatches(Step(w, e), acked || AcksFin(w, e))
  {
    StateOnlyAdvances(w, e);
    if Step(w, e).c.state != Reset {
      if w.finSent {
        StepRetires(w, e);
      } else if Step(w, e).finSent {
        FinGoesOut(w, e);
      }
    }
  }

  lemma {:induction false} RunMatches(o: Opening, ws: seq<World>, es: seq<Event>, n: nat)
    requires IsRun(o, ws, es) && n <= |es|
    ensures FlightMatches(ws[n], FinAcked(ws, es, n))
  {
    if n > 0 {
      RunMatches(o, ws, es, n - 1);
      RunKeepsSend(o, ws, es, n - 1);
      assert Next(ws[n - 1], es[n - 1], ws[n]);
      StepMatches(ws[n - 1], es[n - 1], FinAcked(ws, es, n - 1));
    }
  }

  /**
   * In every run, once the own FIN is out and until a reset, nothing is left in flight if and
   * only if some arriving segment that was processed carried the number past the FIN. No state,
   * `TimeWait` and `Closed` included, implies it.
   */
  lemma FinAckedExactly(o: Opening, ws: seq<World>, es: seq<Event>, n: nat)
    requires IsRun(o, ws, es) && n <= |es| && ws[n].finSent && ws[n].c.state != Reset
    ensures ws[n].c.outstanding == [] <==> exists j :: 0 <= j < n && AcksFin(ws[j], es[j])
  {
    RunMatches(o, ws, es, n);
    FinAckedSome(ws, es, n);
  }

  lemma CallsKeepAway(w: World, e: Event)
    requires !e.Arrive? && w.c.state != TimeWait
    ensures Step(w, e).c.state != TimeWait
  {
  }

  lemma AckStageStates(c: Tcb, s: Segment)
    ensures AckStage(c, s).0.state == FinWait2 ==> c.state in {FinWait1, FinWait2}
    ensures AckStage(c, s).0.state in {c.state, FinWait2, Closed}
  {
  }

  lemma SegmentToTimeWait(c: Tcb, s: Segment, now: u64)
    requires c.state !in {SynSent, TimeWait} && OnSegment(c, s, now).0.state == TimeWait
    ensures c.state in {FinWait1, FinWait2} && Processed(c, s)
  {
    SegmentPaths(c, s, now);
    InOrderShape(c, s, now);
    AckStageStates(c, s);
  }

  /** Only a segment that is processed in a FIN-WAIT state leads into `TimeWait`. */
  lemma ToTimeWait(w: World, e: Event)
    requires SendInv(w) && w.c.state != TimeWait && Step(w, e).c.state == TimeWait
    ensures e.Arrive? && w.c.state in {FinWait1, FinWait2} && Processed(w.c, e.segment)
  {
    if !e.Arrive? {
      CallsKeepAway(w, e);
    } else if w.c.state != SynSent {
      SegmentToTimeWait(w.c, e.segment, e.at);
    }
  }

  lemma StepToTimeWait(w: World, e: Event)
    requires SendInv(w) && w.c.state != TimeWait && Step(w, e).c.state == TimeWait
    ensures e.Arrive? && w.c.state in {FinWait1, FinWait2}
    ensures Step(w, e).c.outstanding == [] <==> w.c.state == FinWait2 || e.segment.acknowledgment == w.c.next
  {
    ToTimeWait(w, e);
    StepRetires(w, e);
  }

  /**
   * Whenever a run enters `TimeWait` it is by an arriving segment in one of the two FIN-WAIT
   * states, and the own FIN is then acknowledged exactly if it already was or this segment does it.
   */
  lemma EntersTimeWait(o: Opening, ws: seq<World>, es: seq<Event>, i: nat)
    requires IsRun(o, ws, es) && i < |es| && ws[i].c.state != TimeWait && ws[i + 1].c.state == TimeWait
    ensures es[i].Arrive? && ws[i].c.state in {FinWait1, FinWait2}
    ensures ws[i + 1].c.outstanding == []
       <==> ws[i].c.state == FinWait2 || es[i].segment.acknowledgment == ws[i].c.next
  {
    RunKeepsSend(o, ws, es, i);
    assert Next(ws[i], es[i], ws[i + 1]);
    StepToTimeWait(ws[i], es[i]);
  }

  // ---------------------------------------------------------------- bytes after the peer's FIN

  /** The guard of every byte taken. */
  predicate TakesBytes(c: Tcb, s: Segment) {
    && Processed(c, s) && TakesPayload(c, s) && |c.receiveBuffer| + |s.payload| <= c.receiveCapacity
    && (s.acknowledgment == c.una
        || (AckAcceptable(c, s.acknowledgment) && !(c.state == LastAck && s.acknowledgment == c.next)))
  }

  lemma InOrderTakes(c: Tcb, s: Segment, now: u64)
    requires Processed(c, s)
    ensures OnInOrder(c, s, now).0.receiveBuffer == c.receiveBuffer + if TakesBytes(c, s) then s.payload else []
  {
  }

  /** A step takes bytes exactly when a segment arrives that meets the guard, and then takes its payload. */
  lemma StepTakes(w: World, e: Event)
    ensures Step(w, e).received
         == w.received + if e.Arrive? && TakesBytes(w.c, e.segment) then e.segment.payload else []
  {
    if e.Arrive? {
      var c := OnSegment(w.c, e.segment, e.at).0;
      if w.c.state != SynSent && c.state != Reset {
        SegmentPaths(w.c, e.segment, e.at);
        InOrderShape(w.c, e.segment, e.at);
        if Processed(w.c, e.segment) { InOrderTakes(w.c, e.segment, e.at); }
      }
    }
  }

  /** The states in which a peer FIN has been taken. */
  predicate AfterPeerFin(s: State) {
    s in {CloseWait, LastAck, TimeWait, Closed, Reset}
  }

  lemma FinStageStates(c: Tcb, s: Segment, now: u64, r: ReceiveResult)
    requires c.state !in {SynSent, Reset}
    ensures var f := FinStage(c, s, now, r).0; f.rcv == c.rcv || AfterPeerFin(f.state)
  {
  }

  /** A segment that moves `receive_next` past its payload leaves a state after the peer's FIN. */
  lemma InOrderFin(c: Tcb, s: Segment, now: u64)
    requires Processed(c, s)
    ensures var f := OnInOrder(c, s, now).0;
      f.rcv == Wrap32(c.rcv + |f.receiveBuffer| - |c.receiveBuffer|) || AfterPeerFin(f.state)
  {
    var (a, stop) := AckStage(c, s);
    if stop.None? {
      var first := if s.acknowledgment == c.una then DuplicateAck else Accepted;
      AckStageStates(c, s);
      FinShape(Taken(a, s), s, now, PayloadResult(a, s, first));
      FinStageStates(Taken(a, s), s, now, PayloadResult(a, s, first));
    }
  }

  /** What an arriving segment does to the buffer, the next number and the state. */
  predicate MovesPastFin(c: Tcb, f: Tcb) {
    && c.receiveBuffer <= f.receiveBuffer
    && (f.rcv == Wrap32(c.rcv + |f.receiveBuffer| - |c.receiveBuffer|) || AfterPeerFin(f.state))
    && (AfterPeerFin(c.state) ==> AfterPeerFin(f.state))
  }

  lemma InOrderMoves(c: Tcb, s: Segment, now: u64)
    requires Processed(c, s)
    ensures MovesPastFin(c, OnInOrder(c, s, now).0)
  {
    InOrderShape(c, s, now);
    AckStageStates(c, s);
    InOrderFin(c, s, now);
  }

  lemma SegmentMoves(c: Tcb, s: Segment, now: u64)
    requires c.state != SynSent && OnSegment(c, s, now).0.state != Reset
    ensures MovesPastFin(c, OnSegment(c, s, now).0)
  {
    SegmentPaths(c, s, now);
    if Processed(c, s) { InOrderMoves(c, s, now); }
  }

  lemma ArriveWithFin(w: World, s: Segment, c: Tcb)
    requires (w.finReceived ==> AfterPeerFin(w.c.state)) && (w.c.state != SynSent ==> MovesPastFin(w.c, c))
    ensures ArriveWith(w, s, c).finReceived ==> AfterPeerFin(c.state)
  {
  }

  lemma StepFin(w: World, e: Event)
    requires w.finReceived ==> AfterPeerFin(w.c.state)
    ensures Step(w, e).finReceived ==> AfterPeerFin(Step(w, e).c.state)
  {
    if e.Arrive? && OnSegment(w.c, e.segment, e.at).0.state != Reset {
      var c := OnSegment(w.c, e.segment, e.at).0;
      if w.c.state != SynSent { SegmentMoves(w.c, e.segment, e.at); }
      ArriveWithFin(w, e.segment, c);
    }
  }

  lemma {:induction false} RunAfterFin(o: Opening, ws: seq<World>, es: seq<Event>, n: nat)
    requires IsRun(o, ws, es) && n <= |es|
    ensures ws[n].finReceived ==> AfterPeerFin(ws[n].c.state)
  {
    if n > 0 {
      RunAfterFin(o, ws, es, n - 1);
      assert Next(ws[n - 1], es[n - 1], ws[n]);
      StepFin(ws[n - 1], es[n - 1]);
    }
  }

  /** Whether event j of a run takes bytes. */
  predicate Taking(ws: seq<World>, es: seq<Event>, j: nat)
    requires j < |ws| && j < |es|
  {
    es[j].Arrive? && TakesBytes(ws[j].c, es[j].segment)
  }

  lemma EventTakes(o: Opening, ws: seq<World>, es: seq<Event>, j: nat)
    requires IsRun(o, ws, es) && j < |es|
    ensures ws[j].received <= ws[j + 1].received
    ensures |ws[j + 1].received| == |ws[j].received| <==> !Taking(ws, es, j)
  {
    assert Next(ws[j], es[j], ws[j + 1]);
    StepTakes(ws[j], es[j]);
  }

  /** A growing sequence is the same at two points exactly when no step between them grew. */
  lemma {:induction false} GrowthExactly(rs: seq<seq<byte>>, grew: nat -> bool, i: nat, n: nat)
    requires i <= n < |rs|
    requires forall j :: 0 <= j < |rs| - 1 ==> rs[j] <= rs[j + 1] && (|rs[j + 1]| == |rs[j]| <==> !grew(j))
    ensures rs[i] <= rs[n] && (rs[n] == rs[i] <==> forall j :: i <= j < n ==> !grew(j))
    decreases n
  {
    if i < n {
      GrowthExactly(rs, grew, i, n - 1);
      Prefixes(rs[i], rs[n - 1], rs[n]);
    }
  }

  /** In every run, from any point on: no byte is taken if and only if no event meets the guard. */
  lemma TakenExactly(o: Opening, ws: seq<World>, es: seq<Event>, i: nat, n: nat)
    requires IsRun(o, ws, es) && i <= n <= |es|
    ensures ws[n].received == ws[i].received <==> forall j :: i <= j < n ==> !Taking(ws, es, j)
  {
    var rs := seq(|ws|, j requires 0 <= j < |ws| => ws[j].received);
    var grew: nat -> bool := (j: nat) => j < |es| && j < |ws| && Taking(ws, es, j);
    forall j | 0 <= j < |es| ensures rs[j] <= rs[j + 1] && (|rs[j + 1]| == |rs[j]| <==> !grew(j)) {
      EventTakes(o, ws, es, j);
    }
    GrowthExactly(rs, grew, i, n);
    assert rs[i] == ws[i].received && rs[n] == ws[n].received;
    assert forall j: nat :: i <= j < n ==> grew(j) == Taking(ws, es, j);
  }

  lemma Prefixes(a: seq<byte>, b: seq<byte>, c: seq<byte>)
    requires a <= b <= c
    ensures a <= c && (c == a <==> b == a && |c| == |b|)
  {
  }

  /**
   * After the peer's FIN was taken: no byte is taken in the rest of a run if and only if no
   * event meets the guard, and an event that does meets it in one of three states.
   */
  lemma LateBytesExactly(o: Opening, ws: seq<World>, es: seq<Event>, i: nat, n: nat)
    requires IsRun(o, ws, es) && i <= n <= |es| && ws[i].finReceived
    ensures ws[n].received == ws[i].received <==> forall j :: i <= j < n ==> !Taking(ws, es, j)
    ensures forall j :: i <= j < n && Taking(ws, es, j) ==> ws[j].c.state in {CloseWait, LastAck, TimeWait}
  {
    TakenExactly(o, ws, es, i, n);
    forall j | i <= j < n && Taking(ws, es, j) ensures ws[j].c.state in {CloseWait, LastAck, TimeWait} {
      FinStays(o, ws, es, i, j);
      RunAfterFin(o, ws, es, j);
    }
  }

  lemma StepFinStays(w: World, e: Event)
    requires w.finReceived
    ensures Step(w, e).finReceived
  {
  }

  lemma {:induction false} FinStays(o: Opening, ws: seq<World>, es: seq<Event>, i: nat, j: nat)
    requires IsRun(o, ws, es) && i <= j <= |es| && ws[i].finReceived
    ensures ws[j].finReceived
    decreases j
  {
    if i < j {
      FinStays(o, ws, es, i, j - 1);
      assert Next(ws[j - 1], es[j - 1], ws[j]);
      StepFinStays(ws[j - 1], es[j - 1]);
    }
  }

  // ---------------------------------------------------------------- two runs

  const OPENING := Opening(0, 1, 1, 2, 1000, 5)
  const SYN_ACK_IN := Arrive(Segment(0, 1, SYN_ACK, 1, None, []), 0)
  const FIN_IN := Arrive(Segment(1, 1, FIN_ACK, 1, None, []), 2)

  function DataIn(sequence: u32, b: byte): Event {
    Arrive(Segment(sequence, 1, ACK, 1, None, [b]), 3)
  }

  predicate Stands(w: World, c: Tcb, received: seq<byte>, fin: bool) {
    w.c == c && w.received == received && w.finReceived == fin
  }

  function Opened(): Tcb {
    Tcb(Established, 1, 1, 1, 1, 1, 1, 1, 2, [], [], [], false, 1000, 5, None)
  }

  function OwnFin(acknowledgment: u32): Outstanding {
    Outstanding(1, acknowledgment, FIN_ACK, None, [], Some(1), 0)
  }

  lemma Opens(w: World)
    requires w == Step(Begin(OPENING), Poll(0))
    ensures Stands(Step(w, SYN_ACK_IN), Opened(), [], false)
  {
    var syn := Outstanding(0, 0, SYN, Some(1), [], Some(0), 0);
    assert w.c.outstanding == [syn] && SequenceEnd(syn) == 1;
    assert [syn][1..] == [];
    assert DropAcknowledged([syn], 1) == DropAcknowledged([], 1);
  }

  lemma Closes(w: World, c: Tcb, received: seq<byte>, fin: bool)
    requires Stands(w, c, received, fin) && CanSend(c.state)
    ensures Stands(Step(w, CloseCall), c.(closeRequested := true), received, fin)
  {
  }

  lemma SendsFin(w: World, c: Tcb, received: seq<byte>, fin: bool)
    requires Stands(w, c, received, fin) && CanSend(c.state) && c.closeRequested && c.next == 1
    requires c.outstanding == [] && c.sendBuffer == []
    ensures Stands(Step(w, Poll(1)), c.(next := 2, outstanding := [OwnFin(c.rcv)],
                   state := if c.state == CloseWait then LastAck else FinWait1), received, fin)
  {
    assert [] + [OwnFin(c.rcv)] == [OwnFin(c.rcv)];
  }

  /** A bare FIN that acknowledges nothing new. */
  lemma TakesFin(w: World, c: Tcb, received: seq<byte>)
    requires Stands(w, c, received, false) && c.state in {Established, FinWait1} && c.una == 1 && c.rcv == 1
    requires c.peerWindow == 1
    ensures Stands(Step(w, FIN_IN),
      (if c.state == Established then c.(state := CloseWait) else c.(state := TimeWait, timeWaitUntil := Some(30002)))
      .(rcv := 2), received, true)
  {
    var d := OnSegment(c, FIN_IN.segment, 2).0;
    assert d.receiveBuffer[|c.receiveBuffer|..] == [] && received + [] == received;
  }

  lemma TakesByte(w: World, c: Tcb, received: seq<byte>, b: byte)
    requires Stands(w, c, received, true) && c.state in {CloseWait, LastAck, TimeWait} && c.una == 1 && c.rcv < 100
    requires c.peerWindow == 1 && |c.receiveBuffer| < c.receiveCapacity
    ensures Stands(Step(w, DataIn(c.rcv, b)), c.(rcv := c.rcv + 1, receiveBuffer := c.receiveBuffer + [b]),
                   received + [b], true)
  {
    var d := OnSegment(c, DataIn(c.rcv, b).segment, 3).0;
    assert d.receiveBuffer[|c.receiveBuffer|..] == [b];
  }

  lemma Ticks(w: World, c: Tcb, received: seq<byte>)
    requires Stands(w, c, received, true) && c.state == TimeWait && c.timeWaitUntil == Some(30002)
    ensures Stands(Step(w, TickCall(30002)), c.(state := Closed), received, true)
  {
  }

  lemma Extends(o: Opening, ws: seq<World>, es: seq<Event>, e: Event, w: World)
    requires IsRun(o, ws, es) && w == Step(ws[|es|], e)
    ensures IsRun(o, ws + [w], es + [e])
  {
    var vs, ds := ws + [w], es + [e];
    forall i | 0 <= i < |ds| ensures Next(vs[i], ds[i], vs[i + 1]) {
      if i < |es| { assert Next(ws[i], es[i], ws[i + 1]); }
    }
  }

  /** A run of the example that ends in a given connection. */
  predicate Reached(ws: seq<World>, es: seq<Event>, c: Tcb, received: seq<byte>, fin: bool) {
    IsRun(OPENING, ws, es) && Stands(ws[|es|], c, received, fin)
  }

  lemma ThenOpens() returns (ws: seq<World>, es: seq<Event>)
    ensures |es| == 2 && Reached(ws, es, Opened(), [], false)
  {
    var w := Step(Begin(OPENING), Poll(0));
    Opens(w);
    ws, es := [Begin(OPENING), w, Step(w, SYN_ACK_IN)], [Poll(0), SYN_ACK_IN];
  }

  lemma ThenCloses(ws: seq<World>, es: seq<Event>, c: Tcb, received: seq<byte>, fin: bool)
    returns (vs: seq<World>, ds: seq<Event>)
    requires Reached(ws, es, c, received, fin) && CanSend(c.state) && c.closeRequested == false
    requires c.outstanding == [] && c.sendBuffer == [] && c.next == 1
    ensures |ds| == |es| + 2 && ws <= vs && Reached(vs, ds, c.(closeRequested := true, next := 2,
      outstanding := [OwnFin(c.rcv)], state := if c.state == CloseWait then LastAck else FinWait1), received, fin)
  {
    var w := Step(ws[|es|], CloseCall);
    Closes(ws[|es|], c, received, fin);
    Extends(OPENING, ws, es, CloseCall, w);
    SendsFin(w, c.(closeRequested := true), received, fin);
    Extends(OPENING, ws + [w], es + [CloseCall], Poll(1), Step(w, Poll(1)));
    vs, ds := ws + [w] + [Step(w, Poll(1))], es + [CloseCall] + [Poll(1)];
  }

  lemma ThenFin(ws: seq<World>, es: seq<Event>, c: Tcb) returns (vs: seq<World>, ds: seq<Event>)
    requires Reached(ws, es, c, [], false) && c.state in {Established, FinWait1}
    requires c.una == 1 && c.rcv == 1 && c.peerWindow == 1
    ensures |ds| == |es| + 1 && ws <= vs && Reached(vs, ds,
      (if c.state == Established then c.(state := CloseWait) else c.(state := TimeWait, timeWaitUntil := Some(30002)))
      .(rcv := 2), [], true)
  {
    var w := Step(ws[|es|], FIN_IN);
    TakesFin(ws[|es|], c, []);
    Extends(OPENING, ws, es, FIN_IN, w);
    vs, ds := ws + [w], es + [FIN_IN];
  }

  lemma ThenByte(ws: seq<World>, es: seq<Event>, c: Tcb, received: seq<byte>, b: byte)
    returns (vs: seq<World>, ds: seq<Event>)
    requires Reached(ws, es, c, received, true) && c.state in {CloseWait, LastAck, TimeWait} && c.una == 1
    requires c.rcv < 100 && c.peerWindow == 1 && |c.receiveBuffer| < c.receiveCapacity
    ensures |ds| == |es| + 1 && ws <= vs
    ensures Reached(vs, ds, c.(rcv := c.rcv + 1, receiveBuffer := c.receiveBuffer + [b]), received + [b], true)
  {
    var e := DataIn(c.rcv, b);
    var w := Step(ws[|es|], e);
    TakesByte(ws[|es|], c, received, b);
    Extends(OPENING, ws, es, e, w);
    vs, ds := ws + [w], es + [e];
  }

  lemma ThenTicks(ws: seq<World>, es: seq<Event>, c: Tcb, received: seq<byte>)
    returns (vs: seq<World>, ds: seq<Event>)
    requires Reached(ws, es, c, received, true) && c.state == TimeWait && c.timeWaitUntil == Some(30002)
    ensures |ds| == |es| + 1 && ws <= vs && Reached(vs, ds, c.(state := Closed), received, true)
  {
    var w := Step(ws[|es|], TickCall(30002));
    Ticks(ws[|es|], c, received);
    Extends(OPENING, ws, es, TickCall(30002), w);
    vs, ds := ws + [w], es + [TickCall(30002)];
  }

  /**
   * A connection that sends its FIN, gets the peer's before any acknowledgment, takes a byte
   * in `TimeWait` and is closed by the timer, its own FIN never acknowledged.
   */
  lemma ClosedUnacknowledged() returns (ws: seq<World>, es: seq<Event>)
    ensures IsRun(OPENING, ws, es) && |es| == 7
    ensures ws[5].c.state == TimeWait && ws[5].c.outstanding == [OwnFin(1)] && ws[5].finReceived
    ensures ws[6].c.state == TimeWait && ws[5].received == [] && ws[6].received == [7]
    ensures ws[7].c.state == Closed && ws[7].c.outstanding == [OwnFin(1)]
  {
    ws, es := ThenOpens();
    ws, es := ThenCloses(ws, es, Opened(), [], false);
    ws, es := ThenFin(ws, es, ws[|es|].c);
    ws, es := ThenByte(ws, es, ws[|es|].c, [], 7);
    ws, es := ThenTicks(ws, es, ws[|es|].c, [7]);
  }

  /** A connection that takes bytes in `CloseWait` and in `LastAck`. */
  lemma TakesAfterFin() returns (ws: seq<World>, es: seq<Event>)
    ensures IsRun(OPENING, ws, es) && |es| == 7
    ensures ws[3].finReceived && ws[3].c.state == CloseWait && ws[3].received == [] && ws[4].received == [7]
    ensures ws[6].c.state == LastAck && ws[6].received == [7] && ws[7].received == [7, 8]
  {
    ws, es := ThenOpens();
    ws, es := ThenFin(ws, es, Opened());
    ws, es := ThenByte(ws, es, ws[|es|].c, [], 7);
    ws, es := ThenCloses(ws, es, ws[|es|].c, [7], true);
    ws, es := ThenByte(ws, es, ws[|es|].c, [7], 8);
  }
}
