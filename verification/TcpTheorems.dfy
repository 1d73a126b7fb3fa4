/** The statements about every run, from any opening and any sequence of events. */
module TcpTheorems {
  import opened Machine
  import opened TcpSpec
  import opened TcpRuns
  import opened TcpSend
  import opened TcpLog
  import opened TcpReceive

  lemma {:induction false} RunKeepsSend(o: Opening, ws: seq<World>, es: seq<Event>, i: nat)
    requires IsRun(o, ws, es) && i <= |es|
    ensures SendInv(ws[i]) && LogInv(ws[i])
    ensures ws[i].iss == o.iss && ws[i].c.timeout == o.timeout && ws[i].c.retryLimit == o.retryLimit
  {
    if i > 0 {
      RunKeepsSend(o, ws, es, i - 1);
      assert Next(ws[i - 1], es[i - 1], ws[i]);
      StepKeepsSend(ws[i - 1], es[i - 1]);
      StepKeepsLog(ws[i - 1], es[i - 1]);
      StepKeepsSettings(ws[i - 1], es[i - 1]);
    }
  }

  lemma {:induction false} RunKeepsReceive(p: Peer, o: Opening, ws: seq<World>, es: seq<Event>, i: nat)
    requires IsRun(o, ws, es) && i <= |es|
    requires ValidPeer(p) && forall e :: e in es ==> PeerEvent(p, e)
    ensures ReceiveInv(p, ws[i]) && AckInv(p, ws[i])
  {
    if i > 0 {
      RunKeepsReceive(p, o, ws, es, i - 1);
      assert Next(ws[i - 1], es[i - 1], ws[i]);
      StepKeepsReceive(p, ws[i - 1], es[i - 1]);
      StepKeepsAcks(p, ws[i - 1], es[i - 1]);
    }
  }

  lemma StepKeepsSettings(w: World, e: Event)
    ensures var w' := Step(w, e);
      w'.iss == w.iss && w'.c.timeout == w.c.timeout && w'.c.retryLimit == w.c.retryLimit
  {
    if e.Arrive? {
      ArriveSettings(w.c, e.segment, e.at);
    }
  }

  lemma ArriveSettings(c: Tcb, s: Segment, now: u64)
    ensures var d := OnSegment(c, s, now).0;
      && d.timeout == c.timeout && d.retryLimit == c.retryLimit
      && (d.state == c.state || Rank(c.state) < Rank(d.state))
  {
    SegmentCases(c, s, now);
    InOrderShape(c, s, now);
    var a := AckStage(c, s).0;
    assert a.timeout == c.timeout && a.retryLimit == c.retryLimit;
    assert a.state == c.state || Rank(c.state) < Rank(a.state);
  }

  /**
   * Until a reset, the accepted bytes are the acknowledged ones, then those in
   * flight, then those waiting; and the two sequence variables frame the one
   * segment in flight.
   */
  lemma SendConservation(o: Opening, ws: seq<World>, es: seq<Event>)
    requires IsRun(o, ws, es)
    ensures var w := ws[|es|];
      w.c.state != Reset ==>
        && |w.c.outstanding| <= 1
        && w.accepted == w.acked + OutPayload(w.c) + w.c.sendBuffer
        && |OutPayload(w.c)| + |w.c.sendBuffer| <= w.c.sendCapacity
        && (w.c.outstanding == [] ==> w.c.una == w.c.next)
        && (w.c.outstanding != [] ==> SequenceEnd(w.c.outstanding[0]) == w.c.next)
  {
    RunKeepsSend(o, ws, es, |es|);
  }

  /**
   * Every emitted data segment, first or repeated, carries the accepted bytes its
   * sequence number names; every retransmission repeats the emission before it; and
   * an emitted FIN is numbered just past everything ever accepted.
   */
  lemma WireIsTheStream(o: Opening, ws: seq<World>, es: seq<Event>, i: nat)
    requires IsRun(o, ws, es)
    requires i < |ws[|es|].log|
    ensures var w, t := ws[|es|], ws[|es|].log[i].t;
      && (t.payload != [] ==> exists off: nat :: Carries(o.iss, w.accepted, t, off))
      && (t.retransmission ==> i > 0 && SameSegment(t, w.log[i - 1].t))
      && (t.flags.fin ==> t.sequence == Wrap32(o.iss + 1 + |w.accepted|))
  {
    RunKeepsSend(o, ws, es, |es|);
    assert EntryOk(ws[|es|], i);
  }

  /** Everything logged after a FIN repeats that FIN. */
  lemma {:induction false} OnlyTheFinAfterFin(o: Opening, ws: seq<World>, es: seq<Event>, i: nat, j: nat)
    requires IsRun(o, ws, es)
    requires i < j < |ws[|es|].log| && ws[|es|].log[i].t.flags.fin
    ensures var log := ws[|es|].log;
      log[j].t.retransmission && SameSegment(log[j].t, log[i].t)
    decreases j
  {
    RunKeepsSend(o, ws, es, |es|);
    assert EntryOk(ws[|es|], j);
    if i < j - 1 {
      OnlyTheFinAfterFin(o, ws, es, i, j - 1);
    }
  }

  /** When a FIN has gone out every accepted byte is acknowledged, and no more are accepted. */
  lemma FinAfterAllData(o: Opening, ws: seq<World>, es: seq<Event>, later: Event)
    requires IsRun(o, ws, es)
    requires exists i: nat :: i < |ws[|es|].log| && ws[|es|].log[i].t.flags.fin
    ensures ws[|es|].acked == ws[|es|].accepted
    ensures Step(ws[|es|], later).accepted == ws[|es|].accepted
  {
    RunKeepsSend(o, ws, es, |es|);
    FinFreezes(ws[|es|], later);
  }

  lemma FinFreezes(w: World, later: Event)
    requires SendInv(w) && LogInv(w) && exists i: nat :: i < |w.log| && w.log[i].t.flags.fin
    ensures w.acked == w.accepted && Step(w, later).accepted == w.accepted
  {
    var i: nat :| i < |w.log| && w.log[i].t.flags.fin;
    assert EntryOk(w, i);
    assert !CanSend(w.c.state);
  }

  // ---------------------------------------------------------------- states

  function Rank(s: State): nat {
    match s
    case SynSent => 0
    case Established => 1
    case FinWait1 => 2
    case CloseWait => 2
    case FinWait2 => 3
    case LastAck => 3
    case TimeWait => 4
    case Closed => 5
    case Reset => 6
  }

  predicate Advances(s: State, s': State) {
    s' == s || Rank(s) < Rank(s')
  }

  lemma PollAdvances(c: Tcb, now: u64)
    ensures Advances(c.state, PollTransmit(c, now).0.state)
  {
  }

  lemma StateOfPoll(w: World, now: u64)
    ensures StepPoll(w, now).c == PollTransmit(w.c, now).0
  {
  }

  lemma CallsAdvance(w: World, e: Event)
    requires !e.Arrive? && !e.Poll?
    ensures Advances(w.c.state, Step(w, e).c.state)
  {
  }

  lemma StateOnlyAdvances(w: World, e: Event)
    ensures Advances(w.c.state, Step(w, e).c.state)
  {
    if e.Arrive? {
      ArriveSettings(w.c, e.segment, e.at);
    } else if e.Poll? {
      StateOfPoll(w, e.now);
      PollAdvances(w.c, e.now);
    } else {
      CallsAdvance(w, e);
    }
  }

  /** How often the state differs from the one before, up to world n. */
  function StateChanges(ws: seq<World>, n: nat): nat
    requires n < |ws|
  {
    if n == 0 then 0
    else StateChanges(ws, n - 1) + B2N(ws[n].c.state != ws[n - 1].c.state)
  }

  /** A run never goes back to an earlier state and changes state at most six times. */
  lemma {:induction false} AtMostSixChanges(o: Opening, ws: seq<World>, es: seq<Event>, n: nat)
    requires IsRun(o, ws, es) && n <= |es|
    ensures StateChanges(ws, n) <= Rank(ws[n].c.state) <= 6
    ensures forall m: nat :: m <= n ==> Rank(ws[m].c.state) <= Rank(ws[n].c.state)
  {
    if n > 0 {
      AtMostSixChanges(o, ws, es, n - 1);
      assert Next(ws[n - 1], es[n - 1], ws[n]);
      StateOnlyAdvances(ws[n - 1], es[n - 1]);
    }
  }

  /** Reset is final, and poll_transmit emits nothing there. */
  lemma NothingAfterReset(o: Opening, ws: seq<World>, es: seq<Event>, e: Event)
    requires IsRun(o, ws, es)
    requires ws[|es|].c.state == Reset
    ensures Step(ws[|es|], e).c.state == Reset
    ensures Step(ws[|es|], e).log == ws[|es|].log
  {
    RunKeepsSend(o, ws, es, |es|);
    StateOnlyAdvances(ws[|es|], e);
  }

  // ---------------------------------------------------------------- timing

  lemma MulMonotone(t: nat, a: int, b: int)
    requires a <= b
    ensures t * a <= t * b
  {
  }

  /** What the delays before the k-th retransmission add up to; they double up to the 21st. */
  function TotalDelay(timeout: u64, k: nat): nat {
    if k == 0 then 0 else TotalDelay(timeout, k - 1) + SaturatingMul64(timeout, RetryFactor(Min(k - 1, 20)))
  }

  /** One more delay after a sum of delays. */
  lemma AddDelay(total: nat, delay: u64, first: u64, last: u64, now: u64)
    requires delay == 0 ==> total == 0
    requires total > 0 || first == last || delay == 0
    requires SaturatingSub64(last, first) >= total && SaturatingSub64(now, last) >= delay
    ensures SaturatingSub64(now, first) >= total + delay
  {
  }

  /** The delay is zero only for a zero timeout. */
  lemma DelayZero(t: u64, k: nat)
    ensures SaturatingMul64(t, RetryFactor(Min(k, 20))) == 0 <==> t == 0
  {
    MulMonotone(t, 1, RetryFactor(Min(k, 20)));
  }

  lemma {:induction false} TotalZero(t: u64, k: nat)
    ensures TotalDelay(t, k) == 0 <==> t == 0 || k == 0
  {
    if k > 0 {
      TotalZero(t, k - 1);
      DelayZero(t, k - 1);
    }
  }

  /** The configured delay, when the multiplication does not saturate. */
  lemma DelayExact(t: u64, k: nat)
    requires t * 0x10_0000 <= U64_MAX && k <= 20
    ensures SaturatingMul64(t, RetryFactor(k)) == t * Pow2(k)
  {
    Pow2Small(k);
    MulMonotone(t, Pow2(k), 0x10_0000);
    MulMonotone(t, 0, Pow2(k));
  }

  /** Without saturation the first 21 delays add up to T * (2^k - 1). */
  lemma {:induction false} TotalExact(t: u64, k: nat)
    requires t * 0x10_0000 <= U64_MAX && k <= 21
    ensures TotalDelay(t, k) == t * (Pow2(k) - 1)
  {
    if k > 0 {
      TotalExact(t, k - 1);
      DelayExact(t, k - 1);
      Doubles(t, Pow2(k - 1));
    }
  }

  lemma Doubles(t: int, p: int)
    ensures t * (2 * p - 1) == t * (p - 1) + t * p
  {
  }

  /** A retransmission repeats its first send. */
  lemma {:induction false} FirstSend(w: World, i: nat)
    requires LogInv(w) && i < |w.log|
    ensures var k := RetryIndex(w.log, i);
      k <= i && !w.log[i - k].t.retransmission && SameSegment(w.log[i].t, w.log[i - k].t)
  {
    assert Repeats(w.c, w.log, i) by { assert EntryOk(w, i); }
    if RetryIndex(w.log, i) > 0 { FirstSend(w, i - 1); }
  }

  /** One more retransmission comes no earlier than its delay after the one before. */
  lemma NextDelay(w: World, i: nat)
    requires LogInv(w) && 0 < i < |w.log| && w.log[i].t.retransmission
    ensures SaturatingSub64(w.log[i].at, w.log[i - 1].at)
         >= SaturatingMul64(w.c.timeout, RetryFactor(Min(RetryIndex(w.log, i - 1), 20)))
  {
    assert Repeats(w.c, w.log, i) by { assert EntryOk(w, i); }
  }

  /** A retransmission is no earlier after its first send than the delays between them add up to. */
  lemma {:induction false} DelaysAdd(w: World, i: nat)
    requires LogInv(w) && i < |w.log|
    ensures var k := RetryIndex(w.log, i);
      k <= i && SaturatingSub64(w.log[i].at, w.log[i - k].at) >= TotalDelay(w.c.timeout, k)
    decreases i
  {
    var k := RetryIndex(w.log, i);
    if k > 0 {
      DelaysAdd(w, i - 1);
      NextDelay(w, i);
      TotalZero(w.c.timeout, k - 1);
      DelayZero(w.c.timeout, k - 1);
      AddDelay(TotalDelay(w.c.timeout, k - 1), SaturatingMul64(w.c.timeout, RetryFactor(Min(k - 1, 20))),
               w.log[i - k].at, w.log[i - 1].at, w.log[i].at);
    }
  }

  /**
   * Retransmission k of a segment repeats its first send, at least the sum of its k delays
   * after it: T * (2^k - 1) for k up to 21 when no delay saturates.
   */
  lemma RetransmissionTiming(o: Opening, ws: seq<World>, es: seq<Event>, i: nat)
    requires IsRun(o, ws, es)
    requires i < |ws[|es|].log|
    ensures var log, k := ws[|es|].log, RetryIndex(ws[|es|].log, i);
      && k <= i && k <= o.retryLimit && !log[i - k].t.retransmission && SameSegment(log[i].t, log[i - k].t)
      && SaturatingSub64(log[i].at, log[i - k].at) >= TotalDelay(o.timeout, k)
      && (k <= 21 && o.timeout * 0x10_0000 <= U64_MAX ==>
            SaturatingSub64(log[i].at, log[i - k].at) >= o.timeout * (Pow2(k) - 1))
  {
    RunKeepsSend(o, ws, es, |es|);
    var w := ws[|es|];
    RetryIndexBound(w, i);
    FirstSend(w, i);
    DelaysAdd(w, i);
    var k := RetryIndex(w.log, i);
    if k <= 21 && o.timeout * 0x10_0000 <= U64_MAX { TotalExact(o.timeout, k); }
  }

  /** A segment is sent at most retry_limit + 1 times. */
  lemma {:induction false} RetryIndexBound(w: World, i: nat)
    requires LogInv(w) && i < |w.log|
    ensures RetryIndex(w.log, i) <= i && RetryIndex(w.log, i) <= w.c.retryLimit
  {
    assert EntryOk(w, i);
    if i > 0 { RetryIndexBound(w, i - 1); }
  }

  lemma GivesUpAfterLast(w: World, now: u64)
    requires SendInv(w) && LogInv(w) && w.c.state != Reset
    requires PollTransmit(w.c, now).1 == Err(RetryLimit)
    ensures w.log != []
    ensures var n := |w.log| - 1;
      && RetryIndex(w.log, n) == w.c.retryLimit <= n
      && SaturatingSub64(now, w.log[n].at) >= Delay(w.c, w.c.retryLimit)
  {
    RetryIndexBound(w, |w.log| - 1);
  }

  lemma GivesUpLate(w: World, now: u64)
    requires LogInv(w) && w.log != []
    requires var n := |w.log| - 1;
      && RetryIndex(w.log, n) == w.c.retryLimit <= n
      && SaturatingSub64(now, w.log[n].at) >= Delay(w.c, w.c.retryLimit)
    ensures SaturatingSub64(now, w.log[|w.log| - 1 - w.c.retryLimit].at)
         >= TotalDelay(w.c.timeout, w.c.retryLimit + 1)
  {
    var n, k := |w.log| - 1, w.c.retryLimit;
    DelaysAdd(w, n);
    TotalZero(w.c.timeout, k);
    DelayZero(w.c.timeout, k);
    AddDelay(TotalDelay(w.c.timeout, k), SaturatingMul64(w.c.timeout, RetryFactor(Min(k, 20))),
             w.log[n - k].at, w.log[n].at, now);
  }

  /**
   * `RetryLimit` is reported after retry_limit retransmissions of one segment, and no earlier
   * than the sum of its delays after the first send: T * (2^(limit + 1) - 1) for limits up to 20
   * when no delay saturates.
   */
  lemma RetryLimitTiming(o: Opening, ws: seq<World>, es: seq<Event>, now: u64)
    requires IsRun(o, ws, es)
    requires PollTransmit(ws[|es|].c, now).1 == Err(RetryLimit)
    requires ws[|es|].c.state != Reset
    ensures var log := ws[|es|].log;
      && |log| > o.retryLimit && RetryIndex(log, |log| - 1) == o.retryLimit
      && SaturatingSub64(now, log[|log| - 1 - o.retryLimit].at) >= TotalDelay(o.timeout, o.retryLimit + 1)
      && (o.retryLimit <= 20 && o.timeout * 0x10_0000 <= U64_MAX ==>
            SaturatingSub64(now, log[|log| - 1 - o.retryLimit].at) >= o.timeout * (Pow2(o.retryLimit + 1) - 1))
  {
    RunKeepsSend(o, ws, es, |es|);
    var w := ws[|es|];
    GivesUpAfterLast(w, now);
    GivesUpLate(w, now);
    LimitExact(o.timeout, o.retryLimit);
  }

  lemma LimitExact(t: u64, limit: nat)
    ensures limit <= 20 && t * 0x10_0000 <= U64_MAX ==> TotalDelay(t, limit + 1) == t * (Pow2(limit + 1) - 1)
  {
    if limit <= 20 && t * 0x10_0000 <= U64_MAX { TotalExact(t, limit + 1); }
  }

  // ---------------------------------------------------------------- acknowledgments

  /** Unbounded positions behind the two wrapped send variables. */
  function LogicalNext(w: World): nat {
    if w.c.state == SynSent then w.iss + 1
    else if w.c.outstanding == [] then Base(w) + B2N(w.finSent)
    else Base(w) + Extent(w.c.outstanding[0])
  }

  function LogicalUna(w: World): nat {
    if w.c.state == SynSent then w.iss
    else if w.c.outstanding == [] then LogicalNext(w)
    else Base(w) + Wrap32(w.c.una - w.c.outstanding[0].sequence)
  }

  /**
   * The wrapped comparison refines integers: in every reachable state at most
   * 65,536 numbers are in flight, `acknowledge` takes a number exactly when it is
   * congruent to a position between the two, and it retires the segment exactly
   * when that position is the upper one.
   */
  lemma AckRefinesIntegers(o: Opening, ws: seq<World>, es: seq<Event>, a: u32)
    requires IsRun(o, ws, es)
    requires ws[|es|].c.state != Reset
    ensures var w := ws[|es|];
      && w.c.una == Wrap32(LogicalUna(w)) && w.c.next == Wrap32(LogicalNext(w))
      && LogicalUna(w) <= LogicalNext(w) <= LogicalUna(w) + 0x1_0000
      && (AckAcceptable(w.c, a) <==>
            exists l :: LogicalUna(w) <= l <= LogicalNext(w) && Position(a, l))
      && (AckAcceptable(w.c, a) ==>
            (Acknowledged(w.c, a).outstanding == [] <==>
               w.c.outstanding == [] || Position(a, LogicalNext(w))))
  {
    RunKeepsSend(o, ws, es, |es|);
    var w := ws[|es|];
    Logical(w);
    AckPositions(LogicalUna(w), LogicalNext(w), a);
    if AckAcceptable(w.c, a) && w.c.outstanding != [] {
      RetiresAtNext(w, a);
    }
  }

  lemma AckPositions(una: int, next: int, a: u32)
    requires una <= next <= una + 0x1_0000
    ensures (!SequenceBefore(a, Wrap32(una)) && !SequenceAfter(a, Wrap32(next)))
       <==> exists l :: una <= l <= next && Position(a, l)
  {
    AckWindow(una, next - una, a);
    assert Position(a, una + Wrap32(a - una));
    forall l | una <= l <= next && Position(a, l) ensures Wrap32(a - una) <= next - una {
      var m: int := 0 - una;
      WrapDifference(l, m);
    }
  }

  predicate Position(a: u32, l: int) {
    a == Wrap32(l)
  }

  lemma Logical(w: World)
    requires SendInv(w) && w.c.state != Reset
    ensures w.c.una == Wrap32(LogicalUna(w)) && w.c.next == Wrap32(LogicalNext(w))
    ensures LogicalUna(w) <= LogicalNext(w) <= LogicalUna(w) + 0x1_0000
  {
    if w.c.state != SynSent && w.c.outstanding != [] {
      var s := w.c.outstanding[0];
      WrapDifference(Base(w), Extent(s));
      AckWindow(s.sequence, 0, w.c.una);
      WrapDifference(Base(w), Wrap32(w.c.una - s.sequence));
    }
  }

  lemma RetiresAtNext(w: World, a: u32)
    requires SendInv(w) && w.c.state != Reset && w.c.outstanding != [] && AckAcceptable(w.c, a)
    ensures Acknowledged(w.c, a).outstanding == [] <==> a == w.c.next
  {
    var s := w.c.outstanding[0];
    assert w.c.outstanding == [s] && [s][1..] == [];
    if w.c.state == SynSent {
      AckOffsets(s.sequence, 1, w.c.una, a);
      RetireOffset(s.sequence, 1, a);
    } else {
      AckEffect(w, a);
    }
  }

  // ---------------------------------------------------------------- receiving

  /**
   * Whatever the network does with the peer's stream, the bytes taken are a prefix
   * of it, of the length the next expected number says; what the owner has read,
   * then what is buffered, is that prefix.
   */
  lemma ReceivesAPrefix(p: Peer, o: Opening, ws: seq<World>, es: seq<Event>)
    requires IsRun(o, ws, es)
    requires ValidPeer(p) && forall e :: e in es ==> PeerEvent(p, e)
    ensures var w := ws[|es|];
      && w.received <= p.stream
      && |w.c.receiveBuffer| <= w.c.receiveCapacity
      && w.drained + w.c.receiveBuffer <= p.stream
      && (w.c.state != Reset ==> w.drained + w.c.receiveBuffer == w.received)
      && (w.c.state !in {SynSent, Reset} ==> w.c.rcv == Wrap32(p.irs + 1 + |w.received| + B2N(w.finReceived)))
      && (w.finReceived ==> w.received == p.stream)
  {
    RunKeepsReceive(p, o, ws, es, |es|);
  }

  /** No emitted acknowledgment, in a segment or on its own, covers a byte not taken. */
  lemma AcksCoverOnlyTaken(p: Peer, o: Opening, ws: seq<World>, es: seq<Event>)
    requires IsRun(o, ws, es)
    requires ValidPeer(p) && forall e :: e in es ==> PeerEvent(p, e)
    ensures var w := ws[|es|];
      && (forall i: nat :: i < |w.log| && w.log[i].t.flags.ack ==> Covered(p, w, w.log[i].t.acknowledgment))
      && (w.c.state !in {SynSent, Reset} ==> Covered(p, w, AcknowledgmentOf(w.c).acknowledgment))
  {
    RunKeepsReceive(p, o, ws, es, |es|);
    if ws[|es|].c.state !in {SynSent, Reset} {
      FreshAck(p, ws[|es|]);
    }
  }
}
