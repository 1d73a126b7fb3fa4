/** The emitted segments over a whole run: contents, repetition, closing order and timing. */
module TcpLog {
  import opened Machine
  import opened TcpSpec
  import opened TcpRuns
  import opened TcpSend

  /** How many retransmissions in a row end at entry i. */
  function RetryIndex(log: seq<Sent>, i: nat): nat
    requires i < |log|
  {
    if i == 0 || !log[i].t.retransmission then 0 else 1 + RetryIndex(log, i - 1)
  }

  /** A transmission carries the accepted bytes at offset `off`, numbered by the ISS. */
  predicate Carries(iss: u32, accepted: seq<byte>, t: Transmit, off: nat) {
    && off + |t.payload| <= |accepted|
    && t.payload == accepted[off..off + |t.payload|]
    && t.sequence == Wrap32(iss + 1 + off)
  }

  ghost predicate Faithful(w: World, t: Transmit) {
    t.payload == [] || exists off: nat :: Carries(w.iss, w.accepted, t, off)
  }

  /** Same sequence, acknowledgment, flags, options and payload. */
  predicate SameSegment(t: Transmit, u: Transmit) {
    t == u.(window := t.window, retransmission := t.retransmission)
  }

  predicate Repeats(c: Tcb, log: seq<Sent>, i: nat)
    requires i < |log|
  {
    log[i].t.retransmission ==>
      && i > 0
      && SameSegment(log[i].t, log[i - 1].t)
      && RetryIndex(log, i - 1) < c.retryLimit
      && SaturatingSub64(log[i].at, log[i - 1].at)
           >= SaturatingMul64(c.timeout, RetryFactor(RetryIndex(log, i - 1)))
  }

  /** Once a FIN is out, only that FIN is ever sent. */
  predicate FinLast(log: seq<Sent>, i: nat)
    requires i < |log|
  {
    i > 0 && log[i - 1].t.flags.fin ==> log[i].t.retransmission
  }

  ghost predicate EntryOk(w: World, i: nat)
    requires i < |w.log|
  {
    && Faithful(w, w.log[i].t)
    && Repeats(w.c, w.log, i)
    && FinLast(w.log, i)
    && (w.log[i].t.flags.fin ==> w.finSent && w.log[i].t.sequence == Wrap32(w.iss + 1 + |w.accepted|))
  }

  /** The segment in flight is the last thing logged. */
  predicate LastIs(log: seq<Sent>, s: Outstanding) {
    if s.sentAt.None? then s.retries == 0
    else
      && log != []
      && SameSegment(log[|log| - 1].t, TransmitFrom(s, 0, false))
      && log[|log| - 1].at == s.sentAt.value
      && RetryIndex(log, |log| - 1) == s.retries
  }

  ghost predicate LogInv(w: World) {
    && (forall i: nat :: i < |w.log| ==> EntryOk(w, i))
    && (w.c.outstanding != [] ==> LastIs(w.log, w.c.outstanding[0]))
    && (w.finSent ==> w.accepted == w.acked && w.log != [] && w.log[|w.log| - 1].t.flags.fin)
  }

  lemma {:induction false} RetryIndexPrefix(log: seq<Sent>, more: seq<Sent>, i: nat)
    requires i < |log|
    ensures RetryIndex(log + more, i) == RetryIndex(log, i)
  {
    if i > 0 { RetryIndexPrefix(log, more, i - 1); }
  }

  lemma EntryPrefix(w: World, w': World, i: nat)
    requires i < |w.log| && w.log <= w'.log && EntryOk(w, i)
    requires w.accepted <= w'.accepted && (w.finSent ==> w'.finSent && w'.accepted == w.accepted)
    requires w'.iss == w.iss && w'.c.timeout == w.c.timeout && w'.c.retryLimit == w.c.retryLimit
    ensures EntryOk(w', i)
  {
    var more := w'.log[|w.log|..];
    assert w'.log == w.log + more;
    if i > 0 { RetryIndexPrefix(w.log, more, i - 1); }
    var t := w.log[i].t;
    if t.payload != [] {
      var off: nat :| Carries(w.iss, w.accepted, t, off);
      assert Carries(w'.iss, w'.accepted, t, off);
    }
  }

  /** Steps that emit nothing and only let the accepted stream grow. */
  lemma SilentKeepsLog(w: World, w': World)
    requires LogInv(w) && w'.log == w.log
    requires w.accepted <= w'.accepted && w'.finSent == w.finSent
    requires w.finSent ==> w'.accepted == w.accepted && w'.acked == w.acked
    requires w'.iss == w.iss && w'.c.timeout == w.c.timeout && w'.c.retryLimit == w.c.retryLimit
    requires w'.c.outstanding == w.c.outstanding || w'.c.outstanding == []
    ensures LogInv(w')
  {
    forall i: nat | i < |w.log| ensures EntryOk(w', i) {
      EntryPrefix(w, w', i);
    }
  }

  /** One more emission at the end of the log. */
  lemma EmitKeepsLog(w: World, w': World)
    requires LogInv(w) && w.log < w'.log && |w'.log| == |w.log| + 1
    requires w'.accepted == w.accepted && w'.acked == w.acked && (w.finSent ==> w'.finSent)
    requires w'.iss == w.iss && w'.c.timeout == w.c.timeout && w'.c.retryLimit == w.c.retryLimit
    requires EntryOk(w', |w.log|)
    requires w'.c.outstanding != [] && LastIs(w'.log, w'.c.outstanding[0])
    requires w'.finSent ==> w'.accepted == w'.acked && w'.log[|w.log|].t.flags.fin
    ensures LogInv(w')
  {
    forall i: nat | i < |w'.log| ensures EntryOk(w', i) {
      if i < |w.log| { EntryPrefix(w, w', i); }
    }
  }

  /** What polling an outstanding segment can emit. */
  lemma PollEmits(w: World, now: u64)
    requires SendInv(w) && w.c.outstanding != [] && StepPoll(w, now).log != w.log
    ensures w.c.state != Reset
    ensures var w', s := StepPoll(w, now), w.c.outstanding[0];
      && |w'.c.outstanding| == 1 && w'.c == w.c.(outstanding := w'.c.outstanding)
      && var s', again := w'.c.outstanding[0], s.sentAt.Some?;
      && s' == s.(sentAt := Some(now), retries := s'.retries)
      && s'.retries == s.retries + B2N(again)
      && w' == w.(c := w'.c, finSent := w.finSent || s.flags.fin,
                  log := w.log + [Sent(TransmitFrom(s', LocalWindow(w.c), again), now)])
      && (again ==> s.retries < w.c.retryLimit)
      && (again ==> SaturatingSub64(now, s.sentAt.value) >= Delay(w.c, s.retries))
  {
  }

  /** In a live stream the segment in flight is the accepted bytes at `acked`. */
  lemma OutstandingFaithful(w: World, t: Transmit)
    requires SendInv(w) && w.c.outstanding != [] && w.c.state != Reset
    requires SameSegment(t, TransmitFrom(w.c.outstanding[0], 0, false))
    ensures Faithful(w, t)
    ensures t.flags.fin <==> w.finSent
    ensures w.finSent ==> w.accepted == w.acked && t.sequence == Wrap32(w.iss + 1 + |w.accepted|)
  {
    if w.c.state != SynSent && !w.finSent {
      assert Carries(w.iss, w.accepted, t, |w.acked|);
    }
  }

  /** Appending the emission of an outstanding segment that was already logged. */
  lemma RepeatEntry(c: Tcb, log: seq<Sent>, s: Outstanding, s': Outstanding, x: Sent)
    requires s.sentAt.Some? && LastIs(log, s) && s.retries < c.retryLimit
    requires SaturatingSub64(x.at, s.sentAt.value) >= Delay(c, s.retries)
    requires s' == s.(sentAt := Some(x.at), retries := s.retries + 1)
    requires SameSegment(x.t, TransmitFrom(s, 0, false)) && x.t.retransmission
    ensures Repeats(c, log + [x], |log|) && LastIs(log + [x], s') && FinLast(log + [x], |log|)
  {
    RetryIndexPrefix(log, [x], |log| - 1);
  }

  lemma FirstEntry(c: Tcb, log: seq<Sent>, s': Outstanding, x: Sent)
    requires s'.sentAt == Some(x.at) && s'.retries == 0
    requires SameSegment(x.t, TransmitFrom(s', 0, false)) && !x.t.retransmission
    requires log != [] ==> !log[|log| - 1].t.flags.fin
    ensures Repeats(c, log + [x], |log|) && LastIs(log + [x], s') && FinLast(log + [x], |log|)
  {
  }

  lemma EmissionEntry(w: World, now: u64)
    requires SendInv(w) && LogInv(w) && w.c.outstanding != [] && StepPoll(w, now).log != w.log
    ensures var w' := StepPoll(w, now);
      && |w'.log| == |w.log| + 1 && w'.c.outstanding != []
      && Repeats(w'.c, w'.log, |w.log|)
      && LastIs(w'.log, w'.c.outstanding[0])
      && FinLast(w'.log, |w.log|)
  {
    PollEmits(w, now);
    var w', n, s := StepPoll(w, now), |w.log|, w.c.outstanding[0];
    if s.sentAt.Some? {
      RepeatEntry(w'.c, w.log, s, w'.c.outstanding[0], w'.log[n]);
    } else {
      assert n > 0 ==> EntryOk(w, n - 1);
      FirstEntry(w'.c, w.log, w'.c.outstanding[0], w'.log[n]);
    }
  }

  lemma PollOutstandingKeepsLog(w: World, now: u64)
    requires SendInv(w) && LogInv(w) && w.c.outstanding != []
    ensures LogInv(StepPoll(w, now))
  {
    var w' := StepPoll(w, now);
    if w'.log == w.log {
      PollOutstandingShape(w, now);
      SilentKeepsLog(w, w');
    } else {
      PollEmits(w, now);
      PollOutstandingKeepsSend(w, now);
      EmissionEntry(w, now);
      OutstandingFaithful(w', w'.log[|w.log|].t);
      EmitKeepsLog(w, w');
    }
  }

  /** A fresh data segment or FIN, sent when nothing is outstanding. */
  lemma FreshEmits(w: World, now: u64)
    requires w.c.outstanding == [] && CanSend(w.c.state) && StepPoll(w, now).log != w.log
    ensures var w' := StepPoll(w, now);
      && |w'.c.outstanding| == 1
      && var s := w'.c.outstanding[0];
      && s.sentAt == Some(now) && s.retries == 0
      && w'.c.timeout == w.c.timeout && w'.c.retryLimit == w.c.retryLimit
      && w' == w.(c := w'.c, finSent := w.finSent || s.flags.fin,
                  log := w.log + [Sent(TransmitFrom(s, LocalWindow(w.c), false), now)])
  {
  }

  lemma PollFreshKeepsLog(w: World, now: u64)
    requires SendInv(w) && LogInv(w) && w.c.outstanding == [] && CanSend(w.c.state)
    ensures LogInv(StepPoll(w, now))
  {
    var w' := StepPoll(w, now);
    if w'.log == w.log {
      SilentKeepsLog(w, w');
    } else {
      PollKeepsSend(w, now);
      FreshEmits(w, now);
      var n := |w.log|;
      OutstandingFaithful(w', w'.log[n].t);
      assert n > 0 ==> EntryOk(w, n - 1);
      FirstEntry(w'.c, w.log, w'.c.outstanding[0], w'.log[n]);
      EmitKeepsLog(w, w');
    }
  }

  lemma PollKeepsLog(w: World, now: u64)
    requires SendInv(w) && LogInv(w)
    ensures LogInv(StepPoll(w, now))
  {
    if w.c.outstanding != [] {
      PollOutstandingKeepsLog(w, now);
    } else if CanSend(w.c.state) {
      PollFreshKeepsLog(w, now);
    }
  }

  lemma DropOne(segments: seq<Outstanding>, a: u32)
    requires |segments| <= 1
    ensures DropAcknowledged(segments, a) == segments || DropAcknowledged(segments, a) == []
  {
    if segments != [] { assert segments[1..] == []; }
  }

  predicate KeepsOrDrops(c: Tcb, d: Tcb) {
    && (d.outstanding == c.outstanding || d.outstanding == [])
    && d.timeout == c.timeout && d.retryLimit == c.retryLimit
  }

  lemma HandshakeOutstanding(c: Tcb, s: Segment)
    requires |c.outstanding| <= 1
    ensures KeepsOrDrops(c, OnSynSent(c, s).0)
  {
    DropOne(c.outstanding, s.acknowledgment);
  }

  lemma InOrderOutstanding(c: Tcb, s: Segment, now: u64)
    requires |c.outstanding| <= 1
    ensures KeepsOrDrops(c, OnInOrder(c, s, now).0)
  {
    DropOne(c.outstanding, s.acknowledgment);
    InOrderShape(c, s, now);
    assert KeepsOrDrops(c, AckStage(c, s).0);
  }

  /** An arrival leaves the outstanding segment alone or removes it. */
  lemma ArriveOutstanding(c: Tcb, s: Segment, now: u64)
    requires |c.outstanding| <= 1
    ensures KeepsOrDrops(c, OnSegment(c, s, now).0)
  {
    SegmentCases(c, s, now);
    HandshakeOutstanding(c, s);
    InOrderOutstanding(c, s, now);
  }

  lemma ArriveKeepsLog(w: World, s: Segment, now: u64)
    requires SendInv(w) && LogInv(w)
    ensures LogInv(StepArrive(w, s, now))
  {
    var w' := StepArrive(w, s, now);
    ArriveOutstanding(w.c, s, now);
    assert w.finSent ==> w'.acked == w.acked by {
      if w.finSent && w.c.state != Reset {
        FinHasNoPayload(w, |w.c.outstanding| - |w'.c.outstanding|);
      }
    }
    SilentKeepsLog(w, w');
  }

  lemma FinHasNoPayload(w: World, n: nat)
    requires SendInv(w) && w.finSent && w.c.state != Reset && n <= |w.c.outstanding|
    ensures Payloads(w.c.outstanding[..n]) == []
  {
    if n == 1 {
      var s := w.c.outstanding[0];
      assert w.c.outstanding[..1] == [s] && [s][1..] == [] && s.payload == [];
    }
  }

  lemma StepKeepsLog(w: World, e: Event)
    requires SendInv(w) && LogInv(w)
    ensures LogInv(Step(w, e))
  {
    match e
    case Poll(now) => PollKeepsLog(w, now);
    case Arrive(s, now) => ArriveKeepsLog(w, s, now);
    case _ => SilentKeepsLog(w, Step(w, e));
  }
}
