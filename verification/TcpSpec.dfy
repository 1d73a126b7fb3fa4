/**
 * The active-open TCP connection as a value: its fields, and one function per
 * operation giving the new fields and the reported outcome. The class in
 * TcpConnection is proved against these functions; TcpRuns proves what every run keeps.
 */
module TcpSpec {
  import opened Machine

  const TIME_WAIT_MILLIS := 30_000

  datatype Flags = Flags(fin: bool, syn: bool, rst: bool, psh: bool, ack: bool)

  const SYN := Flags(false, true, false, false, false)
  const SYN_ACK := Flags(false, true, false, false, true)
  const ACK := Flags(false, false, false, false, true)
  const PSH_ACK := Flags(false, false, false, true, true)
  const FIN_ACK := Flags(true, false, false, false, true)

  /** An incoming segment after decoding. */
  datatype Segment = Segment(
    sequence: u32, acknowledgment: u32, flags: Flags, window: u16,
    mss: Option<u16>, payload: seq<byte>)

  datatype State =
    | SynSent | Established | FinWait1 | FinWait2 | CloseWait | LastAck | TimeWait
    | Closed | Reset

  /** The one segment that may be in flight. */
  datatype Outstanding = Outstanding(
    sequence: u32, acknowledgment: u32, flags: Flags, mss: Option<u16>,
    payload: seq<byte>, sentAt: Option<u64>, retries: byte)

  datatype Transmit = Transmit(
    sequence: u32, acknowledgment: u32, flags: Flags, window: u16,
    mss: Option<u16>, payload: seq<byte>, retransmission: bool)

  datatype ReceiveResult =
    | Accepted | Acknowledge | DuplicateAck | DuplicateSegment | OutOfOrder
    | WasReset | WasClosed

  datatype Error =
    | InvalidState | InvalidAcknowledgment | SendBufferFull | ReceiveBufferFull | RetryLimit

  datatype Tcb = Tcb(
    state: State, una: u32, next: u32, rcv: u32,
    peerWindow: u16, peerMss: u16, localMss: u16,
    sendCapacity: nat, receiveCapacity: nat,
    sendBuffer: seq<byte>, receiveBuffer: seq<byte>,
    outstanding: seq<Outstanding>, closeRequested: bool,
    timeout: u64, retryLimit: byte, timeWaitUntil: Option<u64>)

  /** Serial-number order: the signed 32-bit difference is negative. */
  predicate SequenceBefore(left: u32, right: u32) {
    Wrap32(left - right) >= 0x8000_0000
  }

  predicate SequenceAfter(left: u32, right: u32) {
    SequenceBefore(right, left)
  }

  function B2N(b: bool): nat {
    if b then 1 else 0
  }

  /** How much sequence space a segment occupies. */
  function Extent(s: Outstanding): nat {
    |s.payload| + B2N(s.flags.syn) + B2N(s.flags.fin)
  }

  function SequenceEnd(s: Outstanding): u32 {
    Wrap32(s.sequence + Extent(s))
  }

  function InFlight(segments: seq<Outstanding>): nat {
    if segments == [] then 0 else |segments[0].payload| + InFlight(segments[1..])
  }

  function LocalWindow(c: Tcb): u16 {
    Min(Max(c.receiveCapacity - |c.receiveBuffer|, 0), 0xFFFF)
  }

  function TransmitFrom(s: Outstanding, window: u16, retransmission: bool): Transmit {
    Transmit(s.sequence, s.acknowledgment, s.flags, window, s.mss, s.payload, retransmission)
  }

  function Connect(iss: u32, localMss: u16, sendCapacity: nat, receiveCapacity: nat,
                   timeout: u64, retryLimit: byte): Tcb
  {
    Tcb(SynSent, iss, Wrap32(iss + 1), 0, 0, localMss, localMss, sendCapacity, receiveCapacity,
        [], [], [Outstanding(iss, 0, SYN, Some(localMss), [], None, 0)], false,
        timeout, retryLimit, None)
  }

  predicate CanSend(s: State) {
    s == Established || s == CloseWait
  }

  function QueueSend(c: Tcb, bytes: seq<byte>): (Tcb, Result<(), Error>) {
    if !CanSend(c.state) then (c, Err(InvalidState))
    else if InFlight(c.outstanding) + |c.sendBuffer| + |bytes| > c.sendCapacity then
      (c, Err(SendBufferFull))
    else (c.(sendBuffer := c.sendBuffer + bytes), Ok(()))
  }

  function RequestClose(c: Tcb): (Tcb, Result<(), Error>) {
    if !CanSend(c.state) then (c, Err(InvalidState))
    else (c.(closeRequested := true), Ok(()))
  }

  function AcknowledgmentOf(c: Tcb): Transmit {
    Transmit(c.next, c.rcv, ACK, LocalWindow(c), None, [], false)
  }

  function Abort(c: Tcb): Tcb {
    c.(state := Reset, outstanding := [], sendBuffer := [], receiveBuffer := [])
  }

  function Delay(c: Tcb, retries: byte): u64 {
    SaturatingMul64(c.timeout, RetryFactor(retries))
  }

  /** The shift amount is capped at 20. */
  function RetryFactor(retries: byte): (f: u64)
    ensures f == Pow2(Min(retries, 20))
  {
    Pow2Small(Min(retries, 20));
    Pow2(Min(retries, 20))
  }

  lemma {:induction false} Pow2Small(n: nat)
    requires n <= 20
    ensures Pow2(n) <= 0x10_0000
  {
    Pow2Monotone(n, 20);
    assert Pow2(5) == 32;
    assert Pow2(10) == 1024;
    assert Pow2(15) == 32768;
    assert Pow2(20) == 0x10_0000;
  }

  lemma {:induction false} Pow2Monotone(m: nat, n: nat)
    requires m <= n
    ensures Pow2(m) <= Pow2(n)
    decreases n
  {
    if m < n { Pow2Monotone(m, n - 1); }
  }

  function PollOutstanding(c: Tcb, now: u64): (Tcb, Result<Option<Transmit>, Error>)
    requires c.outstanding != []
  {
    var s := c.outstanding[0];
    if s.sentAt.None? then
      var s' := s.(sentAt := Some(now));
      (c.(outstanding := c.outstanding[0 := s']), Ok(Some(TransmitFrom(s', LocalWindow(c), false))))
    else if SaturatingSub64(now, s.sentAt.value) < Delay(c, s.retries) then (c, Ok(None))
    else if s.retries >= c.retryLimit then (c.(state := Reset), Err(RetryLimit))
    else
      var s' := s.(retries := s.retries + 1, sentAt := Some(now));
      (c.(outstanding := c.outstanding[0 := s']), Ok(Some(TransmitFrom(s', LocalWindow(c), true))))
  }

  function SegmentLimit(c: Tcb): u16 {
    Min(Min(c.localMss, c.peerMss), c.peerWindow)
  }

  function PollData(c: Tcb, now: u64): (Tcb, Result<Option<Transmit>, Error>) {
    var n := Min(SegmentLimit(c), |c.sendBuffer|);
    if n == 0 then (c, Ok(None))
    else
      var s := Outstanding(c.next, c.rcv, PSH_ACK, None, c.sendBuffer[..n], Some(now), 0);
      (c.(next := SequenceEnd(s), sendBuffer := c.sendBuffer[n..], outstanding := c.outstanding + [s]),
       Ok(Some(TransmitFrom(s, LocalWindow(c), false))))
  }

  function PollFin(c: Tcb, now: u64): (Tcb, Result<Option<Transmit>, Error>) {
    var s := Outstanding(c.next, c.rcv, FIN_ACK, None, [], Some(now), 0);
    (c.(next := Wrap32(c.next + 1), outstanding := c.outstanding + [s],
        state := if c.state == CloseWait then LastAck else FinWait1),
     Ok(Some(TransmitFrom(s, LocalWindow(c), false))))
  }

  function PollTransmit(c: Tcb, now: u64): (Tcb, Result<Option<Transmit>, Error>) {
    if c.outstanding != [] then PollOutstanding(c, now)
    else if !CanSend(c.state) then (c, Ok(None))
    else if c.sendBuffer != [] then PollData(c, now)
    else if c.closeRequested then PollFin(c, now)
    else (c, Ok(None))
  }

  function DropAcknowledged(segments: seq<Outstanding>, acknowledgment: u32): (rest: seq<Outstanding>)
    ensures |rest| <= |segments|
  {
    if segments == [] || SequenceAfter(SequenceEnd(segments[0]), acknowledgment) then segments
    else DropAcknowledged(segments[1..], acknowledgment)
  }

  /** Whether `acknowledge` takes a number, and the fields after it did. */
  predicate AckAcceptable(c: Tcb, acknowledgment: u32) {
    !SequenceBefore(acknowledgment, c.una) && !SequenceAfter(acknowledgment, c.next)
  }

  function Acknowledged(c: Tcb, acknowledgment: u32): Tcb {
    c.(una := acknowledgment, outstanding := DropAcknowledged(c.outstanding, acknowledgment))
  }

  function OnRst(c: Tcb, s: Segment): (Tcb, Result<ReceiveResult, Error>) {
    if (if c.state == SynSent then !s.flags.ack || s.acknowledgment != c.next else s.sequence != c.rcv)
    then (c, Err(InvalidAcknowledgment))
    else (Abort(c), Ok(WasReset))
  }

  function OnSynSent(c: Tcb, s: Segment): (Tcb, Result<ReceiveResult, Error>) {
    if !s.flags.syn || !s.flags.ack || s.acknowledgment != c.next || !AckAcceptable(c, s.acknowledgment)
    then (c, Err(InvalidAcknowledgment))
    else
      (Acknowledged(c, s.acknowledgment).(
         rcv := Wrap32(s.sequence + 1), peerWindow := s.window, state := Established,
         peerMss := if s.mss.Some? then Max(s.mss.value, 1) else c.peerMss),
       Ok(Acknowledge))
  }

  function OnStraySyn(c: Tcb, s: Segment): Result<ReceiveResult, Error> {
    if c.state == Established && s.flags == SYN_ACK && Wrap32(s.sequence + 1) == c.rcv
       && s.acknowledgment == c.una && s.payload == []
    then Ok(Acknowledge)
    else Err(InvalidState)
  }

  /** Acknowledgment processing; `Some` means the segment is finished with. */
  function AckStage(c: Tcb, s: Segment): (Tcb, Option<Result<ReceiveResult, Error>>) {
    if s.acknowledgment == c.una then (c.(peerWindow := s.window), None)
    else if !AckAcceptable(c, s.acknowledgment) then (c, Some(Err(InvalidAcknowledgment)))
    else
      var a := Acknowledged(c, s.acknowledgment);
      if c.state == LastAck && s.acknowledgment == c.next then
        (a.(state := Closed), Some(Ok(WasClosed)))
      else
        (a.(peerWindow := s.window,
            state := if c.state == FinWait1 && s.acknowledgment == c.next then FinWait2 else c.state),
         None)
  }

  function PayloadResult(c: Tcb, s: Segment, otherwise: ReceiveResult): ReceiveResult {
    if s.payload == [] then otherwise
    else if s.sequence == c.rcv then Acknowledge
    else if SequenceBefore(s.sequence, c.rcv) then DuplicateSegment
    else OutOfOrder
  }

  predicate TakesPayload(c: Tcb, s: Segment) {
    s.payload != [] && s.sequence == c.rcv
  }

  function Taken(c: Tcb, s: Segment): Tcb {
    if TakesPayload(c, s) then
      c.(receiveBuffer := c.receiveBuffer + s.payload, rcv := Wrap32(c.rcv + |s.payload|))
    else c
  }

  /** FIN processing, after the payload. */
  function FinStage(c: Tcb, s: Segment, now: u64, result: ReceiveResult): (Tcb, ReceiveResult) {
    if !s.flags.fin then (c, result)
    else if Wrap32(s.sequence + |s.payload|) != c.rcv then (c, OutOfOrder)
    else
      var c' := c.(rcv := Wrap32(c.rcv + 1));
      (match c.state
         case FinWait1 | FinWait2 =>
           c'.(state := TimeWait, timeWaitUntil := Some(SaturatingAdd64(now, TIME_WAIT_MILLIS)))
         case Established => c'.(state := CloseWait)
         case _ => c',
       Acknowledge)
  }

  function OnInOrder(c: Tcb, s: Segment, now: u64): (Tcb, Result<ReceiveResult, Error>) {
    var (a, stop) := AckStage(c, s);
    if stop.Some? then (a, stop.value)
    else if TakesPayload(a, s) && |a.receiveBuffer| + |s.payload| > a.receiveCapacity then
      (a, Err(ReceiveBufferFull))
    else
      var first := if s.acknowledgment == c.una then DuplicateAck else Accepted;
      var (f, result) := FinStage(Taken(a, s), s, now, PayloadResult(a, s, first));
      (f, Ok(result))
  }

  function OnSegment(c: Tcb, s: Segment, now: u64): (Tcb, Result<ReceiveResult, Error>) {
    if s.flags.rst then OnRst(c, s)
    else if c.state == SynSent then OnSynSent(c, s)
    else if c.state == Closed || c.state == Reset then (c, Err(InvalidState))
    else if s.flags.syn then (c, OnStraySyn(c, s))
    else if !s.flags.ack then (c, Err(InvalidAcknowledgment))
    else if s.payload == [] && !s.flags.fin && s.sequence != c.rcv then
      (c, Ok(if SequenceBefore(s.sequence, c.rcv) then DuplicateSegment else OutOfOrder))
    else OnInOrder(c, s, now)
  }

  /** The bytes handed out, and the connection without them. */
  function Receive(c: Tcb, room: nat): (Tcb, seq<byte>) {
    var n := Min(room, |c.receiveBuffer|);
    (c.(receiveBuffer := c.receiveBuffer[n..]), c.receiveBuffer[..n])
  }

  function Tick(c: Tcb, now: u64): (Tcb, ReceiveResult) {
    if c.state == TimeWait && c.timeWaitUntil.Some? && now >= c.timeWaitUntil.value then
      (c.(state := Closed), WasClosed)
    else (c, Accepted)
  }
}
