/** The connection object, with its fields updated in place as the methods run. */
module TcpConnection {
  import opened Machine
  import opened TcpSpec

  class Connection {
    var state: State
    var una: u32
    var next: u32
    var rcv: u32
    var peerWindow: u16
    var peerMss: u16
    const localMss: u16
    const sendCapacity: nat
    const receiveCapacity: nat
    var sendBuffer: seq<byte>
    var receiveBuffer: seq<byte>
    var outstanding: seq<Outstanding>
    var closeRequested: bool
    const timeout: u64
    const retryLimit: byte
    var timeWaitUntil: Option<u64>

    function View(): Tcb
      reads this
    {
      Tcb(state, una, next, rcv, peerWindow, peerMss, localMss, sendCapacity, receiveCapacity,
          sendBuffer, receiveBuffer, outstanding, closeRequested, timeout, retryLimit, timeWaitUntil)
    }

    constructor (iss: u32, localMss: u16, sendCapacity: nat, receiveCapacity: nat,
                 timeout: u64, retryLimit: byte)
      ensures View() == Connect(iss, localMss, sendCapacity, receiveCapacity, timeout, retryLimit)
    {
      this.localMss, this.sendCapacity, this.receiveCapacity := localMss, sendCapacity, receiveCapacity;
      this.timeout, this.retryLimit := timeout, retryLimit;
      state, una, next, rcv := SynSent, iss, Wrap32(iss + 1), 0;
      peerWindow, peerMss := 0, localMss;
      sendBuffer, receiveBuffer := [], [];
      outstanding := [Outstanding(iss, 0, SYN, Some(localMss), [], None, 0)];
      closeRequested, timeWaitUntil := false, None;
    }

    /** Refuses a zero handle, port or segment size before anything is created. */
    static method TryConnect(handle: u64, localPort: u16, remotePort: u16,
                             iss: u32, localMss: u16, sendCapacity: nat, receiveCapacity: nat,
                             timeout: u64, retryLimit: byte)
      returns (r: Result<Connection, Error>)
      ensures r.Ok? <==> handle != 0 && localPort != 0 && remotePort != 0 && localMss != 0
      ensures r.Ok? ==> fresh(r.value)
      ensures r.Ok? ==>
        r.value.View() == Connect(iss, localMss, sendCapacity, receiveCapacity, timeout, retryLimit)
      ensures r.Err? ==> r.error == InvalidState
    {
      if handle == 0 || localPort == 0 || remotePort == 0 || localMss == 0 {
        return Err(InvalidState);
      }
      var c := new Connection(iss, localMss, sendCapacity, receiveCapacity, timeout, retryLimit);
      r := Ok(c);
    }

    method QueueSend(bytes: seq<byte>) returns (r: Result<(), Error>)
      modifies this
      ensures (View(), r) == TcpSpec.QueueSend(old(View()), bytes)
    {
      if !CanSend(state) {
        return Err(InvalidState);
      }
      var inFlight := 0;
      for i := 0 to |outstanding|
        invariant inFlight + InFlight(outstanding[i..]) == InFlight(outstanding)
      {
        assert outstanding[i..][1..] == outstanding[i + 1..];
        inFlight := inFlight + |outstanding[i].payload|;
      }
      if inFlight + |sendBuffer| + |bytes| > sendCapacity {
        return Err(SendBufferFull);
      }
      sendBuffer := sendBuffer + bytes;
      return Ok(());
    }

    method RequestClose() returns (r: Result<(), Error>)
      modifies this
      ensures (View(), r) == TcpSpec.RequestClose(old(View()))
    {
      if !CanSend(state) {
        return Err(InvalidState);
      }
      closeRequested := true;
      return Ok(());
    }

    method Abort()
      modifies this
      ensures View() == TcpSpec.Abort(old(View()))
    {
      state := Reset;
      outstanding, sendBuffer, receiveBuffer := [], [], [];
    }

    method PollTransmit(now: u64) returns (r: Result<Option<Transmit>, Error>)
      modifies this
      ensures (View(), r) == TcpSpec.PollTransmit(old(View()), now)
    {
      var window := LocalWindow(View());
      if outstanding != [] {
        var segment := outstanding[0];
        if segment.sentAt.Some? {
          if SaturatingSub64(now, segment.sentAt.value) < Delay(View(), segment.retries) {
            return Ok(None);
          }
          if segment.retries >= retryLimit {
            state := Reset;
            return Err(RetryLimit);
          }
          segment := segment.(retries := segment.retries + 1, sentAt := Some(now));
          outstanding := outstanding[0 := segment];
          return Ok(Some(TransmitFrom(segment, window, true)));
        }
        segment := segment.(sentAt := Some(now));
        outstanding := outstanding[0 := segment];
        return Ok(Some(TransmitFrom(segment, window, false)));
      }
      if CanSend(state) && sendBuffer != [] {
        if peerWindow == 0 {
          return Ok(None);
        }
        var maximum := Min(Min(localMss, peerMss), peerWindow);
        if maximum == 0 {
          return Ok(None);
        }
        var length := Min(maximum, |sendBuffer|);
        var payload := [];
        for i := 0 to length
          invariant |sendBuffer| == |old(sendBuffer)| - i
          invariant payload == old(sendBuffer)[..i] && sendBuffer == old(sendBuffer)[i..]
          invariant View() == old(View()).(sendBuffer := sendBuffer)
        {
          payload := payload + [sendBuffer[0]];
          sendBuffer := sendBuffer[1..];
        }
        var segment := Outstanding(next, rcv, PSH_ACK, None, payload, Some(now), 0);
        next := SequenceEnd(segment);
        outstanding := outstanding + [segment];
        return Ok(Some(TransmitFrom(segment, window, false)));
      }
      if closeRequested && sendBuffer == [] && outstanding == [] && CanSend(state) {
        var segment := Outstanding(next, rcv, FIN_ACK, None, [], Some(now), 0);
        next := Wrap32(next + 1);
        state := if state == CloseWait then LastAck else FinWait1;
        outstanding := outstanding + [segment];
        return Ok(Some(TransmitFrom(segment, window, false)));
      }
      return Ok(None);
    }

    method AcknowledgeTo(acknowledgment: u32) returns (r: Result<(), Error>)
      modifies this
      ensures r.Ok? <==> AckAcceptable(old(View()), acknowledgment)
      ensures r.Err? ==> r.error == InvalidAcknowledgment && View() == old(View())
      ensures r.Ok? ==> View() == Acknowledged(old(View()), acknowledgment)
    {
      if SequenceBefore(acknowledgment, una) || SequenceAfter(acknowledgment, next) {
        return Err(InvalidAcknowledgment);
      }
      una := acknowledgment;
      while outstanding != [] && !SequenceAfter(SequenceEnd(outstanding[0]), acknowledgment)
        invariant DropAcknowledged(outstanding, acknowledgment)
               == DropAcknowledged(old(outstanding), acknowledgment)
        invariant View() == old(View()).(una := acknowledgment, outstanding := outstanding)
        decreases |outstanding|
      {
        outstanding := outstanding[1..];
      }
      return Ok(());
    }

    method OnSegment(s: Segment, now: u64) returns (r: Result<ReceiveResult, Error>)
      modifies this
      ensures (View(), r) == TcpSpec.OnSegment(old(View()), s, now)
    {
      if s.flags.rst {
        if (state == SynSent && (!s.flags.ack || s.acknowledgment != next))
           || (state != SynSent && s.sequence != rcv) {
          return Err(InvalidAcknowledgment);
        }
        Abort();
        return Ok(WasReset);
      }
      if state == SynSent {
        if !(s.flags.syn && s.flags.ack) || s.acknowledgment != next {
          return Err(InvalidAcknowledgment);
        }
        var acknowledged := AcknowledgeTo(s.acknowledgment);
        if acknowledged.Err? {
          return Err(acknowledged.error);
        }
        rcv, peerWindow := Wrap32(s.sequence + 1), s.window;
        if s.mss.Some? {
          peerMss := Max(s.mss.value, 1);
        }
        state := Established;
        return Ok(Acknowledge);
      }
      if state == Closed || state == Reset {
        return Err(InvalidState);
      }
      if s.flags.syn {
        return OnStraySyn(View(), s);
      }
      if !s.flags.ack {
        return Err(InvalidAcknowledgment);
      }
      if s.payload == [] && !s.flags.fin && s.sequence != rcv {
        return Ok(if SequenceBefore(s.sequence, rcv) then DuplicateSegment else OutOfOrder);
      }
      r := DataSegment(s, now);
    }

    /** Acknowledgment processing; `Some` ends the segment. */
    method AckPart(s: Segment) returns (stop: Option<Result<ReceiveResult, Error>>)
      modifies this
      ensures (View(), stop) == AckStage(old(View()), s)
    {
      if s.acknowledgment != una {
        var acknowledged := AcknowledgeTo(s.acknowledgment);
        if acknowledged.Err? {
          return Some(Err(acknowledged.error));
        }
        if state == FinWait1 && s.acknowledgment == next {
          state := FinWait2;
        } else if state == LastAck && s.acknowledgment == next {
          state := Closed;
          return Some(Ok(WasClosed));
        }
      }
      peerWindow := s.window;
      return None;
    }

    method FinPart(s: Segment, now: u64, before: ReceiveResult) returns (result: ReceiveResult)
      modifies this
      ensures (View(), result) == FinStage(old(View()), s, now, before)
    {
      result := before;
      if s.flags.fin {
        if Wrap32(s.sequence + |s.payload|) != rcv {
          return OutOfOrder;
        }
        rcv := Wrap32(rcv + 1);
        if state == FinWait1 || state == FinWait2 {
          state := TimeWait;
          timeWaitUntil := Some(SaturatingAdd64(now, TIME_WAIT_MILLIS));
        } else if state == Established {
          state := CloseWait;
        }
        result := Acknowledge;
      }
    }

    /** The tail of segment processing: acknowledgment, payload, then FIN. */
    method DataSegment(s: Segment, now: u64) returns (r: Result<ReceiveResult, Error>)
      modifies this
      ensures (View(), r) == OnInOrder(old(View()), s, now)
    {
      var result := if s.acknowledgment == una then DuplicateAck else Accepted;
      var stop := AckPart(s);
      if stop.Some? {
        return stop.value;
      }
      if s.payload != [] {
        if s.sequence == rcv {
          if |receiveBuffer| + |s.payload| > receiveCapacity {
            return Err(ReceiveBufferFull);
          }
          receiveBuffer := receiveBuffer + s.payload;
          rcv := Wrap32(rcv + |s.payload|);
          result := Acknowledge;
        } else if SequenceBefore(s.sequence, rcv) {
          result := DuplicateSegment;
        } else {
          result := OutOfOrder;
        }
      }
      result := FinPart(s, now, result);
      return Ok(result);
    }

    /** Moves received bytes to the front of the caller's buffer. */
    method Receive(out: array<byte>) returns (n: nat)
      modifies this, out
      ensures n == Min(out.Length, |old(receiveBuffer)|)
      ensures View() == TcpSpec.Receive(old(View()), out.Length).0
      ensures out[..n] == TcpSpec.Receive(old(View()), out.Length).1
      ensures out[n..] == old(out[..])[n..]
    {
      n := Min(out.Length, |receiveBuffer|);
      for i := 0 to n
        invariant |receiveBuffer| == |old(receiveBuffer)| - i
        invariant receiveBuffer == old(receiveBuffer)[i..]
        invariant out[..i] == old(receiveBuffer)[..i] && out[i..] == old(out[..])[i..]
        invariant View() == old(View()).(receiveBuffer := receiveBuffer)
      {
        out[i] := receiveBuffer[0];
        receiveBuffer := receiveBuffer[1..];
      }
    }

    method DiscardReceived()
      modifies this
      ensures View() == old(View()).(receiveBuffer := [])
    {
      receiveBuffer := [];
    }

    method Tick(now: u64) returns (r: ReceiveResult)
      modifies this
      ensures (View(), r) == TcpSpec.Tick(old(View()), now)
    {
      if state == TimeWait && timeWaitUntil.Some? && now >= timeWaitUntil.value {
        state := Closed;
        return WasClosed;
      }
      return Accepted;
    }
  }
}
