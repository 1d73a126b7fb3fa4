/** The UDP socket table as the object it is, tied to `UdpSpec`. */
module UdpTable {
  import opened Machine
  import opened UdpSpec

  class UdpSocketTable {
    var bindings: seq<Binding>
    const socketLimit: nat
    const queueLimit: nat
    const payloadLimit: nat
    var nextEphemeral: u16
    var nextId: nat

    function View(): Table
      reads this
    {
      Table(bindings, socketLimit, queueLimit, payloadLimit, nextEphemeral, nextId)
    }

    constructor (socketLimit: nat, queueLimit: nat, payloadLimit: nat)
      ensures View() == Table([], socketLimit, queueLimit, payloadLimit, EPHEMERAL_START, 1)
    {
      this.socketLimit, this.queueLimit, this.payloadLimit := socketLimit, queueLimit, payloadLimit;
      bindings, nextEphemeral, nextId := [], EPHEMERAL_START, 1;
    }

    method PositionOf(id: nat) returns (r: Option<nat>)
      ensures r == Position(bindings, id)
    {
      assert bindings[0..] == bindings;
      for i := 0 to |bindings|
        invariant Position(bindings, id)
               == if Position(bindings[i..], id).None? then None else Some(Position(bindings[i..], id).value + i)
      {
        assert bindings[i..][1..] == bindings[i + 1..];
        if bindings[i].id == id { return Some(i); }
      }
      r := None;
    }

    method SelectedBy(address: u32, port: u16) returns (r: Option<nat>)
      ensures r == Selected(bindings, address, port)
    {
      assert bindings[0..] == bindings;
      for i := 0 to |bindings|
        invariant var rest := Selected(bindings[i..], address, port);
          Selected(bindings, address, port) == if rest.None? then None else Some(rest.value + i)
      {
        assert bindings[i..][1..] == bindings[i + 1..];
        if Accepts(bindings[i], address, port) { return Some(i); }
      }
      r := None;
    }

    method ConflictsWith(local: Endpoint) returns (r: bool)
      ensures r == Conflicts(bindings, local)
    {
      for i := 0 to |bindings|
        invariant forall j :: 0 <= j < i ==> !Overlaps(bindings[j].local, local)
      {
        if Overlaps(bindings[i].local, local) { return true; }
      }
      r := false;
    }

    method AllocateEphemeral(address: u32) returns (port: Option<u16>)
      modifies this`nextEphemeral
      ensures (port, nextEphemeral) == Allocate(bindings, address, old(nextEphemeral), EPHEMERAL_COUNT)
    {
      for i := 0 to EPHEMERAL_COUNT
        invariant Allocate(bindings, address, nextEphemeral, EPHEMERAL_COUNT - i)
               == Allocate(bindings, address, old(nextEphemeral), EPHEMERAL_COUNT)
      {
        var candidate := nextEphemeral;
        nextEphemeral := NextPort(candidate);
        var taken := ConflictsWith(Endpoint(address, candidate));
        if !taken { return Some(candidate); }
      }
      port := None;
    }

    method BindEndpoint(address: u32, requested: u16) returns (r: Result<nat, PacketError>)
      modifies this
      ensures (View(), r) == UdpSpec.BindEndpoint(old(View()), address, requested)
    {
      if |bindings| >= socketLimit || nextId == MAX_ID { return Err(Capacity); }
      var port := requested;
      if requested == 0 {
        var free := AllocateEphemeral(address);
        if free.None? { return Err(Capacity); }
        port := free.value;
      } else {
        var taken := ConflictsWith(Endpoint(address, requested));
        if taken { return Err(Mismatch); }
      }
      r := Ok(nextId);
      bindings := bindings + [Binding(nextId, Endpoint(address, port), None, [])];
      nextId := nextId + 1;
    }

    method UnbindEndpoint(id: nat) returns (found: bool)
      modifies this`bindings
      ensures (View(), found) == UdpSpec.UnbindEndpoint(old(View()), id)
    {
      var i := PositionOf(id);
      if i.None? { return false; }
      bindings := SwapRemove(bindings, i.value);
      found := true;
    }

    method SetPeer(id: nat, peer: Option<Endpoint>) returns (r: Result<(), PacketError>)
      modifies this`bindings
      ensures (View(), r) == UdpSpec.SetPeer(old(View()), id, peer)
    {
      var i := PositionOf(id);
      if i.None? { return Err(Mismatch); }
      bindings := bindings[i.value := bindings[i.value].(peer := peer)];
      r := Ok(());
    }

    method Enqueue(source: u32, destination: u32, d: Datagram) returns (r: Result<(), PacketError>)
      modifies this`bindings
      ensures (View(), r) == UdpSpec.Enqueue(old(View()), source, destination, d)
    {
      if |d.payload| > payloadLimit { return Err(Capacity); }
      var i := SelectedBy(destination, d.destinationPort);
      if i.None? { return Err(Mismatch); }
      var b := bindings[i.value];
      if b.peer.Some? && (b.peer.value.address != source || b.peer.value.port != d.sourcePort) { return Err(Mismatch); }
      if |b.received| >= queueLimit { return Err(Capacity); }
      bindings := Queued(bindings, i.value, PacketOf(source, destination, d));
      r := Ok(());
    }

    method ReceiveFor(id: nat) returns (r: Result<Option<Packet>, PacketError>)
      modifies this`bindings
      ensures (View(), r) == UdpSpec.ReceiveFor(old(View()), id)
    {
      var i := PositionOf(id);
      if i.None? { return Err(Mismatch); }
      var b := bindings[i.value];
      if b.received == [] { return Ok(None); }
      r := Ok(Some(b.received[0]));
      bindings := bindings[i.value := b.(received := b.received[1..])];
    }
  }
}
