/** The UDP socket table on values: bindings, queues, identities and ephemeral ports. */
module UdpSpec {
  import opened Machine

  const EPHEMERAL_START := 49152
  const EPHEMERAL_END := 65535
  const EPHEMERAL_COUNT := 16384
  const ANY_ADDRESS := 0
  const MAX_ID := 0xFFFF_FFFF_FFFF_FFFF

  datatype PacketError = Capacity | Mismatch

  datatype Endpoint = Endpoint(address: u32, port: u16)

  datatype Datagram = Datagram(sourcePort: u16, destinationPort: u16, payload: seq<byte>)

  datatype Packet = Packet(
    sourceAddress: u32, destinationAddress: u32, sourcePort: u16, destinationPort: u16, payload: seq<byte>)

  datatype Binding = Binding(id: nat, local: Endpoint, peer: Option<Endpoint>, received: seq<Packet>)

  datatype Table = Table(
    bindings: seq<Binding>, socketLimit: nat, queueLimit: nat, payloadLimit: nat, nextEphemeral: u16, nextId: nat)

  predicate Overlaps(a: Endpoint, b: Endpoint) {
    a.port == b.port && (a.address == ANY_ADDRESS || b.address == ANY_ADDRESS || a.address == b.address)
  }

  predicate Conflicts(bs: seq<Binding>, local: Endpoint) {
    exists i :: 0 <= i < |bs| && Overlaps(bs[i].local, local)
  }

  predicate Accepts(b: Binding, address: u32, port: u16) {
    b.local.port == port && (b.local.address == ANY_ADDRESS || b.local.address == address)
  }

  /** The first binding with an identity. */
  function Position(bs: seq<Binding>, id: nat): (r: Option<nat>)
    ensures r.Some? ==> r.value < |bs| && bs[r.value].id == id
    ensures r.None? ==> forall i :: 0 <= i < |bs| ==> bs[i].id != id
  {
    if bs == [] then None
    else if bs[0].id == id then Some(0)
    else
      var rest := Position(bs[1..], id);
      if rest.None? then None else Some(rest.value + 1)
  }

  /** The first binding a destination selects. */
  function Selected(bs: seq<Binding>, address: u32, port: u16): (r: Option<nat>)
    ensures r.Some? ==> r.value < |bs| && Accepts(bs[r.value], address, port)
    ensures r.None? ==> forall i :: 0 <= i < |bs| ==> !Accepts(bs[i], address, port)
  {
    if bs == [] then None
    else if Accepts(bs[0], address, port) then Some(0)
    else
      var rest := Selected(bs[1..], address, port);
      if rest.None? then None else Some(rest.value + 1)
  }

  function NextPort(port: u16): u16 {
    if port == EPHEMERAL_END then EPHEMERAL_START else port + 1
  }

  /** The first free candidate of the next n, and where the search stands afterwards. */
  function Allocate(bs: seq<Binding>, address: u32, next: u16, n: nat): (Option<u16>, u16)
    decreases n
  {
    if n == 0 then (None, next)
    else if !Conflicts(bs, Endpoint(address, next)) then (Some(next), NextPort(next))
    else Allocate(bs, address, NextPort(next), n - 1)
  }

  function Bound(t: Table, address: u32, port: u16): (Table, Result<nat, PacketError>) {
    (t.(bindings := t.bindings + [Binding(t.nextId, Endpoint(address, port), None, [])], nextId := t.nextId + 1),
     Ok(t.nextId))
  }

  function BindEndpoint(t: Table, address: u32, requested: u16): (Table, Result<nat, PacketError>) {
    if |t.bindings| >= t.socketLimit || t.nextId == MAX_ID then (t, Err(Capacity))
    else if requested == 0 then
      var (port, next) := Allocate(t.bindings, address, t.nextEphemeral, EPHEMERAL_COUNT);
      var after := t.(nextEphemeral := next);
      if port.None? then (after, Err(Capacity)) else Bound(after, address, port.value)
    else if Conflicts(t.bindings, Endpoint(address, requested)) then (t, Err(Mismatch))
    else Bound(t, address, requested)
  }

  /** Removing a binding moves the last one into its place. */
  function SwapRemove(bs: seq<Binding>, i: nat): seq<Binding>
    requires i < |bs|
  {
    if i == |bs| - 1 then bs[..i] else bs[..|bs| - 1][i := bs[|bs| - 1]]
  }

  function UnbindEndpoint(t: Table, id: nat): (Table, bool) {
    var i := Position(t.bindings, id);
    if i.None? then (t, false) else (t.(bindings := SwapRemove(t.bindings, i.value)), true)
  }

  function SetPeer(t: Table, id: nat, peer: Option<Endpoint>): (Table, Result<(), PacketError>) {
    var i := Position(t.bindings, id);
    if i.None? then (t, Err(Mismatch))
    else (t.(bindings := t.bindings[i.value := t.bindings[i.value].(peer := peer)]), Ok(()))
  }

  function PacketOf(source: u32, destination: u32, d: Datagram): Packet {
    Packet(source, destination, d.sourcePort, d.destinationPort, d.payload)
  }

  function Queued(bs: seq<Binding>, i: nat, p: Packet): seq<Binding>
    requires i < |bs|
  {
    bs[i := bs[i].(received := bs[i].received + [p])]
  }

  function Enqueue(t: Table, source: u32, destination: u32, d: Datagram): (Table, Result<(), PacketError>) {
    var i := Selected(t.bindings, destination, d.destinationPort);
    if |d.payload| > t.payloadLimit then (t, Err(Capacity))
    else if i.None? then (t, Err(Mismatch))
    else
      var b := t.bindings[i.value];
      if b.peer.Some? && b.peer != Some(Endpoint(source, d.sourcePort)) then (t, Err(Mismatch))
      else if |b.received| >= t.queueLimit then (t, Err(Capacity))
      else (t.(bindings := Queued(t.bindings, i.value, PacketOf(source, destination, d))), Ok(()))
  }

  function ReceiveFor(t: Table, id: nat): (Table, Result<Option<Packet>, PacketError>) {
    var i := Position(t.bindings, id);
    if i.None? then (t, Err(Mismatch))
    else
      var b := t.bindings[i.value];
      if b.received == [] then (t, Ok(None))
      else (t.(bindings := t.bindings[i.value := b.(received := b.received[1..])]), Ok(Some(b.received[0])))
  }
}
