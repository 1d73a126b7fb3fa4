/** Every run of the UDP table: disjoint bindings, fresh identities, exact FIFO delivery, exact port search. */
module UdpRuns {
  import opened Machine
  import opened UdpSpec

  datatype Event =
    | Bind(address: u32, port: u16)
    | Unbind(id: nat)
    | Connect(id: nat, peer: Option<Endpoint>)
    | Arrive(source: u32, destination: u32, datagram: Datagram)
    | Receive(id: nat)

  /** The table, the identities issued, and per identity what was queued and what was received. */
  datatype World = World(t: Table, issued: seq<nat>, sent: map<nat, seq<Packet>>, taken: map<nat, seq<Packet>>)

  function Log(m: map<nat, seq<Packet>>, id: nat): seq<Packet> {
    if id in m then m[id] else []
  }

  function Step(w: World, e: Event): World {
    match e
    case Bind(address, port) =>
      var (t, r) := BindEndpoint(w.t, address, port);
      if r.Err? then w.(t := t)
      else World(t, w.issued + [r.value], w.sent[r.value := []], w.taken[r.value := []])
    case Unbind(id) => w.(t := UnbindEndpoint(w.t, id).0)
    case Connect(id, peer) => w.(t := SetPeer(w.t, id, peer).0)
    case Arrive(source, destination, d) =>
      var (t, r) := Enqueue(w.t, source, destination, d);
      var i := Selected(w.t.bindings, destination, d.destinationPort);
      if r.Err? || i.None? then w.(t := t)
      else
        var id := w.t.bindings[i.value].id;
        w.(t := t, sent := w.sent[id := Log(w.sent, id) + [PacketOf(source, destination, d)]])
    case Receive(id) =>
      var (t, r) := ReceiveFor(w.t, id);
      if r.Err? || r.value.None? then w.(t := t)
      else w.(t := t, taken := w.taken[id := Log(w.taken, id) + [r.value.value]])
  }

  function Begin(socketLimit: nat, queueLimit: nat, payloadLimit: nat): World {
    World(Table([], socketLimit, queueLimit, payloadLimit, EPHEMERAL_START, 1), [], map[], map[])
  }

  predicate IsRun(ws: seq<World>, es: seq<Event>) {
    && |ws| == |es| + 1
    && ws[0] == Begin(ws[0].t.socketLimit, ws[0].t.queueLimit, ws[0].t.payloadLimit)
    && forall i :: 0 <= i < |es| ==> ws[i + 1] == Step(ws[i], es[i])
  }

  // ---------------------------------------------------------------- the invariant

  predicate Disjoint(bs: seq<Binding>) {
    forall i, j :: 0 <= i < j < |bs| ==> !Overlaps(bs[i].local, bs[j].local) && bs[i].id != bs[j].id
  }

  predicate BindingOk(b: Binding, w: World) {
    && b.id < w.t.nextId && b.id in w.sent && b.id in w.taken
    && w.sent[b.id] == w.taken[b.id] + b.received && |b.received| <= w.t.queueLimit
    && forall k :: 0 <= k < |b.received| ==>
         && |b.received[k].payload| <= w.t.payloadLimit
         && Accepts(b, b.received[k].destinationAddress, b.received[k].destinationPort)
  }

  ghost predicate Issued(w: World) {
    && (forall i, j :: 0 <= i < j < |w.issued| ==> w.issued[i] < w.issued[j])
    && (forall i :: 0 <= i < |w.issued| ==> 0 < w.issued[i] < w.t.nextId)
    && (forall id :: id in w.sent <==> id in w.issued) && (forall id :: id in w.taken <==> id in w.issued)
  }

  ghost predicate Inv(w: World) {
    && Disjoint(w.t.bindings) && |w.t.bindings| <= w.t.socketLimit
    && (forall i :: 0 <= i < |w.t.bindings| ==> BindingOk(w.t.bindings[i], w))
    && Issued(w) && 1 <= w.t.nextId <= MAX_ID && EPHEMERAL_START <= w.t.nextEphemeral <= EPHEMERAL_END
    && (forall id :: id in w.issued ==> id in w.sent && id in w.taken && w.taken[id] <= w.sent[id])
  }

  // ---------------------------------------------------------------- ephemeral ports

  /** The k-th candidate after a port, wrapping inside the ephemeral range. */
  function PortAfter(port: nat, k: nat): nat
    requires EPHEMERAL_START <= port <= EPHEMERAL_END
  {
    EPHEMERAL_START + (port - EPHEMERAL_START + k) % EPHEMERAL_COUNT
  }

  lemma NextIsAfter(port: u16, k: nat)
    requires EPHEMERAL_START <= port <= EPHEMERAL_END
    ensures EPHEMERAL_START <= NextPort(port) <= EPHEMERAL_END
    ensures PortAfter(NextPort(port), k) == PortAfter(port, k + 1)
  {
    if port == EPHEMERAL_END {
      assert (16383 + (k + 1)) % 16384 == k % 16384 by { WrapOnce(k); }
    }
  }

  lemma WrapOnce(k: nat)
    ensures (k + 16384) % 16384 == k % 16384
  {
  }

  lemma {:induction false} AllocateIs(bs: seq<Binding>, address: u32, next: u16, n: nat)
    requires EPHEMERAL_START <= next <= EPHEMERAL_END
    ensures var (port, after) := Allocate(bs, address, next, n);
      && EPHEMERAL_START <= after <= EPHEMERAL_END
      && (port.Some? ==> EPHEMERAL_START <= port.value <= EPHEMERAL_END
                         && !Conflicts(bs, Endpoint(address, port.value)))
      && (port.None? ==> forall k :: 0 <= k < n ==> Conflicts(bs, Endpoint(address, PortAfter(next, k))))
    decreases n
  {
    if n > 0 {
      NextIsAfter(next, 0);
      if Conflicts(bs, Endpoint(address, next)) {
        AllocateIs(bs, address, NextPort(next), n - 1);
        if Allocate(bs, address, NextPort(next), n - 1).0.None? {
          forall k | 0 <= k < n ensures Conflicts(bs, Endpoint(address, PortAfter(next, k))) {
            if k > 0 {
              NextIsAfter(next, k - 1);
              assert Conflicts(bs, Endpoint(address, PortAfter(NextPort(next), k - 1)));
            }
          }
        }
      }
    }
  }

  /** The search fails exactly when every one of the 16,384 ports conflicts, and finds only free ports. */
  lemma EphemeralExact(bs: seq<Binding>, address: u32, next: u16)
    requires EPHEMERAL_START <= next <= EPHEMERAL_END
    ensures var port := Allocate(bs, address, next, EPHEMERAL_COUNT).0;
      && (port.None? <==> forall p: u16 :: EPHEMERAL_START <= p <= EPHEMERAL_END ==>
                            Conflicts(bs, Endpoint(address, p)))
      && (port.Some? ==> EPHEMERAL_START <= port.value <= EPHEMERAL_END
                         && !Conflicts(bs, Endpoint(address, port.value)))
  {
    AllocateIs(bs, address, next, EPHEMERAL_COUNT);
    if Allocate(bs, address, next, EPHEMERAL_COUNT).0.None? {
      forall p: u16 | EPHEMERAL_START <= p <= EPHEMERAL_END ensures Conflicts(bs, Endpoint(address, p)) {
        var k := if p >= next then p - next else p - next + EPHEMERAL_COUNT;
        assert PortAfter(next, k) == p;
        assert Conflicts(bs, Endpoint(address, PortAfter(next, k)));
      }
    }
  }

  // ---------------------------------------------------------------- one step

  /** A world whose port search stands elsewhere. */
  function Searched(w: World, next: u16): World {
    w.(t := w.t.(nextEphemeral := next))
  }

  /** A world with one more, empty binding. */
  function WithBinding(w: World, address: u32, port: u16): World {
    var (t, r) := Bound(w.t, address, port);
    World(t, w.issued + [w.t.nextId], w.sent[w.t.nextId := []], w.taken[w.t.nextId := []])
  }

  lemma BindCases(w: World, address: u32, port: u16) returns (next: u16, chosen: Option<u16>)
    requires EPHEMERAL_START <= w.t.nextEphemeral <= EPHEMERAL_END
    ensures EPHEMERAL_START <= next <= EPHEMERAL_END
    ensures chosen.None? ==> Step(w, Bind(address, port)) == Searched(w, next)
    ensures chosen.Some? ==>
      && Step(w, Bind(address, port)) == WithBinding(Searched(w, next), address, chosen.value)
      && |w.t.bindings| < w.t.socketLimit && !Conflicts(w.t.bindings, Endpoint(address, chosen.value))
      && w.t.nextId != MAX_ID
  {
    var t := w.t;
    next, chosen := t.nextEphemeral, None;
    assert Searched(w, next) == w;
    if |t.bindings| < t.socketLimit && t.nextId != MAX_ID {
      if port == 0 {
        AllocateIs(t.bindings, address, t.nextEphemeral, EPHEMERAL_COUNT);
        var found := Allocate(t.bindings, address, t.nextEphemeral, EPHEMERAL_COUNT);
        chosen, next := found.0, found.1;
      } else if !Conflicts(t.bindings, Endpoint(address, port)) {
        chosen := Some(port);
      }
    }
  }

  lemma SearchedKeeps(w: World, next: u16)
    requires Inv(w) && EPHEMERAL_START <= next <= EPHEMERAL_END
    ensures Inv(Searched(w, next))
  {
    forall i | 0 <= i < |w.t.bindings| ensures BindingOk(w.t.bindings[i], Searched(w, next)) {
      assert BindingOk(w.t.bindings[i], w);
    }
  }

  lemma BindKeeps(w: World, address: u32, port: u16)
    requires Inv(w)
    ensures Inv(Step(w, Bind(address, port)))
  {
    var next, chosen := BindCases(w, address, port);
    SearchedKeeps(w, next);
    if chosen.Some? {
      var s := Searched(w, next);
      BoundKeeps(s, WithBinding(s, address, chosen.value),
                 Binding(w.t.nextId, Endpoint(address, chosen.value), None, []));
    }
  }

  lemma BoundKeeps(w: World, w': World, b: Binding)
    requires Inv(w) && b.id == w.t.nextId && b.received == [] && !Conflicts(w.t.bindings, b.local)
    requires w' == World(w.t.(bindings := w.t.bindings + [b], nextId := w.t.nextId + 1,
                              nextEphemeral := w'.t.nextEphemeral),
                         w.issued + [b.id], w.sent[b.id := []], w.taken[b.id := []])
    requires EPHEMERAL_START <= w'.t.nextEphemeral <= EPHEMERAL_END && |w.t.bindings| < w.t.socketLimit
    requires w.t.nextId != MAX_ID
    ensures Inv(w')
  {
    var bs, bs' := w.t.bindings, w'.t.bindings;
    forall i, j | 0 <= i < j < |bs'| ensures !Overlaps(bs'[i].local, bs'[j].local) && bs'[i].id != bs'[j].id {
      if j == |bs| { assert BindingOk(bs[i], w); }
    }
    forall i | 0 <= i < |bs'| ensures BindingOk(bs'[i], w') {
      if i < |bs| { assert BindingOk(bs[i], w); }
    }
  }

  lemma SwapRemoved(bs: seq<Binding>, i: nat)
    requires i < |bs|
    ensures |SwapRemove(bs, i)| == |bs| - 1
    ensures forall k :: 0 <= k < |bs| - 1 ==> SwapRemove(bs, i)[k] == if k == i then bs[|bs| - 1] else bs[k]
  {
  }

  lemma UnbindKeeps(w: World, id: nat)
    requires Inv(w)
    ensures Inv(Step(w, Unbind(id)))
  {
    var i, bs := Position(w.t.bindings, id), w.t.bindings;
    if i.Some? {
      SwapRemoved(bs, i.value);
      var w', bs' := Step(w, Unbind(id)), SwapRemove(bs, i.value);
      forall k | 0 <= k < |bs'| ensures BindingOk(bs'[k], w') {
        assert BindingOk(if k == i.value then bs[|bs| - 1] else bs[k], w);
      }
    }
  }

  lemma UpdateKeeps(w: World, w': World, i: nat, b: Binding)
    requires Inv(w) && i < |w.t.bindings| && w'.t == w.t.(bindings := w.t.bindings[i := b]) && w'.issued == w.issued
    requires b.local == w.t.bindings[i].local && b.id == w.t.bindings[i].id && BindingOk(b, w')
    requires w'.sent == w.sent[b.id := Log(w'.sent, b.id)] && w'.taken == w.taken[b.id := Log(w'.taken, b.id)]
    requires Log(w'.taken, b.id) <= Log(w'.sent, b.id)
    ensures Inv(w')
  {
    var bs := w.t.bindings;
    assert BindingOk(bs[i], w);
    forall k | 0 <= k < |bs| ensures BindingOk(w'.t.bindings[k], w') {
      assert BindingOk(bs[k], w);
      if k != i { assert bs[k].id != b.id; }
    }
  }

  lemma ConnectKeeps(w: World, id: nat, peer: Option<Endpoint>)
    requires Inv(w)
    ensures Inv(Step(w, Connect(id, peer)))
  {
    var i := Position(w.t.bindings, id);
    if i.Some? {
      var b := w.t.bindings[i.value];
      assert BindingOk(b, w);
      UpdateKeeps(w, Step(w, Connect(id, peer)), i.value, b.(peer := peer));
    }
  }

  lemma QueuedOk(b: Binding, p: Packet, w: World, w': World)
    requires BindingOk(b, w) && |b.received| < w.t.queueLimit && |p.payload| <= w.t.payloadLimit
    requires Accepts(b, p.destinationAddress, p.destinationPort)
    requires w'.t.nextId == w.t.nextId && w'.t.queueLimit == w.t.queueLimit && w'.t.payloadLimit == w.t.payloadLimit
    requires w'.sent == w.sent[b.id := w.sent[b.id] + [p]] && w'.taken == w.taken
    ensures BindingOk(b.(received := b.received + [p]), w')
  {
  }

  lemma ArriveKeeps(w: World, source: u32, destination: u32, d: Datagram)
    requires Inv(w)
    ensures Inv(Step(w, Arrive(source, destination, d)))
  {
    var i := Selected(w.t.bindings, destination, d.destinationPort);
    var w', p := Step(w, Arrive(source, destination, d)), PacketOf(source, destination, d);
    if Enqueue(w.t, source, destination, d).1.Ok? {
      var b := w.t.bindings[i.value];
      assert BindingOk(b, w);
      QueuedOk(b, p, w, w');
      UpdateKeeps(w, w', i.value, b.(received := b.received + [p]));
    }
  }

  lemma TakenOk(b: Binding, w: World, w': World)
    requires BindingOk(b, w) && b.received != []
    requires w'.t.nextId == w.t.nextId && w'.t.queueLimit == w.t.queueLimit && w'.t.payloadLimit == w.t.payloadLimit
    requires w'.taken == w.taken[b.id := w.taken[b.id] + [b.received[0]]] && w'.sent == w.sent
    ensures BindingOk(b.(received := b.received[1..]), w')
  {
    assert b.received == [b.received[0]] + b.received[1..];
  }

  lemma ReceiveKeeps(w: World, id: nat)
    requires Inv(w)
    ensures Inv(Step(w, Receive(id)))
  {
    var i := Position(w.t.bindings, id);
    if i.Some? && w.t.bindings[i.value].received != [] {
      var b, w' := w.t.bindings[i.value], Step(w, Receive(id));
      assert BindingOk(b, w);
      TakenOk(b, w, w');
      UpdateKeeps(w, w', i.value, b.(received := b.received[1..]));
    }
  }

  lemma StepKeeps(w: World, e: Event)
    requires Inv(w)
    ensures Inv(Step(w, e))
  {
    match e {
      case Bind(address, port) => BindKeeps(w, address, port);
      case Unbind(id) => UnbindKeeps(w, id);
      case Connect(id, peer) => ConnectKeeps(w, id, peer);
      case Arrive(source, destination, d) => ArriveKeeps(w, source, destination, d);
      case Receive(id) => ReceiveKeeps(w, id);
    }
  }

  lemma {:induction false} RunKeeps(ws: seq<World>, es: seq<Event>, k: nat)
    requires IsRun(ws, es) && k < |ws|
    ensures Inv(ws[k])
  {
    if k > 0 {
      RunKeeps(ws, es, k - 1);
      StepKeeps(ws[k - 1], es[k - 1]);
      assert ws[k - 1 + 1] == Step(ws[k - 1], es[k - 1]);
    }
  }

  // ---------------------------------------------------------------- the theorems

  /** No two bindings of a reachable table overlap, so at most one accepts a destination. */
  lemma AtMostOneAccepts(ws: seq<World>, es: seq<Event>, k: nat, address: u32, port: u16, i: nat, j: nat)
    requires IsRun(ws, es) && k < |ws| && i < |ws[k].t.bindings| && j < |ws[k].t.bindings|
    requires Accepts(ws[k].t.bindings[i], address, port) && Accepts(ws[k].t.bindings[j], address, port)
    ensures i == j
  {
    RunKeeps(ws, es, k);
    OneAccepts(ws[k].t.bindings, address, port, i, j);
  }

  lemma OneAccepts(bs: seq<Binding>, address: u32, port: u16, i: nat, j: nat)
    requires Disjoint(bs) && i < |bs| && j < |bs| && Accepts(bs[i], address, port) && Accepts(bs[j], address, port)
    ensures i == j
  {
    assert Overlaps(bs[i].local, bs[j].local) && Overlaps(bs[j].local, bs[i].local);
  }

  /** In every reachable table each identity has received, in order, a prefix of what was queued to it. */
  lemma DeliveryIsFifo(ws: seq<World>, es: seq<Event>, k: nat, i: nat)
    requires IsRun(ws, es) && k < |ws| && i < |ws[k].t.bindings|
    ensures var w, b := ws[k], ws[k].t.bindings[i];
      && b.id in w.sent && b.id in w.taken && w.sent[b.id] == w.taken[b.id] + b.received
      && |b.received| <= w.t.queueLimit && |w.t.bindings| <= w.t.socketLimit
  {
    RunKeeps(ws, es, k);
    assert BindingOk(ws[k].t.bindings[i], ws[k]);
  }

  /** Identities are issued in strictly increasing order, so none is ever reused. */
  lemma IdentitiesAreFresh(ws: seq<World>, es: seq<Event>, k: nat, i: nat, j: nat)
    requires IsRun(ws, es) && k < |ws| && i < j < |ws[k].issued|
    ensures 0 < ws[k].issued[i] < ws[k].issued[j] < ws[k].t.nextId <= MAX_ID
  {
    RunKeeps(ws, es, k);
  }

  /** Every identity ever issued, bound or not, has received in order a prefix of what was queued to it. */
  lemma ReceivedIsPrefix(ws: seq<World>, es: seq<Event>, k: nat, id: nat)
    requires IsRun(ws, es) && k < |ws| && id in ws[k].issued
    ensures id in ws[k].sent && id in ws[k].taken && ws[k].taken[id] <= ws[k].sent[id]
  {
    RunKeeps(ws, es, k);
  }
}
