/** Who may send to a socket over every run: the last peer set decides, and an arrival's outcome is exact. */
module UdpPeers {
  import opened Machine
  import opened UdpSpec
  import opened UdpRuns

  /** An identity is bound. */
  predicate Holds(bs: seq<Binding>, id: nat) {
    exists i :: 0 <= i < |bs| && bs[i].id == id
  }

  /** The peer last set for an identity while it was bound, read from the events alone. */
  function LastPeer(ws: seq<World>, es: seq<Event>, id: nat, k: nat): Option<Endpoint>
    requires |ws| == |es| + 1 && k < |ws|
    decreases k
  {
    if k == 0 then None
    else
      match es[k - 1]
      case Connect(c, peer) =>
        if c == id && Holds(ws[k - 1].t.bindings, id) then peer else LastPeer(ws, es, id, k - 1)
      case _ => LastPeer(ws, es, id, k - 1)
  }

  lemma NextIdGrows(w: World, e: Event)
    ensures w.t.nextId <= Step(w, e).t.nextId
  {
  }

  lemma Unheld(w: World, id: nat)
    requires Inv(w) && w.t.nextId <= id
    ensures !Holds(w.t.bindings, id)
  {
    forall i | 0 <= i < |w.t.bindings| ensures w.t.bindings[i].id != id { assert BindingOk(w.t.bindings[i], w); }
  }

  lemma {:induction false} UnissuedHasNoPeer(ws: seq<World>, es: seq<Event>, id: nat, k: nat)
    requires IsRun(ws, es) && k < |ws| && ws[k].t.nextId <= id
    ensures LastPeer(ws, es, id, k) == None
    decreases k
  {
    if k > 0 {
      RunKeeps(ws, es, k - 1);
      NextIdGrows(ws[k - 1], es[k - 1]);
      Unheld(ws[k - 1], id);
      UnissuedHasNoPeer(ws, es, id, k - 1);
    }
  }

  /** A binding under the same identity and with the same peer. */
  predicate Kept(bs: seq<Binding>, b: Binding) {
    exists j :: 0 <= j < |bs| && bs[j].id == b.id && bs[j].peer == b.peer
  }

  lemma BoundBefore(w: World, e: Event, i: nat)
    requires Inv(w) && e.Bind? && i < |Step(w, e).t.bindings|
    ensures var b := Step(w, e).t.bindings[i];
      (b.id == w.t.nextId && b.peer == None) || Kept(w.t.bindings, b)
  {
    var next, chosen := BindCases(w, e.address, e.port);
    if i < |w.t.bindings| { assert Step(w, e).t.bindings[i] == w.t.bindings[i]; }
  }

  lemma ReleasedBefore(w: World, e: Event, i: nat)
    requires e.Unbind? && i < |Step(w, e).t.bindings|
    ensures Kept(w.t.bindings, Step(w, e).t.bindings[i])
  {
    var bs := w.t.bindings;
    var p := Position(bs, e.id);
    if p.Some? { SwapRemoved(bs, p.value); }
    assert Step(w, e).t.bindings[i] == if p.Some? && i == p.value then bs[|bs| - 1] else bs[i];
  }

  lemma ConnectedBefore(w: World, e: Event, i: nat)
    requires Disjoint(w.t.bindings) && e.Connect? && i < |Step(w, e).t.bindings|
    ensures var b := Step(w, e).t.bindings[i];
      if e.id == b.id then b.peer == e.peer && Holds(w.t.bindings, b.id) else Kept(w.t.bindings, b)
  {
    assert Step(w, e).t.bindings[i].id == w.t.bindings[i].id;
  }

  lemma QueueBefore(w: World, e: Event, i: nat)
    requires (e.Arrive? || e.Receive?) && i < |Step(w, e).t.bindings|
    ensures Kept(w.t.bindings, Step(w, e).t.bindings[i])
  {
    var b := Step(w, e).t.bindings[i];
    assert b.id == w.t.bindings[i].id && b.peer == w.t.bindings[i].peer;
  }

  lemma PeerBefore(w: World, e: Event, w': World, i: nat)
    requires Inv(w) && w' == Step(w, e) && i < |w'.t.bindings|
    ensures var b := w'.t.bindings[i];
      if e.Connect? && e.id == b.id then b.peer == e.peer && Holds(w.t.bindings, b.id)
      else (b.id == w.t.nextId && b.peer == None) || Kept(w.t.bindings, b)
  {
    match e {
      case Bind(_, _) => BoundBefore(w, e, i);
      case Unbind(_) => ReleasedBefore(w, e, i);
      case Connect(_, _) => ConnectedBefore(w, e, i);
      case _ => QueueBefore(w, e, i);
    }
  }

  /** In every reachable table the peer of a socket is the last one set for it, and none before the first. */
  lemma {:induction false} PeerIsLastSet(ws: seq<World>, es: seq<Event>, k: nat, i: nat)
    requires IsRun(ws, es) && k < |ws| && i < |ws[k].t.bindings|
    ensures ws[k].t.bindings[i].peer == LastPeer(ws, es, ws[k].t.bindings[i].id, k)
    decreases k
  {
    if k > 0 {
      var bs, b := ws[k - 1].t.bindings, ws[k].t.bindings[i];
      RunKeeps(ws, es, k - 1);
      PeerBefore(ws[k - 1], es[k - 1], ws[k], i);
      if Kept(bs, b) {
        var j :| 0 <= j < |bs| && bs[j].id == b.id && bs[j].peer == b.peer;
        PeerIsLastSet(ws, es, k - 1, j);
      } else if b.id == ws[k - 1].t.nextId {
        UnissuedHasNoPeer(ws, es, b.id, k - 1);
      }
    }
  }

  /** A socket without a peer hears everyone; one with a peer hears only that address and port. */
  predicate Hears(peer: Option<Endpoint>, source: u32, port: u16) {
    peer.None? || (peer.value.address == source && peer.value.port == port)
  }

  /**
   * Exactly what becomes of a datagram for a destination some socket accepts: it is queued,
   * last and to that socket alone, unless it is too long, the last peer set for the socket is
   * someone else, or the queue is full, and then nothing changes.
   */
  lemma ArrivalExactly(ws: seq<World>, es: seq<Event>, k: nat, i: nat)
    requires IsRun(ws, es) && k < |es| && es[k].Arrive? && i < |ws[k].t.bindings|
    requires Accepts(ws[k].t.bindings[i], es[k].destination, es[k].datagram.destinationPort)
    ensures var w, w', e, b := ws[k], ws[k + 1], es[k], ws[k].t.bindings[i];
      var outcome := Enqueue(w.t, e.source, e.destination, e.datagram).1;
      && outcome == (if |e.datagram.payload| > w.t.payloadLimit then Err(Capacity)
                     else if !Hears(LastPeer(ws, es, b.id, k), e.source, e.datagram.sourcePort) then Err(Mismatch)
                     else if |b.received| == w.t.queueLimit then Err(Capacity)
                     else Ok(()))
      && (outcome.Err? ==> w' == w)
      && (outcome.Ok? ==>
            var p := Packet(e.source, e.destination, e.datagram.sourcePort, e.datagram.destinationPort,
                            e.datagram.payload);
            && |w'.t.bindings| == |w.t.bindings| && w'.t.bindings[i] == b.(received := b.received + [p])
            && (forall j :: 0 <= j < |w.t.bindings| && j != i ==> w'.t.bindings[j] == w.t.bindings[j])
            && Log(w'.sent, b.id) == Log(w.sent, b.id) + [p])
  {
    var w, e := ws[k], es[k];
    RunKeeps(ws, es, k);
    PeerIsLastSet(ws, es, k, i);
    assert BindingOk(w.t.bindings[i], w);
    var s := Selected(w.t.bindings, e.destination, e.datagram.destinationPort);
    OneAccepts(w.t.bindings, e.destination, e.datagram.destinationPort, s.value, i);
  }

  /** A socket takes datagrams for this destination, and now from this source. */
  predicate Listens(ws: seq<World>, es: seq<Event>, k: nat, i: nat)
    requires |ws| == |es| + 1 && k < |es| && es[k].Arrive?
  {
    && i < |ws[k].t.bindings| && Accepts(ws[k].t.bindings[i], es[k].destination, es[k].datagram.destinationPort)
    && Hears(LastPeer(ws, es, ws[k].t.bindings[i].id, k), es[k].source, es[k].datagram.sourcePort)
  }

  function Outcome(ws: seq<World>, es: seq<Event>, k: nat): Result<(), PacketError>
    requires |ws| == |es| + 1 && k < |es| && es[k].Arrive?
  {
    Enqueue(ws[k].t, es[k].source, es[k].destination, es[k].datagram).1
  }

  lemma ClaimedOutcome(ws: seq<World>, es: seq<Event>, k: nat, i: nat)
    requires IsRun(ws, es) && k < |es| && es[k].Arrive? && |es[k].datagram.payload| <= ws[k].t.payloadLimit
    requires i < |ws[k].t.bindings| && Accepts(ws[k].t.bindings[i], es[k].destination, es[k].datagram.destinationPort)
    ensures Outcome(ws, es, k) == if !Listens(ws, es, k, i) then Err(Mismatch)
                                  else if |ws[k].t.bindings[i].received| == ws[k].t.queueLimit then Err(Capacity)
                                  else Ok(())
  {
    ArrivalExactly(ws, es, k, i);
  }

  lemma UnclaimedOutcome(ws: seq<World>, es: seq<Event>, k: nat)
    requires IsRun(ws, es) && k < |es| && es[k].Arrive? && |es[k].datagram.payload| <= ws[k].t.payloadLimit
    requires Selected(ws[k].t.bindings, es[k].destination, es[k].datagram.destinationPort).None?
    ensures Outcome(ws, es, k) == Err(Mismatch)
    ensures forall i :: 0 <= i < |ws[k].t.bindings| ==> !Listens(ws, es, k, i)
  {
  }

  lemma OneListens(ws: seq<World>, es: seq<Event>, k: nat, i: nat, j: nat)
    requires IsRun(ws, es) && k < |es| && es[k].Arrive? && Listens(ws, es, k, j) && i < |ws[k].t.bindings|
    requires Accepts(ws[k].t.bindings[i], es[k].destination, es[k].datagram.destinationPort)
    ensures i == j
  {
    AtMostOneAccepts(ws, es, k, es[k].destination, es[k].datagram.destinationPort, i, j);
  }

  /**
   * In every run a datagram that is not too long is refused as a mismatch exactly when no socket
   * listens to it, is refused for capacity exactly when the one that does is full, and is
   * otherwise queued.
   */
  lemma ArrivalOutcome(ws: seq<World>, es: seq<Event>, k: nat)
    requires IsRun(ws, es) && k < |es| && es[k].Arrive? && |es[k].datagram.payload| <= ws[k].t.payloadLimit
    ensures Outcome(ws, es, k) == Err(Mismatch)
       <==> forall i :: 0 <= i < |ws[k].t.bindings| ==> !Listens(ws, es, k, i)
    ensures Outcome(ws, es, k) == Err(Capacity)
       <==> exists i :: 0 <= i < |ws[k].t.bindings| && Listens(ws, es, k, i)
                        && |ws[k].t.bindings[i].received| == ws[k].t.queueLimit
  {
    var s := Selected(ws[k].t.bindings, es[k].destination, es[k].datagram.destinationPort);
    if s.None? {
      UnclaimedOutcome(ws, es, k);
    } else {
      ClaimedOutcome(ws, es, k, s.value);
      forall j | 0 <= j < |ws[k].t.bindings| && Listens(ws, es, k, j) ensures j == s.value {
        OneListens(ws, es, k, s.value, j);
      }
    }
  }

  // ---------------------------------------------------------------- where queued packets come from

  /** An arrival of the run that a socket could hear when it came. */
  predicate HeardAt(ws: seq<World>, es: seq<Event>, id: nat, p: Packet, j: nat)
    requires |ws| == |es| + 1
  {
    && j < |es| && es[j].Arrive? && p == PacketOf(es[j].source, es[j].destination, es[j].datagram)
    && Hears(LastPeer(ws, es, id, j), p.sourceAddress, p.sourcePort)
  }

  lemma LogStep(w: World, e: Event, id: nat)
    requires Inv(w)
    ensures var was, now := Log(w.sent, id), Log(Step(w, e).sent, id);
      || now == was || (e.Bind? && now == [])
      || (e.Arrive? && now == was + [PacketOf(e.source, e.destination, e.datagram)]
          && exists i :: 0 <= i < |w.t.bindings| && w.t.bindings[i].id == id
                         && Hears(w.t.bindings[i].peer, e.source, e.datagram.sourcePort))
  {
    if e.Arrive? {
      var s := Selected(w.t.bindings, e.destination, e.datagram.destinationPort);
      if s.Some? && w.t.bindings[s.value].id == id && Enqueue(w.t, e.source, e.destination, e.datagram).1.Ok? {
        assert Hears(w.t.bindings[s.value].peer, e.source, e.datagram.sourcePort);
      }
    }
  }

  /**
   * Every packet ever queued to an identity came in an arrival of the run, while the last peer
   * set for the identity was its sender or there was none.
   */
  lemma {:induction false} QueuedWasHeard(ws: seq<World>, es: seq<Event>, k: nat, id: nat, n: nat) returns (j: nat)
    requires IsRun(ws, es) && k < |ws| && n < |Log(ws[k].sent, id)|
    ensures j < k && HeardAt(ws, es, id, Log(ws[k].sent, id)[n], j)
    decreases k
  {
    var w, e := ws[k - 1], es[k - 1];
    assert ws[k - 1 + 1] == Step(w, e);
    RunKeeps(ws, es, k - 1);
    LogStep(w, e, id);
    if n < |Log(w.sent, id)| {
      j := QueuedWasHeard(ws, es, k - 1, id, n);
    } else {
      j := k - 1;
      var i :| 0 <= i < |w.t.bindings| && w.t.bindings[i].id == id
               && Hears(w.t.bindings[i].peer, e.source, e.datagram.sourcePort);
      PeerIsLastSet(ws, es, k - 1, i);
    }
  }

  // ---------------------------------------------------------------- binding and releasing

  /** An endpoint takes datagrams for a destination. */
  predicate Takes(e: Endpoint, address: u32, port: u16) {
    Accepts(Binding(0, e, None, []), address, port)
  }

  /** Two endpoints overlap exactly when some destination would reach both. */
  lemma OverlapIsShared(a: Endpoint, b: Endpoint)
    ensures Overlaps(a, b) <==> exists address: u32, port: u16 :: Takes(a, address, port) && Takes(b, address, port)
  {
    if Overlaps(a, b) {
      var address := if a.address == ANY_ADDRESS then b.address else a.address;
      assert Takes(a, address, a.port) && Takes(b, address, a.port);
    }
  }

  predicate FreeEphemeral(bs: seq<Binding>, address: u32) {
    exists p: u16 :: EPHEMERAL_START <= p <= EPHEMERAL_END && !Conflicts(bs, Endpoint(address, p))
  }

  /**
   * Exactly when an endpoint is bound: there is room, an identity is left, and the requested
   * port, or for port zero some ephemeral one, overlaps no binding. The new socket is empty,
   * has no peer and the next identity; every other socket keeps its place.
   */
  lemma BindExactly(ws: seq<World>, es: seq<Event>, k: nat)
    requires IsRun(ws, es) && k < |es| && es[k].Bind?
    ensures var t, t', e := ws[k].t, ws[k + 1].t, es[k];
      var r := BindEndpoint(t, e.address, e.port).1;
      && r == (if |t.bindings| == t.socketLimit || t.nextId == MAX_ID then Err(Capacity)
               else if e.port == 0 && !FreeEphemeral(t.bindings, e.address) then Err(Capacity)
               else if e.port != 0 && Conflicts(t.bindings, Endpoint(e.address, e.port)) then Err(Mismatch)
               else Ok(t.nextId))
      && (r.Err? ==> t'.bindings == t.bindings && t'.nextId == t.nextId)
      && (r.Ok? ==> exists p: u16 ::
            && t'.bindings == t.bindings + [Binding(t.nextId, Endpoint(e.address, p), None, [])]
            && (if e.port == 0 then EPHEMERAL_START <= p <= EPHEMERAL_END else p == e.port)
            && !Conflicts(t.bindings, Endpoint(e.address, p)))
  {
    var w, e := ws[k], es[k];
    RunKeeps(ws, es, k);
    EphemeralExact(w.t.bindings, e.address, w.t.nextEphemeral);
    var r := BindEndpoint(w.t, e.address, e.port).1;
    if r.Ok? {
      var p := if e.port == 0 then Allocate(w.t.bindings, e.address, w.t.nextEphemeral, EPHEMERAL_COUNT).0.value
               else e.port;
      assert ws[k + 1].t.bindings == w.t.bindings + [Binding(w.t.nextId, Endpoint(e.address, p), None, [])];
    }
  }

  /** Releasing an identity reports whether it was bound and takes away its socket and no other. */
  lemma UnbindExactly(ws: seq<World>, es: seq<Event>, k: nat, b: Binding)
    requires IsRun(ws, es) && k < |es| && es[k].Unbind?
    ensures UnbindEndpoint(ws[k].t, es[k].id).1 <==> Holds(ws[k].t.bindings, es[k].id)
    ensures b in ws[k + 1].t.bindings <==> b in ws[k].t.bindings && b.id != es[k].id
  {
    var bs, bs' := ws[k].t.bindings, ws[k + 1].t.bindings;
    RunKeeps(ws, es, k);
    var p := Position(bs, es[k].id);
    if p.Some? {
      SwapRemoved(bs, p.value);
      if b in bs && b.id != es[k].id {
        var j :| 0 <= j < |bs| && bs[j] == b;
        assert bs'[if j == |bs| - 1 then p.value else j] == b;
      }
      if b in bs' {
        var j :| 0 <= j < |bs'| && bs'[j] == b;
        assert b == bs[if j == p.value then |bs| - 1 else j];
      }
    } else {
      assert bs' == bs;
    }
  }

  /**
   * Receiving on an identity that is not bound is refused; on a bound one it hands out the
   * oldest packet queued and not yet received, and nothing exactly when all were received.
   */
  lemma ReceiveExactly(ws: seq<World>, es: seq<Event>, k: nat)
    requires IsRun(ws, es) && k < |es| && es[k].Receive?
    ensures var w, w', id := ws[k], ws[k + 1], es[k].id;
      var r, sent, taken := ReceiveFor(w.t, id).1, Log(w.sent, id), Log(w.taken, id);
      if !Holds(w.t.bindings, id) then r == Err(Mismatch) && w' == w
      else if |taken| == |sent| then r == Ok(None) && w' == w
      else |taken| < |sent| && r == Ok(Some(sent[|taken|])) && Log(w'.taken, id) == sent[..|taken| + 1]
  {
    var w, id := ws[k], es[k].id;
    RunKeeps(ws, es, k);
    var p := Position(w.t.bindings, id);
    if p.Some? {
      assert BindingOk(w.t.bindings[p.value], w);
    }
  }
}
