/** The order of the bindings, which removals change, is never observed. */
module UdpOrder {
  import opened Machine
  import opened UdpSpec
  import opened UdpRuns

  /** What a call reports. */
  datatype Outcome =
    | Bound(bound: Result<nat, PacketError>)
    | Unbound(found: bool)
    | Connected(connected: Result<(), PacketError>)
    | Queued(queued: Result<(), PacketError>)
    | Received(received: Result<Option<Packet>, PacketError>)

  function OutcomeOf(t: Table, e: Event): Outcome {
    match e
    case Bind(address, port) => Bound(BindEndpoint(t, address, port).1)
    case Unbind(id) => Unbound(UnbindEndpoint(t, id).1)
    case Connect(id, peer) => Connected(SetPeer(t, id, peer).1)
    case Arrive(source, destination, d) => Queued(Enqueue(t, source, destination, d).1)
    case Receive(id) => Received(ReceiveFor(t, id).1)
  }

  /** Two lists of disjoint bindings that differ in their order only. */
  predicate Reordered(bs: seq<Binding>, bs': seq<Binding>) {
    Disjoint(bs) && Disjoint(bs') && multiset(bs) == multiset(bs')
  }

  lemma SameMembers(bs: seq<Binding>, bs': seq<Binding>)
    requires multiset(bs) == multiset(bs')
    ensures |bs| == |bs'| && forall b :: b in bs <==> b in bs'
  {
    assert |multiset(bs)| == |bs| && |multiset(bs')| == |bs'|;
    assert forall b :: b in bs <==> b in multiset(bs);
    assert forall b :: b in bs' <==> b in multiset(bs');
  }

  /** The binding of an identity, as a value. */
  function BindingOf(bs: seq<Binding>, id: nat): Option<Binding> {
    var i := Position(bs, id);
    if i.None? then None else Some(bs[i.value])
  }

  /** The binding a destination selects, as a value. */
  function SelectedBinding(bs: seq<Binding>, address: u32, port: u16): Option<Binding> {
    var i := Selected(bs, address, port);
    if i.None? then None else Some(bs[i.value])
  }

  lemma SamePosition(bs: seq<Binding>, bs': seq<Binding>, id: nat)
    requires Reordered(bs, bs')
    ensures BindingOf(bs', id) == BindingOf(bs, id)
  {
    SameMembers(bs, bs');
    var i, i' := Position(bs, id), Position(bs', id);
    if i.Some? {
      assert bs[i.value] in bs';
      assert bs'[i'.value] in bs;
      var j :| 0 <= j < |bs| && bs[j] == bs'[i'.value];
      assert i.value == j;
    } else {
      assert forall b :: b in bs ==> b.id != id;
    }
  }

  /** Delivery does not depend on the order of the bindings. */
  lemma OrderDoesNotMatter(bs: seq<Binding>, bs': seq<Binding>, address: u32, port: u16)
    requires Reordered(bs, bs')
    ensures SelectedBinding(bs', address, port) == SelectedBinding(bs, address, port)
  {
    SameMembers(bs, bs');
    var i, i' := Selected(bs, address, port), Selected(bs', address, port);
    if i.Some? {
      assert bs[i.value] in bs';
      assert bs'[i'.value] in bs;
      var j :| 0 <= j < |bs| && bs[j] == bs'[i'.value];
      OneAccepts(bs, address, port, i.value, j);
    } else {
      assert forall b :: b in bs ==> !Accepts(b, address, port);
    }
  }

  lemma SameConflicts(bs: seq<Binding>, bs': seq<Binding>, local: Endpoint)
    requires forall b :: b in bs <==> b in bs'
    ensures Conflicts(bs, local) == Conflicts(bs', local)
  {
    if Conflicts(bs, local) {
      var i :| 0 <= i < |bs| && Overlaps(bs[i].local, local);
      assert bs[i] in bs';
    }
    if Conflicts(bs', local) {
      var i :| 0 <= i < |bs'| && Overlaps(bs'[i].local, local);
      assert bs'[i] in bs;
    }
  }

  lemma {:induction false} SameSearch(bs: seq<Binding>, bs': seq<Binding>, address: u32, next: u16, n: nat)
    requires forall b :: b in bs <==> b in bs'
    ensures Allocate(bs', address, next, n) == Allocate(bs, address, next, n)
    decreases n
  {
    if n > 0 {
      SameConflicts(bs, bs', Endpoint(address, next));
      SameSearch(bs, bs', address, NextPort(next), n - 1);
    }
  }

  // ---------------------------------------------------------------- one step

  /** Two tables that differ in the order of their bindings only. */
  predicate Alike(t: Table, t': Table) {
    t' == t.(bindings := t'.bindings) && Reordered(t.bindings, t'.bindings)
  }

  /** The same, but for being disjoint. */
  predicate Shuffled(t: Table, t': Table) {
    t' == t.(bindings := t'.bindings) && multiset(t.bindings) == multiset(t'.bindings)
  }

  lemma BindAlike(t: Table, t': Table, address: u32, port: u16)
    requires Alike(t, t')
    ensures BindEndpoint(t', address, port).1 == BindEndpoint(t, address, port).1
    ensures Shuffled(BindEndpoint(t, address, port).0, BindEndpoint(t', address, port).0)
  {
    SameMembers(t.bindings, t'.bindings);
    SameSearch(t.bindings, t'.bindings, address, t.nextEphemeral, EPHEMERAL_COUNT);
    SameConflicts(t.bindings, t'.bindings, Endpoint(address, port));
  }

  lemma SwapRemovedBag(bs: seq<Binding>, i: nat)
    requires i < |bs|
    ensures multiset(SwapRemove(bs, i)) == multiset(bs) - multiset{bs[i]}
  {
    var n := |bs| - 1;
    assert bs == bs[..n] + [bs[n]];
    if i < n {
      assert multiset(bs[..n][i := bs[n]]) == multiset(bs[..n]) - multiset{bs[i]} + multiset{bs[n]};
    }
  }

  lemma UnbindAlike(t: Table, t': Table, id: nat)
    requires Alike(t, t')
    ensures UnbindEndpoint(t', id).1 == UnbindEndpoint(t, id).1
    ensures Shuffled(UnbindEndpoint(t, id).0, UnbindEndpoint(t', id).0)
  {
    SamePosition(t.bindings, t'.bindings, id);
    var i, i' := Position(t.bindings, id), Position(t'.bindings, id);
    if i.Some? {
      SwapRemovedBag(t.bindings, i.value);
      SwapRemovedBag(t'.bindings, i'.value);
    }
  }

  /** Replacing the same binding by the same value keeps two lists reorderings of each other. */
  lemma ReplacedBag(bs: seq<Binding>, bs': seq<Binding>, i: nat, i': nat, b: Binding)
    requires multiset(bs) == multiset(bs') && i < |bs| && i' < |bs'| && bs[i] == bs'[i']
    ensures multiset(bs[i := b]) == multiset(bs'[i' := b])
  {
    assert multiset(bs[i := b]) == multiset(bs) - multiset{bs[i]} + multiset{b};
    assert multiset(bs'[i' := b]) == multiset(bs') - multiset{bs'[i']} + multiset{b};
  }

  lemma ConnectAlike(t: Table, t': Table, id: nat, peer: Option<Endpoint>)
    requires Alike(t, t')
    ensures SetPeer(t', id, peer).1 == SetPeer(t, id, peer).1
    ensures Shuffled(SetPeer(t, id, peer).0, SetPeer(t', id, peer).0)
  {
    SamePosition(t.bindings, t'.bindings, id);
    var i, i' := Position(t.bindings, id), Position(t'.bindings, id);
    if i.Some? {
      ReplacedBag(t.bindings, t'.bindings, i.value, i'.value, t.bindings[i.value].(peer := peer));
    }
  }

  lemma ArriveAlike(t: Table, t': Table, source: u32, destination: u32, d: Datagram)
    requires Alike(t, t')
    ensures Enqueue(t', source, destination, d).1 == Enqueue(t, source, destination, d).1
    ensures Shuffled(Enqueue(t, source, destination, d).0, Enqueue(t', source, destination, d).0)
  {
    OrderDoesNotMatter(t.bindings, t'.bindings, destination, d.destinationPort);
    var i, i' := Selected(t.bindings, destination, d.destinationPort), Selected(t'.bindings, destination, d.destinationPort);
    if i.Some? {
      var b := t.bindings[i.value];
      ReplacedBag(t.bindings, t'.bindings, i.value, i'.value,
                  b.(received := b.received + [PacketOf(source, destination, d)]));
    }
  }

  lemma ReceiveAlike(t: Table, t': Table, id: nat)
    requires Alike(t, t')
    ensures ReceiveFor(t', id).1 == ReceiveFor(t, id).1
    ensures Shuffled(ReceiveFor(t, id).0, ReceiveFor(t', id).0)
  {
    SamePosition(t.bindings, t'.bindings, id);
    var i, i' := Position(t.bindings, id), Position(t'.bindings, id);
    if i.Some? && t.bindings[i.value].received != [] {
      var b := t.bindings[i.value];
      ReplacedBag(t.bindings, t'.bindings, i.value, i'.value, b.(received := b.received[1..]));
    }
  }

  // ---------------------------------------------------------------- whole runs

  /** Two worlds of the same history whose tables differ in order only. */
  ghost predicate Twins(w: World, w': World) {
    Inv(w) && Inv(w') && Shuffled(w.t, w'.t) && w' == w.(t := w'.t)
  }

  lemma StepShuffles(w: World, w': World, e: Event)
    requires Twins(w, w')
    ensures OutcomeOf(w'.t, e) == OutcomeOf(w.t, e)
    ensures Shuffled(Step(w, e).t, Step(w', e).t) && Step(w', e) == Step(w, e).(t := Step(w', e).t)
  {
    assert Alike(w.t, w'.t);
    match e
    case Bind(address, port) => BindAlike(w.t, w'.t, address, port);
    case Unbind(id) => UnbindAlike(w.t, w'.t, id);
    case Connect(id, peer) => ConnectAlike(w.t, w'.t, id, peer);
    case Arrive(source, destination, d) =>
      ArriveAlike(w.t, w'.t, source, destination, d);
      OrderDoesNotMatter(w.t.bindings, w'.t.bindings, destination, d.destinationPort);
    case Receive(id) => ReceiveAlike(w.t, w'.t, id);
  }

  /**
   * Two runs of the same events from reachable tables that differ in the order of their
   * bindings report the same at every event, and their tables differ in order only.
   */
  lemma {:induction false} RunsAgree(ws: seq<World>, ws': seq<World>, es: seq<Event>, k: nat)
    requires |ws| == |ws'| == |es| + 1 && k <= |es| && Twins(ws[0], ws'[0])
    requires forall i :: 0 <= i < |es| ==> ws[i + 1] == Step(ws[i], es[i]) && ws'[i + 1] == Step(ws'[i], es[i])
    ensures Twins(ws[k], ws'[k]) && (k < |es| ==> OutcomeOf(ws'[k].t, es[k]) == OutcomeOf(ws[k].t, es[k]))
  {
    if k > 0 {
      RunsAgree(ws, ws', es, k - 1);
      assert ws[k - 1 + 1] == Step(ws[k - 1], es[k - 1]) && ws'[k - 1 + 1] == Step(ws'[k - 1], es[k - 1]);
      StepShuffles(ws[k - 1], ws'[k - 1], es[k - 1]);
      StepKeeps(ws[k - 1], es[k - 1]);
      StepKeeps(ws'[k - 1], es[k - 1]);
    }
    if k < |es| { StepShuffles(ws[k], ws'[k], es[k]); }
  }
}
