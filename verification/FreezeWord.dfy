/**
 * The freeze protocol on one 32-bit word, as atomic steps of any number of threads:
 * preparers count themselves in, a freezer swaps a zero count for FROZEN, waiters
 * publish WAITING and park. Between its own atomic steps the owner of a preparation
 * may leave the chain in any intermediate shape.
 */
module FreezeWord {
  import opened Machine
  import opened ScopeChain

  const FROZEN := 0x8000_0000
  const WAITING := 0x4000_0000

  predicate IsFrozen(word: u32) {
    word >= FROZEN
  }

  predicate IsWaiting(word: u32) {
    (word / WAITING) % 2 == 1
  }

  /** The word with the WAITING bit set. */
  function OrWaiting(word: u32): u32 {
    if IsWaiting(word) then word else word + WAITING
  }

  // ---------------------------------------------------------------- threads

  /**
   * Where a thread is. `Looking` carries the last value read of the word; `Publishing`
   * has set WAITING and is about to park on the value it set; `Checking` has frozen the
   * word and is testing the chain; `Refused` found a test failing and still has to thaw;
   * `Waking` has swapped WAITING out and still has to wake.
   */
  datatype Pc =
    | Idle
    | Looking(value: u32)
    | Publishing(expected: u32)
    | Parked
    | Checking(requireEmpty: bool)
    | Refused
    | Captured
    | Waking

  /** A started owner operation: the preparation it runs under and the chain it found. */
  datatype Running = Running(token: nat, before: Shared, op: Operation)

  /**
   * live: the preparations not yet dropped, with the thread that took each;
   * running: the owner's operation in progress, if any.
   */
  datatype World = World(
    word: u32, live: map<nat, nat>, pcs: map<nat, Pc>, shared: Shared,
    running: Option<Running>, deferred: bool)

  function At(w: World, t: nat): Pc {
    if t in w.pcs then w.pcs[t] else Idle
  }

  function Goto(w: World, t: nat, pc: Pc): World {
    w.(pcs := w.pcs[t := pc])
  }

  predicate Freezing(pc: Pc) {
    pc.Checking? || pc.Refused? || pc.Captured?
  }

  datatype Action =
    | LoadWord                        // first or repeated load in prepare
    | Recheck                         // a failed or spuriously failed compare-and-swap
    | PublishWaiter                   // compare-and-swap value -> value | WAITING
    | Park                            // futex wait, compare and park
    | Unpark                          // spurious return from the wait
    | Acquire(token: nat)             // compare-and-swap value -> value + 1
    | Release(token: nat)             // Preparation dropped
    | Begin(token: nat, op: Operation)
    | Disturb(shared: Shared)         // any intermediate shape of a running operation
    | Finish
    | Freeze(requireEmpty: bool)      // compare-and-swap 0 -> FROZEN
    | Decide                          // the capture's tests; the chain stands still, so they are one step
    | Thaw                            // Capture dropped, by its owner or because a test failed
    | Wake
    | Defer(on: bool)

  predicate Enabled(w: World, t: nat, a: Action) {
    var pc := At(w, t);
    match a
    case LoadWord => pc.Idle?
    case Recheck => pc.Looking?
    case PublishWaiter => pc.Looking? && IsFrozen(pc.value) && pc.value == w.word
    case Park => pc.Publishing?
    case Unpark => pc.Parked?
    case Acquire(token) =>
      pc.Looking? && !IsFrozen(pc.value) && pc.value < WAITING - 1 && pc.value == w.word && token !in w.live
    case Release(token) =>
      token in w.live && w.live[token] == t && !(w.running.Some? && w.running.value.token == token)
    case Begin(token, op) =>
      token in w.live && w.live[token] == t && w.running.None? && CanApply(w.shared, op)
    case Disturb(_) => w.running.Some? && w.running.value.token in w.live && w.live[w.running.value.token] == t
    case Finish =>
      && w.running.Some? && w.running.value.token in w.live && w.live[w.running.value.token] == t
      && CanApply(w.running.value.before, w.running.value.op)
    case Freeze(_) => pc.Idle? && w.word == 0
    case Decide => pc.Checking?
    case Thaw => pc.Refused? || pc.Captured?
    case Wake => pc.Waking?
    case Defer(_) => true
  }

  /** The tests of a capture. */
  predicate Passes(w: World, requireEmpty: bool) {
    !(requireEmpty && w.shared.published != []) && !w.deferred && w.shared.blockers == 0
  }

  function WakeAll(pcs: map<nat, Pc>): map<nat, Pc> {
    map t | t in pcs :: if pcs[t].Parked? then Idle else pcs[t]
  }

  function Step(w: World, t: nat, a: Action): World
    requires Enabled(w, t, a)
  {
    match a
    case LoadWord => Goto(w, t, Looking(w.word))
    case Recheck => Goto(w, t, Looking(w.word))
    case PublishWaiter => Goto(w.(word := OrWaiting(w.word)), t, Publishing(OrWaiting(w.word)))
    case Park => Goto(w, t, if w.word == At(w, t).expected then Parked else Idle)
    case Unpark => Goto(w, t, Idle)
    case Acquire(token) => Goto(w.(word := w.word + 1, live := w.live[token := t]), t, Idle)
    case Release(token) => w.(word := (w.word - 1) % U32_SPAN, live := w.live - {token})
    case Begin(token, op) => w.(running := Some(Running(token, w.shared, op)))
    case Disturb(shared) => w.(shared := shared)
    case Finish => w.(shared := Apply(w.running.value.before, w.running.value.op), running := None)
    case Freeze(requireEmpty) => Goto(w.(word := FROZEN), t, Checking(requireEmpty))
    case Decide => Goto(w, t, if Passes(w, At(w, t).requireEmpty) then Captured else Refused)
    case Thaw => Goto(w.(word := 0), t, if IsWaiting(w.word) then Waking else Idle)
    case Wake => Goto(w.(pcs := WakeAll(w.pcs)), t, Idle)
    case Defer(on) => w.(deferred := on)
  }

  datatype Act = Act(thread: nat, action: Action)

  predicate Next(w: World, a: Act, w': World) {
    Enabled(w, a.thread, a.action) && w' == Step(w, a.thread, a.action)
  }

  predicate Initial(w: World) {
    w.word == 0 && w.live == map[] && w.pcs == map[] && w.shared == Shared([], 0) && w.running == None
  }

  predicate IsRun(ws: seq<World>, acts: seq<Act>) {
    && |ws| == |acts| + 1
    && Initial(ws[0])
    && forall i :: 0 <= i < |acts| ==> Next(ws[i], acts[i], ws[i + 1])
  }

  // ---------------------------------------------------------------- the invariant

  /** A frozen word, with or without a waiter; an unfrozen one is a count. */
  predicate Legal(word: u32) {
    word < WAITING || word == FROZEN || word == FROZEN + WAITING
  }

  predicate PcLegal(pc: Pc) {
    && (pc.Looking? ==> Legal(pc.value))
    && (pc.Publishing? ==> pc.expected == FROZEN + WAITING)
  }

  /** The word says exactly who is in: the number of preparations, or one freezer. */
  predicate WordInv(w: World) {
    && Legal(w.word)
    && (!IsFrozen(w.word) ==> w.word == |w.live|)
    && (IsFrozen(w.word) ==> w.live == map[])
    && (forall t :: t in w.pcs ==> PcLegal(w.pcs[t]))
    && (forall t :: t in w.pcs && Freezing(w.pcs[t]) ==> IsFrozen(w.word))
    && (forall t, u :: t in w.pcs && u in w.pcs && Freezing(w.pcs[t]) && Freezing(w.pcs[u]) ==> t == u)
    && (IsFrozen(w.word) ==> exists t :: t in w.pcs && Freezing(w.pcs[t]))
  }

  /** Nobody sleeps through a thaw: the thaw will see WAITING, or somebody is about to wake. */
  predicate ParkInv(w: World) {
    forall t :: t in w.pcs && w.pcs[t].Parked? ==>
      w.word == FROZEN + WAITING || exists u :: u in w.pcs && w.pcs[u].Waking?
  }

  /** The chain is settled except inside an operation, which holds a preparation. */
  predicate SharedInv(w: World) {
    && (w.running.None? ==> Settled(w.shared))
    && (w.running.Some? ==>
          var r := w.running.value;
          r.token in w.live && Settled(r.before) && CanApply(r.before, r.op))
    && (forall t :: t in w.pcs && w.pcs[t].Captured? ==> w.shared.blockers == 0)
  }

  predicate Inv(w: World) {
    WordInv(w) && ParkInv(w) && SharedInv(w)
  }

  // ---------------------------------------------------------------- preservation

  /** A step that only moves one thread, to a place that is neither freezing nor parked. */
  lemma MoveKeeps(w: World, t: nat, pc: Pc)
    requires Inv(w) && PcLegal(pc) && !Freezing(pc) && !pc.Parked? && !Freezing(At(w, t)) && !At(w, t).Waking?
    ensures Inv(Goto(w, t, pc))
  {
    var w' := Goto(w, t, pc);
    if IsFrozen(w.word) {
      var u :| u in w.pcs && Freezing(w.pcs[u]);
      assert u in w'.pcs && w'.pcs[u] == w.pcs[u];
    }
    forall u | u in w'.pcs && w'.pcs[u].Parked? && w.word != FROZEN + WAITING
      ensures exists x :: x in w'.pcs && w'.pcs[x].Waking?
    {
      assert u in w.pcs && w.pcs[u].Parked?;
      var x :| x in w.pcs && w.pcs[x].Waking?;
      assert x in w'.pcs && w'.pcs[x].Waking?;
    }
  }

  /** Setting WAITING in a frozen word. */
  lemma PublishKeeps(w: World, t: nat)
    requires Inv(w) && Enabled(w, t, PublishWaiter)
    ensures Inv(Step(w, t, PublishWaiter))
  {
    var w1 := w.(word := OrWaiting(w.word));
    assert w1.word == FROZEN + WAITING && IsFrozen(w1.word);
    assert WordInv(w1) by {
      var u :| u in w.pcs && Freezing(w.pcs[u]);
      assert u in w1.pcs && Freezing(w1.pcs[u]);
    }
    assert Inv(w1);
    MoveKeeps(w1, t, Publishing(OrWaiting(w.word)));
  }

  lemma ParkKeeps(w: World, t: nat)
    requires Inv(w) && Enabled(w, t, Park)
    ensures Inv(Step(w, t, Park))
  {
    if w.word == At(w, t).expected {
      var w' := Goto(w, t, Parked);
      assert IsWaiting(FROZEN + WAITING) && IsFrozen(w.word);
      var u :| u in w.pcs && Freezing(w.pcs[u]);
      assert u in w'.pcs && Freezing(w'.pcs[u]);
    } else {
      MoveKeeps(w, t, Idle);
    }
  }

  lemma AcquireKeeps(w: World, t: nat, token: nat)
    requires Inv(w) && Enabled(w, t, Acquire(token))
    ensures Inv(Step(w, t, Acquire(token)))
  {
    var w1 := w.(word := w.word + 1, live := w.live[token := t]);
    assert !IsFrozen(w.word) && !IsFrozen(w1.word);
    assert |w1.live| == |w.live| + 1;
    assert forall u :: u in w.pcs && w.pcs[u].Parked? ==> w.word != FROZEN + WAITING;
    assert Inv(w1);
    MoveKeeps(w1, t, Idle);
  }

  lemma ReleaseKeeps(w: World, t: nat, token: nat)
    requires Inv(w) && Enabled(w, t, Release(token))
    ensures Inv(Step(w, t, Release(token)))
  {
    var w' := Step(w, t, Release(token));
    assert w.live != map[];
    assert !IsFrozen(w.word);
    assert w'.live.Keys == w.live.Keys - {token};
    assert |w'.live| == |w.live| - 1 by {
      assert |w.live.Keys| == |w.live| && |w'.live.Keys| == |w'.live|;
    }
    assert w'.word == w.word - 1 && !IsFrozen(w'.word);
  }

  lemma OperationKeeps(w: World, t: nat, a: Action)
    requires Inv(w) && (a.Begin? || a.Disturb? || a.Finish?) && Enabled(w, t, a)
    ensures Inv(Step(w, t, a))
  {
    var w' := Step(w, t, a);
    assert w.live != map[];
    assert !IsFrozen(w.word);
    if a.Finish? {
      ApplySettles(w.running.value.before, w.running.value.op);
    }
    assert forall u :: u in w'.pcs ==> !w'.pcs[u].Captured?;
  }

  lemma FreezeKeeps(w: World, t: nat, requireEmpty: bool)
    requires Inv(w) && Enabled(w, t, Freeze(requireEmpty))
    ensures Inv(Step(w, t, Freeze(requireEmpty)))
  {
    var w' := Step(w, t, Freeze(requireEmpty));
    assert !IsFrozen(w.word) && |w.live| == 0;
    assert w.live == map[] by { assert w.live.Keys == {}; }
    assert t in w'.pcs && Freezing(w'.pcs[t]);
    WakersStay(w, w', t);
  }

  /** Moving a thread that was not waking, with the word no longer F|W, keeps the wakers. */
  lemma WakersStay(w: World, w': World, t: nat)
    requires ParkInv(w) && w.word != FROZEN + WAITING && !At(w, t).Waking?
    requires t in w'.pcs && !w'.pcs[t].Parked? && w'.pcs == w.pcs[t := w'.pcs[t]]
    ensures ParkInv(w')
  {
    forall u | u in w'.pcs && w'.pcs[u].Parked? ensures exists x :: x in w'.pcs && w'.pcs[x].Waking? {
      assert u in w.pcs && w.pcs[u].Parked?;
      var x :| x in w.pcs && w.pcs[x].Waking?;
      assert x in w'.pcs && w'.pcs[x].Waking?;
    }
  }

  lemma DecideKeeps(w: World, t: nat)
    requires Inv(w) && Enabled(w, t, Decide)
    ensures Inv(Step(w, t, Decide))
  {
    var w' := Step(w, t, Decide);
    assert t in w'.pcs && Freezing(w'.pcs[t]) && t in w.pcs && Freezing(w.pcs[t]);
    forall u | u in w'.pcs && w'.pcs[u].Parked? && w.word != FROZEN + WAITING
      ensures exists x :: x in w'.pcs && w'.pcs[x].Waking?
    {
      var x :| x in w.pcs && w.pcs[x].Waking?;
      assert x in w'.pcs && w'.pcs[x].Waking?;
    }
  }

  lemma ThawKeeps(w: World, t: nat)
    requires Inv(w) && Enabled(w, t, Thaw)
    ensures Inv(Step(w, t, Thaw))
  {
    var w' := Step(w, t, Thaw);
    assert t in w.pcs && IsFrozen(w.word);
    assert IsWaiting(w.word) <==> w.word == FROZEN + WAITING;
    if w.word == FROZEN + WAITING {
      assert t in w'.pcs && w'.pcs[t].Waking?;
    } else {
      WakersStay(w, w', t);
    }
  }

  lemma WakeKeeps(w: World, t: nat)
    requires Inv(w) && Enabled(w, t, Wake)
    ensures Inv(Step(w, t, Wake))
    ensures forall u :: !At(Step(w, t, Wake), u).Parked?
  {
    var w' := Step(w, t, Wake);
    if IsFrozen(w.word) {
      var u :| u in w.pcs && Freezing(w.pcs[u]);
      assert u in w'.pcs && Freezing(w'.pcs[u]);
    }
  }

  lemma StepKeeps(w: World, a: Act, w': World)
    requires Inv(w) && Next(w, a, w')
    ensures Inv(w')
  {
    var t := a.thread;
    match a.action
    case LoadWord => MoveKeeps(w, t, Looking(w.word));
    case Recheck => MoveKeeps(w, t, Looking(w.word));
    case PublishWaiter => PublishKeeps(w, t);
    case Park => ParkKeeps(w, t);
    case Unpark => MoveKeeps(w, t, Idle);
    case Acquire(token) => AcquireKeeps(w, t, token);
    case Release(token) => ReleaseKeeps(w, t, token);
    case Begin(_, _) => OperationKeeps(w, t, a.action);
    case Disturb(_) => OperationKeeps(w, t, a.action);
    case Finish => OperationKeeps(w, t, a.action);
    case Freeze(requireEmpty) => FreezeKeeps(w, t, requireEmpty);
    case Decide => DecideKeeps(w, t);
    case Thaw => ThawKeeps(w, t);
    case Wake => WakeKeeps(w, t);
    case Defer(_) =>
  }

  lemma {:induction false} RunKeeps(ws: seq<World>, acts: seq<Act>, i: nat)
    requires IsRun(ws, acts) && i < |ws|
    ensures Inv(ws[i])
  {
    if i > 0 {
      RunKeeps(ws, acts, i - 1);
      assert Next(ws[i - 1], acts[i - 1], ws[i]);
      StepKeeps(ws[i - 1], acts[i - 1], ws[i]);
    }
  }

  // ---------------------------------------------------------------- the theorems

  /** The word always equals the live counts and bits. */
  lemma WordIsExact(ws: seq<World>, acts: seq<Act>, i: nat)
    requires IsRun(ws, acts) && i < |ws|
    ensures var w := ws[i];
      && (!IsFrozen(w.word) ==> w.word == |w.live| < WAITING)
      && (IsFrozen(w.word) ==> w.live == map[] && (w.word == FROZEN || w.word == FROZEN + WAITING))
      && (IsFrozen(w.word) <==> exists t :: Freezing(At(w, t)))
  {
    RunKeeps(ws, acts, i);
    var w := ws[i];
    if IsFrozen(w.word) {
      var t :| t in w.pcs && Freezing(w.pcs[t]);
      assert Freezing(At(w, t));
    }
  }

  /** A live capture excludes every preparation and every other capture. */
  lemma CaptureExcludes(ws: seq<World>, acts: seq<Act>, i: nat, t: nat)
    requires IsRun(ws, acts) && i < |ws| && Freezing(At(ws[i], t))
    ensures ws[i].live == map[] && ws[i].running == None
    ensures forall u :: Freezing(At(ws[i], u)) ==> u == t
  {
    RunKeeps(ws, acts, i);
  }

  /** While a capture is held no step of any thread changes the chain. */
  lemma CaptureHoldsStill(ws: seq<World>, acts: seq<Act>, i: nat, t: nat)
    requires IsRun(ws, acts) && i < |acts| && Freezing(At(ws[i], t))
    ensures ws[i + 1].shared == ws[i].shared
  {
    CaptureExcludes(ws, acts, i, t);
    assert Next(ws[i], acts[i], ws[i + 1]);
  }

  /** A successful capture sees a settled chain in which every published scope is opaque. */
  lemma CapturedIsOpaque(ws: seq<World>, acts: seq<Act>, i: nat, t: nat)
    requires IsRun(ws, acts) && i < |ws| && At(ws[i], t).Captured?
    ensures Settled(ws[i].shared)
    ensures forall j :: 0 <= j < |ws[i].shared.published| ==> ws[i].shared.published[j].forkOpaque
  {
    RunKeeps(ws, acts, i);
    CaptureExcludes(ws, acts, i, t);
    NoBlockers(ws[i].shared.published);
  }

  /**
   * In every run a capture that is testing the chain leaves that place only by deciding, and
   * then succeeds if and only if no callback is deferred, every published scope is fork-opaque
   * and, when emptiness was asked for, none is published; otherwise it is refused.
   */
  lemma DecidedExactly(ws: seq<World>, acts: seq<Act>, i: nat, t: nat)
    requires IsRun(ws, acts) && i < |acts| && At(ws[i], t).Checking?
    ensures At(ws[i + 1], t) != At(ws[i], t) <==> acts[i] == Act(t, Decide)
    ensures acts[i] == Act(t, Decide) ==>
      var p := ws[i].shared.published;
      if && !ws[i].deferred && (forall j :: 0 <= j < |p| ==> p[j].forkOpaque)
         && (At(ws[i], t).requireEmpty ==> p == [])
      then At(ws[i + 1], t).Captured? else At(ws[i + 1], t).Refused?
  {
    assert Next(ws[i], acts[i], ws[i + 1]);
    RunKeeps(ws, acts, i);
    CaptureExcludes(ws, acts, i, t);
    NoBlockers(ws[i].shared.published);
  }

  /** In every run a decided capture leaves that place only by thawing, and then the word is zero. */
  lemma DecidedThaws(ws: seq<World>, acts: seq<Act>, i: nat, t: nat)
    requires IsRun(ws, acts) && i < |acts| && (At(ws[i], t).Refused? || At(ws[i], t).Captured?)
    ensures At(ws[i + 1], t) != At(ws[i], t) <==> acts[i] == Act(t, Thaw)
    ensures acts[i] == Act(t, Thaw) ==> ws[i + 1].word == 0 && (At(ws[i + 1], t).Waking? <==> IsWaiting(ws[i].word))
  {
    assert Next(ws[i], acts[i], ws[i + 1]);
  }

  /** A parked thread cannot miss the thaw, and every wake leaves nobody parked. */
  lemma NobodyMissesTheThaw(ws: seq<World>, acts: seq<Act>, i: nat, t: nat)
    requires IsRun(ws, acts) && i < |ws| && At(ws[i], t).Parked?
    ensures (IsFrozen(ws[i].word) && IsWaiting(ws[i].word)) || exists u :: At(ws[i], u).Waking?
    ensures i < |acts| && acts[i].action.Wake? ==> At(ws[i + 1], t).Idle?
  {
    RunKeeps(ws, acts, i);
    var w := ws[i];
    if w.word != FROZEN + WAITING {
      var u :| u in w.pcs && w.pcs[u].Waking?;
      assert At(w, u).Waking?;
    }
    if i < |acts| { assert Next(ws[i], acts[i], ws[i + 1]); }
  }

  // ---------------------------------------------------------------- operations are serial

  /** The operations finished in the first k steps, in order. */
  function FinishedOps(ws: seq<World>, acts: seq<Act>, k: nat): seq<Operation>
    requires k <= |acts| && k <= |ws|
  {
    if k == 0 then []
    else if acts[k - 1].action.Finish? && ws[k - 1].running.Some?
    then FinishedOps(ws, acts, k - 1) + [ws[k - 1].running.value.op]
    else FinishedOps(ws, acts, k - 1)
  }

  /** What operations applied one after the other make of the empty chain, if each can be applied. */
  function Replay(ops: seq<Operation>): Option<Shared> {
    if ops == [] then Some(Shared([], 0))
    else
      var before, last := Replay(ops[..|ops| - 1]), ops[|ops| - 1];
      if before.Some? && CanApply(before.value, last) then Some(Apply(before.value, last)) else None
  }

  /** The chain between operations. */
  function Between(w: World): Shared {
    if w.running.Some? then w.running.value.before else w.shared
  }

  /** A step that finishes an operation applies it to the chain between operations; any other keeps that. */
  predicate MovesBetween(w: World, a: Act, w': World) {
    if a.action.Finish? then
      && w.running.Some? && CanApply(Between(w), w.running.value.op)
      && Between(w') == Apply(Between(w), w.running.value.op)
    else Between(w') == Between(w)
  }

  lemma StepBetween(w: World, a: Act, w': World)
    requires Inv(w) && Next(w, a, w')
    ensures MovesBetween(w, a, w')
  {
  }

  lemma RunBetween(ws: seq<World>, acts: seq<Act>, k: nat)
    requires IsRun(ws, acts) && k < |acts|
    ensures MovesBetween(ws[k], acts[k], ws[k + 1])
  {
    RunKeeps(ws, acts, k);
    StepBetween(ws[k], acts[k], ws[k + 1]);
  }

  lemma ReplayMore(ops: seq<Operation>, op: Operation, s: Shared)
    requires Replay(ops) == Some(s) && CanApply(s, op)
    ensures Replay(ops + [op]) == Some(Apply(s, op))
  {
    assert (ops + [op])[..|ops|] == ops;
  }

  lemma {:induction false} ReplayedBetween(ws: seq<World>, acts: seq<Act>, k: nat)
    requires |ws| == |acts| + 1 && k < |ws| && Between(ws[0]) == Shared([], 0)
    requires forall i :: 0 <= i < k ==> MovesBetween(ws[i], acts[i], ws[i + 1])
    ensures Replay(FinishedOps(ws, acts, k)) == Some(Between(ws[k]))
    decreases k
  {
    if k > 0 {
      ReplayedBetween(ws, acts, k - 1);
      assert MovesBetween(ws[k - 1], acts[k - 1], ws[k - 1 + 1]);
      if acts[k - 1].action.Finish? {
        ReplayMore(FinishedOps(ws, acts, k - 1), ws[k - 1].running.value.op, Between(ws[k - 1]));
      }
    }
  }

  /**
   * In every world of every run the chain between operations is what the finished operations
   * make of it one after the other, whatever shapes the threads saw in between.
   */
  lemma OperationsAreSerial(ws: seq<World>, acts: seq<Act>, k: nat)
    requires IsRun(ws, acts) && k < |ws|
    ensures Replay(FinishedOps(ws, acts, k)) == Some(Between(ws[k]))
  {
    forall i | 0 <= i < k ensures MovesBetween(ws[i], acts[i], ws[i + 1]) { RunBetween(ws, acts, i); }
    ReplayedBetween(ws, acts, k);
  }

  // ---------------------------------------------------------------- who does what

  /** The thread that holds a preparation, read from the actions alone: the last to take it, unless it was dropped since. */
  function Taker(acts: seq<Act>, token: nat, k: nat): Option<nat>
    requires k <= |acts|
  {
    if k == 0 then None
    else
      match acts[k - 1].action
      case Acquire(n) => if n == token then Some(acts[k - 1].thread) else Taker(acts, token, k - 1)
      case Release(n) => if n == token then None else Taker(acts, token, k - 1)
      case _ => Taker(acts, token, k - 1)
  }

  /** The thread whose operation is in progress, read from the actions alone. */
  function Operator(acts: seq<Act>, k: nat): Option<nat>
    requires k <= |acts|
  {
    if k == 0 then None
    else
      match acts[k - 1].action
      case Begin(_, _) => Some(acts[k - 1].thread)
      case Finish => None
      case _ => Operator(acts, k - 1)
  }

  function Holder(w: World, token: nat): Option<nat> {
    if token in w.live then Some(w.live[token]) else None
  }

  function Runner(w: World): Option<nat> {
    if w.running.Some? then Holder(w, w.running.value.token) else None
  }

  predicate HolderMoves(w: World, a: Act, w': World, token: nat) {
    Holder(w', token) == match a.action
      case Acquire(n) => if n == token then Some(a.thread) else Holder(w, token)
      case Release(n) => if n == token then None else Holder(w, token)
      case _ => Holder(w, token)
  }

  predicate RunnerMoves(w: World, a: Act, w': World) {
    Runner(w') == match a.action
      case Begin(_, _) => Some(a.thread)
      case Finish => None
      case _ => Runner(w)
  }

  lemma StepHolds(w: World, a: Act, w': World, token: nat)
    requires Next(w, a, w')
    ensures HolderMoves(w, a, w', token)
  {
  }

  lemma StepRuns(w: World, a: Act, w': World)
    requires Inv(w) && Next(w, a, w')
    ensures RunnerMoves(w, a, w')
  {
    if w.running.Some? { StepHolds(w, a, w', w.running.value.token); }
  }

  lemma {:induction false} HolderIsTaker(ws: seq<World>, acts: seq<Act>, token: nat, k: nat)
    requires IsRun(ws, acts) && k < |ws|
    ensures Holder(ws[k], token) == Taker(acts, token, k)
    decreases k
  {
    if k > 0 {
      HolderIsTaker(ws, acts, token, k - 1);
      StepHolds(ws[k - 1], acts[k - 1], ws[k - 1 + 1], token);
    }
  }

  lemma RunRuns(ws: seq<World>, acts: seq<Act>, k: nat)
    requires IsRun(ws, acts) && k < |acts|
    ensures RunnerMoves(ws[k], acts[k], ws[k + 1])
  {
    RunKeeps(ws, acts, k);
    StepRuns(ws[k], acts[k], ws[k + 1]);
  }

  lemma {:induction false} RunnerIsOperator(ws: seq<World>, acts: seq<Act>, k: nat)
    requires IsRun(ws, acts) && k < |ws|
    ensures Runner(ws[k]) == Operator(acts, k)
    decreases k
  {
    if k > 0 {
      RunnerIsOperator(ws, acts, k - 1);
      RunRuns(ws, acts, k - 1);
    }
  }

  /** The action at k is done by the thread whose preparation or operation it concerns. */
  predicate ByOwner(acts: seq<Act>, k: nat)
    requires k < |acts|
  {
    var t, a := acts[k].thread, acts[k].action;
    && (a.Release? || a.Begin? ==> Taker(acts, a.token, k) == Some(t))
    && (a.Begin? ==> Operator(acts, k) == None)
    && (a.Disturb? || a.Finish? ==> Operator(acts, k) == Some(t))
  }

  /**
   * In every run a preparation is dropped, and an operation begun under it, only by the thread
   * that took it, and an operation is carried on and finished only by the thread that began it.
   */
  lemma ByTheirOwners(ws: seq<World>, acts: seq<Act>, k: nat)
    requires IsRun(ws, acts) && k < |acts|
    ensures ByOwner(acts, k)
  {
    var a := acts[k].action;
    assert Next(ws[k], acts[k], ws[k + 1]);
    if a.Release? || a.Begin? { HolderIsTaker(ws, acts, a.token, k); }
    RunnerIsOperator(ws, acts, k);
  }
}
