/**
 * The intrusive stack of resource scopes, changed in place while its owner holds a
 * preparation. FreezeWord shows that nobody else can look at it meanwhile.
 */
module ScopeChain {
  import opened Machine

  /** What a freezer can see of a published scope. */
  datatype Published = Published(context: u64, forkOpaque: bool)

  /** How many published scopes still block a fork. */
  function Blocking(p: seq<Published>): nat {
    if p == [] then 0
    else Blocking(p[..|p| - 1]) + (if p[|p| - 1].forkOpaque then 0 else 1)
  }

  /** Contexts never decrease from the bottom of the stack to its top. */
  predicate Nested(p: seq<Published>) {
    |p| < 2 || (p[|p| - 2].context <= p[|p| - 1].context && Nested(p[..|p| - 1]))
  }

  lemma {:induction false} NestedOrder(p: seq<Published>, i: nat, j: nat)
    requires Nested(p) && i <= j < |p|
    ensures p[i].context <= p[j].context
    decreases |p|
  {
    if i < j {
      if j < |p| - 1 {
        NestedOrder(p[..|p| - 1], i, j);
      } else {
        NestedOrder(p[..|p| - 1], i, j - 1);
      }
    }
  }

  lemma {:induction false} NestedPrefix(p: seq<Published>, n: nat)
    requires Nested(p) && n <= |p|
    ensures Nested(p[..n])
  {
    if n < |p| {
      if |p| >= 2 { NestedPrefix(p[..|p| - 1], n); }
      assert p[..|p| - 1][..n] == p[..n];
    } else {
      assert p[..n] == p;
    }
  }

  /** Marking one scope opaque leaves the nesting alone. */
  lemma {:induction false} NestedUpdate(p: seq<Published>, i: nat)
    requires Nested(p) && i < |p|
    ensures Nested(p[i := p[i].(forkOpaque := true)])
  {
    var q := p[i := p[i].(forkOpaque := true)];
    if |p| >= 2 {
      if i < |p| - 1 {
        NestedUpdate(p[..|p| - 1], i);
        assert q[..|p| - 1] == p[..|p| - 1][i := p[i].(forkOpaque := true)];
      } else {
        assert q[..|p| - 1] == p[..|p| - 1];
      }
    }
  }

  lemma {:induction false} NoBlockers(p: seq<Published>)
    ensures Blocking(p) == 0 <==> forall i :: 0 <= i < |p| ==> p[i].forkOpaque
  {
    if p != [] {
      NoBlockers(p[..|p| - 1]);
      assert forall i :: 0 <= i < |p| - 1 ==> p[..|p| - 1][i] == p[i];
    }
  }

  lemma {:induction false} Push(p: seq<Published>, x: Published)
    requires Nested(p) && (p != [] ==> p[|p| - 1].context <= x.context)
    ensures Nested(p + [x])
    ensures Blocking(p + [x]) == Blocking(p) + (if x.forkOpaque then 0 else 1)
  {
    var q := p + [x];
    assert q[..|q| - 1] == p && q[|q| - 1] == x;
    assert p != [] ==> q[|q| - 2] == p[|p| - 1];
  }

  lemma {:induction false} BlockingUpdate(p: seq<Published>, i: nat)
    requires i < |p| && !p[i].forkOpaque
    ensures Blocking(p[i := p[i].(forkOpaque := true)]) == Blocking(p) - 1
  {
    var q := p[i := p[i].(forkOpaque := true)];
    if i < |p| - 1 {
      BlockingUpdate(p[..|p| - 1], i);
      assert q[..|p| - 1] == p[..|p| - 1][i := p[i].(forkOpaque := true)];
    } else {
      assert q[..|p| - 1] == p[..|p| - 1];
    }
  }

  // ---------------------------------------------------------------- operations on values

  /** What the chain shares: the published scopes, bottom first, and the blocker count. */
  datatype Shared = Shared(published: seq<Published>, blockers: nat)

  /** Every completed operation leaves the counter exact and the contexts nested. */
  predicate Settled(d: Shared) {
    d.blockers == Blocking(d.published) && Nested(d.published)
  }

  /** The owner's operations on the chain, each run while holding a preparation. */
  datatype Operation =
    | Publish(context: u64)
    | MarkOpaque(index: nat)
    | RetireTop
    | Abandon(context: u64)

  /** What the source asserts before the operation. */
  predicate CanApply(d: Shared, op: Operation) {
    match op
    case Publish(context) => d.published != [] ==> d.published[|d.published| - 1].context <= context
    case MarkOpaque(i) => i < |d.published| && !d.published[i].forkOpaque
    case RetireTop => d.published != []
    case Abandon(_) => true
  }

  function WithoutTop(d: Shared): Shared
    requires d.published != []
  {
    var n := |d.published| - 1;
    Shared(d.published[..n],
           if d.published[n].forkOpaque || d.blockers == 0 then d.blockers else d.blockers - 1)
  }

  function Abandoned(d: Shared, context: u64): Shared
    decreases |d.published|
  {
    if d.published == [] || d.published[|d.published| - 1].context < context then d
    else Abandoned(WithoutTop(d), context)
  }

  function Apply(d: Shared, op: Operation): Shared
    requires CanApply(d, op)
  {
    var p := d.published;
    match op
    case Publish(context) => Shared(p + [Published(context, false)], d.blockers + 1)
    case MarkOpaque(i) => Shared(p[i := p[i].(forkOpaque := true)], if d.blockers > 0 then d.blockers - 1 else 0)
    case RetireTop => WithoutTop(d)
    case Abandon(context) => Abandoned(d, context)
  }

  /** An abandonment keeps exactly the scopes of contexts below the given one. */
  lemma {:induction false} AbandonedKeepsOuter(d: Shared, context: u64)
    requires Settled(d)
    ensures var p := Abandoned(d, context).published;
      && Settled(Abandoned(d, context))
      && p <= d.published
      && (forall i :: 0 <= i < |p| ==> d.published[i].context < context)
      && (forall i :: |p| <= i < |d.published| ==> d.published[i].context >= context)
    decreases |d.published|
  {
    var n := |d.published| - 1;
    if d.published != [] {
      if d.published[n].context >= context {
        NestedPrefix(d.published, n);
        AbandonedKeepsOuter(WithoutTop(d), context);
      } else {
        forall i | 0 <= i < |d.published| ensures d.published[i].context < context {
          NestedOrder(d.published, i, n);
        }
      }
    }
  }

  /** What every operation keeps. */
  lemma ApplySettles(d: Shared, op: Operation)
    requires Settled(d) && CanApply(d, op)
    ensures Settled(Apply(d, op))
  {
    var p := d.published;
    match op
    case Publish(context) => Push(p, Published(context, false));
    case MarkOpaque(i) =>
      BlockingUpdate(p, i);
      NestedUpdate(p, i);
    case RetireTop => NestedPrefix(p, |p| - 1);
    case Abandon(context) => AbandonedKeepsOuter(d, context);
  }

  // ---------------------------------------------------------------- the linked objects

  class Scope {
    const context: u64
    var previous: Scope?
    var active: bool
    var resource: bool
    var forkOpaque: bool
    ghost var drops: nat
    ghost var depth: nat

    /** A constructed scope owns its resource and is not yet linked. */
    constructor (context: u64)
      ensures this.context == context && !active && resource && !forkOpaque && drops == 0
    {
      this.context := context;
      previous, active, resource, forkOpaque, drops, depth := null, false, true, false, 0, 0;
    }

    /** Dropping the resource; a second drop would be counted. */
    method DropResource()
      modifies this`resource, this`drops
      ensures !resource && drops == old(drops) + (if old(resource) then 1 else 0)
    {
      if resource {
        resource, drops := false, drops + 1;
      }
    }
  }

  class Chain {
    var head: Scope?
    var blockers: nat
    ghost var links: seq<Scope>
    ghost var view: seq<Published>

    /** The scope at position i is live and points at the one below. */
    ghost predicate At(i: nat)
      requires i < |links| == |view|
      reads this, links
    {
      var s := links[i];
      && s.active && s.resource && s.depth == i
      && s.previous == (if i == 0 then null else links[i - 1])
      && view[i] == Published(s.context, s.forkOpaque)
    }

    /** head and the previous pointers spell `links`. */
    ghost predicate Linked()
      reads this, links
    {
      && |view| == |links|
      && head == (if links == [] then null else links[|links| - 1])
      && forall i: nat :: i < |links| ==> At(i)
    }

    ghost function Snapshot(): Shared
      reads this
    {
      Shared(view, blockers)
    }

    ghost predicate Valid()
      reads this, links
    {
      Linked() && Settled(Snapshot())
    }

    constructor ()
      ensures Valid() && links == []
    {
      head, blockers, links, view := null, 0, [], [];
    }

    method Activate(s: Scope)
      requires Valid() && !s.active && s.resource && !s.forkOpaque
      requires head != null ==> head.context <= s.context
      modifies this, s`previous, s`active, s`depth
      ensures Valid() && links == old(links) + [s]
      ensures CanApply(old(Snapshot()), Publish(s.context))
      ensures Snapshot() == Apply(old(Snapshot()), Publish(s.context))
    {
      assert links != [] ==> At(|links| - 1);
      Push(view, Published(s.context, false));
      s.previous := head;
      s.active := true;
      blockers := blockers + 1;
      head := s;
      s.depth := |links|;
      links, view := links + [s], view + [Published(s.context, false)];
      forall i: nat | i < |links| ensures At(i) {
        assert i < |old(links)| ==> old(At(i));
      }
    }

    method AllowForkOpaque(s: Scope, ghost i: nat)
      requires Valid() && i < |links| && links[i] == s && !s.forkOpaque
      modifies this`blockers, this`view, s`forkOpaque
      ensures Valid() && s.forkOpaque
      ensures links == old(links) && CanApply(old(Snapshot()), MarkOpaque(i))
      ensures Snapshot() == Apply(old(Snapshot()), MarkOpaque(i))
    {
      assert At(i);
      BlockingUpdate(view, i);
      NestedUpdate(view, i);
      s.forkOpaque := true;
      blockers := blockers - 1;
      view := view[i := Published(s.context, true)];
      forall j: nat | j < |links| ensures At(j) {
        assert old(At(j)) && old(At(i));
      }
    }

    /** Unlinks the top scope, when s is linked, and drops its resource. */
    method Retire(s: Scope)
      requires Valid() && (s.active ==> head == s) && (!s.active ==> s !in links)
      modifies this, s`active, s`resource, s`drops
      ensures Valid() && !s.active && !s.resource
      ensures s.drops == old(s.drops) + (if old(s.resource) then 1 else 0)
      ensures old(s.active) ==> links == old(links)[..|old(links)| - 1] && s == old(links)[|links|]
      ensures !old(s.active) ==> links == old(links)
      ensures old(s.active) ==> CanApply(old(Snapshot()), RetireTop) && Snapshot() == WithoutTop(old(Snapshot()))
      ensures !old(s.active) ==> Snapshot() == old(Snapshot())
    {
      assert links != [] ==> At(|links| - 1);
      assert |links| >= 2 ==> At(|links| - 2);
      if s.active {
        head := s.previous;
        s.active := false;
        if !s.forkOpaque {
          blockers := blockers - 1;
        }
        links, view := links[..|links| - 1], view[..|links| - 1];
      }
      s.DropResource();
      forall i: nat | i < |links| ensures At(i) {
        assert old(At(i)) && (old(s.active) ==> old(At(|links| - 1)));
      }
    }

    /** Retires every scope of `context` or a nested one, top first. */
    method AbandonFrom(context: u64)
      requires Valid()
      modifies this, links
      ensures Valid() && |links| <= |old(links)| && links == old(links)[..|links|]
      ensures Snapshot() == Abandoned(old(Snapshot()), context)
      ensures forall i :: |links| <= i < |old(links)| ==> DroppedOnce(old(links)[i], old(links[i].drops))
      ensures forall i :: 0 <= i < |links| ==> links[i].drops == old(links[i].drops)
    {
      while head != null && head.context >= context
        invariant Valid() && |links| <= |old(links)|
        invariant links == old(links)[..|links|]
        invariant Abandoned(Snapshot(), context) == Abandoned(old(Snapshot()), context)
        invariant forall i :: |links| <= i < |old(links)| ==> DroppedOnce(old(links)[i], old(links[i].drops))
        invariant forall i :: 0 <= i < |links| ==> links[i].drops == old(links[i].drops)
        decreases |links|
      {
        assert At(|links| - 1);
        forall i: nat | i < |links| - 1 ensures links[i] != head {
          assert At(i);
        }
        Retire(head);
      }
      assert links != [] ==> At(|links| - 1);
    }

    /** Child-only detachment: forgets every link and runs no destructor. */
    method DiscardForkOpaque(deferred: bool, word: u32) returns (ok: bool)
      requires Valid()
      modifies this
      ensures Valid() && (ok <==> old(blockers) == 0 && !deferred && word == 0)
      ensures if ok then links == [] else links == old(links) && view == old(view)
      ensures ok ==> forall i :: 0 <= i < |old(view)| ==> old(view)[i].forkOpaque
    {
      NoBlockers(view);
      if blockers != 0 || deferred || word != 0 {
        return false;
      }
      head, links, view := null, [], [];
      return true;
    }
  }

  /** Unlinked, and its resource released exactly once since it had `drops` releases. */
  ghost predicate DroppedOnce(s: Scope, drops: nat)
    reads s
  {
    !s.active && !s.resource && s.drops == drops + 1
  }
}
