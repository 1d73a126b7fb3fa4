/**
 * Exactly when the version a read-only load shows is a floor for every later load: when no
 * writer session is open, or the version was acknowledged.
 */
module ShownFloor {
  import opened Machine
  import opened StateCodec
  import opened StorageSpec
  import opened NoRollback

  // ---------------------------------------------------------------- what the files answer

  /** What a load without read faults finds for a kind. */
  function Answer(c: Codec, v: Validator, files: Files, k: Kind): Option<Candidate> {
    var r := LoadKind(v, files, k, Recorded(c, files), {});
    if r.Ok? then r.value else None
  }

  predicate AnswersAtLeast(c: Codec, v: Validator, files: Files, k: Kind, x: u64) {
    Answer(c, v, files, k).Some? && Answer(c, v, files, k).value.v.version >= x
  }

  /** Faults make a read fail; they never change what it finds. */
  lemma ReadsAgree(v: Validator, files: Files, k: Kind, stored: Option<DatabaseState>, failing: set<Path>)
    ensures LoadKind(v, files, k, stored, {}).Ok?
    ensures LoadKind(v, files, k, stored, failing).Ok? ==>
      LoadKind(v, files, k, stored, failing) == LoadKind(v, files, k, stored, {})
  {
  }

  /** A successful load gives, for each kind, the bytes and the version of the answer. */
  lemma LoadGivesAnswer(c: Codec, v: Validator, files: Files, repair: bool, faults: LoadFaults, k: Kind)
    requires Load(c, v, files, repair, faults).1.Ok?
    ensures var l, r := Load(c, v, files, repair, faults).1.value, Answer(c, v, files, k);
      && LoadedBytes(l, k) == CandidateBytes(r)
      && (r.Some? ==> v(k, r.value.bytes) == Some(r.value.v) && Adopts(l.state, k, r.value))
      && (r.None? ==> Meta(l.state, k) == EMPTY && ActiveSlot(l.state, k) == A)
  {
    var stored := Recorded(c, files);
    assert stored == StoredState(c, ReadFile(files, StatePath, faults.failing).value);
    ReadsAgree(v, files, Trust, stored, faults.failing);
    ReadsAgree(v, files, Revocations, stored, faults.failing);
    var trust, revocations := Answer(c, v, files, Trust), Answer(c, v, files, Revocations);
    LoadedStateMeta(stored, trust, revocations);
    LoadKindContent(v, files, k, stored, {});
    RepairGives(c, files, stored, trust, revocations, repair, faults.stateWrite, k);
  }

  lemma RepairGives(c: Codec, files: Files, stored: Option<DatabaseState>, trust: Option<Candidate>,
                    revocations: Option<Candidate>, repair: bool, o: WriteOutcome, k: Kind)
    requires Repair(c, files, stored, trust, revocations, repair, o).1.Ok?
    ensures var l, s := Repair(c, files, stored, trust, revocations, repair, o).1.value,
                        LoadedState(stored, trust, revocations);
      && LoadedBytes(l, k) == CandidateBytes(if k == Trust then trust else revocations)
      && Meta(l.state, k) == Meta(s, k) && ActiveSlot(l.state, k) == ActiveSlot(s, k)
      && ((if k == Trust then trust else revocations).None? ==> Meta(s, k) == EMPTY && ActiveSlot(s, k) == A)
  {
  }

  /** No answer means that neither slot is valid. */
  lemma NoAnswer(c: Codec, v: Validator, files: Files, k: Kind)
    requires Answer(c, v, files, k).None?
    ensures Content(v, files, k, A).None? && Content(v, files, k, B).None?
  {
    ReadsAgree(v, files, k, Recorded(c, files), {});
  }

  // ---------------------------------------------------------------- while no session is open

  /** The answer survives a record that adopts it, and a lost record gives one at least as new. */
  lemma RecordChanges(v: Validator, files: Files, k: Kind, stored: Option<DatabaseState>, s: DatabaseState, r: Candidate)
    requires LoadKind(v, files, k, stored, {}) == Ok(Some(r))
    ensures Adopts(s, k, r) ==> LoadKind(v, files, k, Some(s), {}) == Ok(Some(r))
    ensures var lost := LoadKind(v, files, k, None, {});
      lost.Ok? && lost.value.Some? && lost.value.value.v.version >= r.v.version
  {
  }

  lemma SameSlotsSameReads(v: Validator, f: Files, g: Files, k: Kind, stored: Option<DatabaseState>)
    requires SameSlots(f, g)
    ensures LoadKind(v, f, k, stored, {}) == LoadKind(v, g, k, stored, {})
  {
    forall slot ensures LoadCandidate(v, f, k, slot, {}) == LoadCandidate(v, g, k, slot, {}) {
      assert SlotPath(k, slot) in f <==> SlotPath(k, slot) in g;
    }
  }

  lemma RewrittenRecord(c: Codec, v: Validator, f: Files, g: Files, k: Kind, x: u64, s: DatabaseState)
    requires SameSlots(f, g) && Recorded(c, g) in {Recorded(c, f), Some(s), None}
    requires AnswersAtLeast(c, v, f, k, x) && Adopts(s, k, Answer(c, v, f, k).value)
    ensures AnswersAtLeast(c, v, g, k, x)
  {
    ReadsAgree(v, f, k, Recorded(c, f), {});
    RecordChanges(v, f, k, Recorded(c, f), s, Answer(c, v, f, k).value);
    SameSlotsSameReads(v, f, g, k, Recorded(c, g));
  }

  /** A load call, whatever it meets, leaves an answer at least as new. */
  lemma LoadCallAnswers(c: Codec, v: Validator, w: World, faults: LoadFaults, k: Kind, x: u64)
    requires RoundTrips(c) && StateWriteFault(c, faults.stateWrite) && AnswersAtLeast(c, v, w.files, k, x)
    ensures AnswersAtLeast(c, v, Load(c, v, w.files, true, faults).0, k, x)
  {
    var read := ReadFile(w.files, StatePath, faults.failing);
    if read.Ok? {
      var stored := StoredState(c, read.value);
      assert stored == Recorded(c, w.files);
      var trust := LoadKind(v, w.files, Trust, stored, faults.failing);
      var revocations := LoadKind(v, w.files, Revocations, stored, faults.failing);
      if trust.Ok? && revocations.Ok? {
        ReadsAgree(v, w.files, Trust, stored, faults.failing);
        ReadsAgree(v, w.files, Revocations, stored, faults.failing);
        LoadedAdopts(c, v, w.files, k);
        RepairWrites(c, w.files, stored, trust.value, revocations.value, faults.stateWrite);
        RepairAnswers(c, v, w.files, faults.stateWrite, k, x, LoadedState(stored, trust.value, revocations.value),
                      Repair(c, w.files, stored, trust.value, revocations.value, true, faults.stateWrite).0);
      }
    }
  }

  lemma RepairWrites(c: Codec, files: Files, stored: Option<DatabaseState>, trust: Option<Candidate>,
                     revocations: Option<Candidate>, o: WriteOutcome)
    ensures var s, f := LoadedState(stored, trust, revocations), Repair(c, files, stored, trust, revocations, true, o).0;
      f == files
      || (s.generation < U64_MAX && f == WriteState(c, files, s.(generation := s.generation + 1), o).0)
  {
  }

  lemma LoadedAdopts(c: Codec, v: Validator, files: Files, k: Kind)
    requires Answer(c, v, files, k).Some?
    ensures Adopts(LoadedState(Recorded(c, files), Answer(c, v, files, Trust), Answer(c, v, files, Revocations)), k,
                   Answer(c, v, files, k).value)
  {
    LoadedStateMeta(Recorded(c, files), Answer(c, v, files, Trust), Answer(c, v, files, Revocations));
  }

  lemma RepairAnswers(c: Codec, v: Validator, files: Files, o: WriteOutcome, k: Kind, x: u64, s: DatabaseState, f: Files)
    requires RoundTrips(c) && StateWriteFault(c, o) && AnswersAtLeast(c, v, files, k, x)
    requires Adopts(s, k, Answer(c, v, files, k).value)
    requires f == files || (s.generation < U64_MAX && f == WriteState(c, files, s.(generation := s.generation + 1), o).0)
    ensures AnswersAtLeast(c, v, f, k, x)
  {
    if f != files { WrittenAnswers(c, v, files, s.(generation := s.generation + 1), o, k, x); }
  }

  lemma WrittenAnswers(c: Codec, v: Validator, files: Files, next: DatabaseState, o: WriteOutcome, k: Kind, x: u64)
    requires RoundTrips(c) && StateWriteFault(c, o) && AnswersAtLeast(c, v, files, k, x)
    requires Adopts(next, k, Answer(c, v, files, k).value)
    ensures AnswersAtLeast(c, v, WriteState(c, files, next, o).0, k, x)
  {
    WriteStateEffect(c, files, next, o);
    RewrittenRecord(c, v, files, WriteState(c, files, next, o).0, k, x, next);
  }

  /** The floor is the acknowledged version, or the answer while no session is open. */
  predicate FloorKept(c: Codec, v: Validator, w: World, k: Kind, x: u64) {
    (w.session.None? && AnswersAtLeast(c, v, w.files, k, x)) || (k in w.acked && w.acked[k] >= x)
  }

  lemma StepKeepsFloor(c: Codec, v: Validator, w: World, e: Event, k: Kind, x: u64)
    requires RoundTrips(c) && Allowed(c, e) && Inv(c, v, w) && FloorKept(c, v, w, k, x)
    ensures FloorKept(c, v, Step(c, v, w, e), k, x)
  {
    StepAcks(c, v, w, e);
    if !(k in w.acked && w.acked[k] >= x) && e.LoadCall? {
      LoadCallAnswers(c, v, w, e.faults, k, x);
      if Load(c, v, w.files, true, e.faults).1.Ok? {
        LoadGivesAnswer(c, v, w.files, true, e.faults, k);
      }
    }
  }

  // ---------------------------------------------------------------- while a session is open

  /** The session knows an acknowledged kind's version, and of any other kind that its slot is not valid. */
  predicate SessionExact(v: Validator, w: World) {
    w.session.Some? ==> forall k :: SessionKind(v, w.files, w.session.value, w.acked, k)
  }

  predicate SessionKind(v: Validator, files: Files, s: DatabaseState, acked: map<Kind, u64>, k: Kind) {
    if k in acked then Meta(s, k).version == acked[k]
    else Meta(s, k) == EMPTY && ActiveSlot(s, k) == A && Content(v, files, k, A).None?
  }

  lemma LoadExact(c: Codec, v: Validator, w: World, faults: LoadFaults)
    requires RoundTrips(c) && StateWriteFault(c, faults.stateWrite) && Inv(c, v, w) && SessionExact(v, w)
    ensures SessionExact(v, Step(c, v, w, LoadCall(faults)))
  {
    var (f, r) := Load(c, v, w.files, true, faults);
    LoadSlots(c, v, w.files, faults);
    if r.Ok? {
      LoadIsFresh(c, v, w, true, faults);
      forall k ensures SessionKind(v, f, r.value.state, AckLoaded(w.acked, r.value), k) {
        LoadGivesAnswer(c, v, w.files, true, faults, k);
        if LoadedBytes(r.value, k).None? {
          NoAnswer(c, v, w.files, k);
          SameContent(v, w.files, f, k);
        }
      }
    } else if w.session.Some? {
      forall k ensures SessionKind(v, f, w.session.value, w.acked, k) {
        assert SessionKind(v, w.files, w.session.value, w.acked, k);
        SameContent(v, w.files, f, k);
      }
    }
  }

  lemma SameContent(v: Validator, f: Files, g: Files, k: Kind)
    requires SameSlots(f, g)
    ensures forall slot :: Content(v, f, k, slot) == Content(v, g, k, slot)
  {
  }

  lemma LoadSlots(c: Codec, v: Validator, files: Files, faults: LoadFaults)
    requires RoundTrips(c) && StateWriteFault(c, faults.stateWrite)
    ensures SameSlots(files, Load(c, v, files, true, faults).0)
  {
    var f := Load(c, v, files, true, faults).0;
    forall k: Kind, slot: Slot
      ensures SlotPath(k, slot) in files <==> SlotPath(k, slot) in f
      ensures SlotPath(k, slot) in files ==> files[SlotPath(k, slot)] == f[SlotPath(k, slot)]
    {
    }
  }

  /** A persist touches the inactive slot of its kind and the record, and moves its kind or nothing. */
  lemma PersistShape(c: Codec, v: Validator, files: Files, s: DatabaseState, k: Kind, bytes: seq<byte>,
                     etag: seq<byte>, at: u64, faults: PersistFaults)
    ensures var (f, s', r) := Persist(c, v, files, s, k, bytes, etag, at, faults);
      && (r.Err? ==> s' == s)
      && (forall j :: j != k ==> Meta(s', j) == Meta(s, j) && ActiveSlot(s', j) == ActiveSlot(s, j))
      && forall j, slot :: (j != k || slot == ActiveSlot(s, k)) ==> SameFile(files, f, SlotPath(j, slot))
  {
  }

  predicate SameFile(f: Files, g: Files, path: Path) {
    (path in f <==> path in g) && (path in f ==> f[path] == g[path])
  }

  lemma PersistExact(c: Codec, v: Validator, w: World, k: Kind, bytes: seq<byte>, etag: seq<byte>, at: u64,
                     faults: PersistFaults)
    requires SessionExact(v, w) && w.session.Some?
    ensures SessionExact(v, Step(c, v, w, PersistCall(k, bytes, etag, at, faults)))
  {
    var s := w.session.value;
    var (f, s', r) := Persist(c, v, w.files, s, k, bytes, etag, at, faults);
    PersistShape(c, v, w.files, s, k, bytes, etag, at, faults);
    var acked := if r.Ok? then w.acked[k := Meta(s', k).version] else w.acked;
    forall j ensures SessionKind(v, f, s', acked, j) {
      assert SessionKind(v, w.files, s, w.acked, j);
      assert SameFile(w.files, f, SlotPath(j, ActiveSlot(s, j)));
    }
  }

  lemma MarkExact(c: Codec, v: Validator, w: World, k: Kind, at: u64, o: WriteOutcome)
    requires SessionExact(v, w) && w.session.Some?
    ensures SessionExact(v, Step(c, v, w, MarkCall(k, at, o)))
  {
    var w' := Step(c, v, w, MarkCall(k, at, o));
    forall j ensures SessionKind(v, w'.files, w'.session.value, w'.acked, j) {
      assert SessionKind(v, w.files, w.session.value, w.acked, j);
    }
  }

  lemma StepKeepsExact(c: Codec, v: Validator, w: World, e: Event)
    requires RoundTrips(c) && Allowed(c, e) && Inv(c, v, w) && SessionExact(v, w)
    ensures SessionExact(v, Step(c, v, w, e))
  {
    match e
    case LoadCall(faults) => LoadExact(c, v, w, faults);
    case Peek(faults) => assert Load(c, v, w.files, false, faults).0 == w.files;
    case PersistCall(k, bytes, etag, at, faults) =>
      if w.session.Some? { PersistExact(c, v, w, k, bytes, etag, at, faults); }
    case MarkCall(k, at, o) =>
      if w.session.Some? { MarkExact(c, v, w, k, at, o); }
    case Crash =>
  }

  lemma NextKeepsExact(c: Codec, v: Validator, w: World, e: Event, w': World)
    requires RoundTrips(c) && Allowed(c, e) && Inv(c, v, w) && SessionExact(v, w) && Next(c, v, w, e, w')
    ensures SessionExact(v, w')
  {
    StepKeepsExact(c, v, w, e);
  }

  lemma RunStepExact(c: Codec, v: Validator, ws: seq<World>, es: seq<Event>, i: nat)
    requires RoundTrips(c) && IsRun(c, v, ws, es) && i < |es| && SessionExact(v, ws[i])
    ensures SessionExact(v, ws[i + 1])
  {
    RunKeeps(c, v, ws, es, i);
    NextKeepsExact(c, v, ws[i], es[i], ws[i + 1]);
  }

  lemma {:induction false} RunKeepsExact(c: Codec, v: Validator, ws: seq<World>, es: seq<Event>, i: nat)
    requires RoundTrips(c) && IsRun(c, v, ws, es) && i <= |es|
    ensures SessionExact(v, ws[i])
  {
    if i > 0 {
      RunKeepsExact(c, v, ws, es, i - 1);
      RunStepExact(c, v, ws, es, i - 1);
    }
  }

  // ---------------------------------------------------------------- the theorems

  /** Allowed steps from any world. */
  predicate Trace(c: Codec, v: Validator, ws: seq<World>, es: seq<Event>) {
    && |ws| == |es| + 1
    && (forall i :: 0 <= i < |es| ==> Next(c, v, ws[i], es[i], ws[i + 1]))
    && (forall i :: 0 <= i < |es| ==> Allowed(c, es[i]))
  }

  lemma {:induction false} TraceKeepsFloor(
    c: Codec, v: Validator, ws: seq<World>, es: seq<Event>, j: nat, k: Kind, x: u64)
    requires RoundTrips(c) && Trace(c, v, ws, es) && j <= |es| && Inv(c, v, ws[0]) && FloorKept(c, v, ws[0], k, x)
    ensures Inv(c, v, ws[j]) && FloorKept(c, v, ws[j], k, x)
  {
    if j > 0 {
      TraceKeepsFloor(c, v, ws, es, j - 1, k, x);
      assert Next(c, v, ws[j - 1], es[j - 1], ws[j]) && Allowed(c, es[j - 1]);
      StepKeeps(c, v, ws[j - 1], es[j - 1]);
      StepKeepsFloor(c, v, ws[j - 1], es[j - 1], k, x);
    }
  }

  /** A load that gives, for a kind, a valid snapshot at least as new as the version. */
  predicate GivesAtLeast(v: Validator, l: Loaded, k: Kind, x: u64) {
    && LoadedBytes(l, k).Some? && v(k, LoadedBytes(l, k).value).Some?
    && v(k, LoadedBytes(l, k).value).value.version >= x
  }

  lemma FloorGives(c: Codec, v: Validator, w: World, k: Kind, x: u64, repair: bool, faults: LoadFaults)
    requires Inv(c, v, w) && FloorKept(c, v, w, k, x) && Load(c, v, w.files, repair, faults).1.Ok?
    ensures GivesAtLeast(v, Load(c, v, w.files, repair, faults).1.value, k, x)
  {
    LoadGivesAnswer(c, v, w.files, repair, faults, k);
    LoadIsFresh(c, v, w, repair, faults);
  }

  /** Whatever happens from here on, every load that succeeds is at least as new as the version. */
  ghost predicate IsFloor(c: Codec, v: Validator, w: World, k: Kind, x: u64) {
    forall ws: seq<World>, es: seq<Event>, repair: bool, faults: LoadFaults ::
      Trace(c, v, ws, es) && ws[0] == w && Load(c, v, ws[|es|].files, repair, faults).1.Ok? ==>
        GivesAtLeast(v, Load(c, v, ws[|es|].files, repair, faults).1.value, k, x)
  }

  /** The guard: no session is open, or the version was acknowledged. */
  predicate Safe(w: World, k: Kind, x: u64) {
    w.session.None? || (k in w.acked && w.acked[k] >= x)
  }

  /** In every run a version shown while no session is open, or acknowledged, is a floor. */
  lemma ShownIsFloor(c: Codec, v: Validator, ws: seq<World>, es: seq<Event>, i: nat, k: Kind, x: u64)
    requires RoundTrips(c) && IsRun(c, v, ws, es) && i < |ws|
    requires AnswersAtLeast(c, v, ws[i].files, k, x) && Safe(ws[i], k, x)
    ensures IsFloor(c, v, ws[i], k, x)
  {
    RunKeeps(c, v, ws, es, i);
    forall vs: seq<World>, ds: seq<Event>, repair: bool, faults: LoadFaults
      | Trace(c, v, vs, ds) && vs[0] == ws[i] && Load(c, v, vs[|ds|].files, repair, faults).1.Ok?
      ensures GivesAtLeast(v, Load(c, v, vs[|ds|].files, repair, faults).1.value, k, x)
    {
      TraceKeepsFloor(c, v, vs, ds, |ds|, k, x);
      FloorGives(c, v, vs[|ds|], k, x, repair, faults);
    }
  }

  /** Persisting the shown bytes again, with a slot write that tears. */
  function TearingPersist(k: Kind, bytes: seq<byte>, left: seq<byte>): Event {
    PersistCall(k, bytes, [], 0, PersistFaults(Torn(left), false, Stored))
  }

  const NO_FAULTS := LoadFaults({}, {}, Stored)

  lemma TornFiles(c: Codec, v: Validator, w: World, k: Kind, bytes: seq<byte>, left: seq<byte>)
    requires w.session.Some? && SessionExact(v, w) && v(k, bytes).Some? && !Safe(w, k, v(k, bytes).value.version)
    ensures Step(c, v, w, TearingPersist(k, bytes, left))
         == w.(files := w.files[SlotPath(k, Inactive(ActiveSlot(w.session.value, k))) := left])
  {
    assert SessionKind(v, w.files, w.session.value, w.acked, k);
  }

  /** With one slot torn, the answer is what the other slot holds. */
  lemma OneSlotLeft(c: Codec, v: Validator, files: Files, k: Kind, slot: Slot)
    requires Content(v, files, k, Inactive(slot)).None?
    ensures var r := Answer(c, v, files, k);
      if Content(v, files, k, slot).None? then r.None?
      else r.Some? && r.value.v == Content(v, files, k, slot).value
  {
    CandidateIsContent(v, files, k, slot);
    CandidateIsContent(v, files, k, Inactive(slot));
    var stored := Recorded(c, files);
    var first := if stored.Some? then ActiveSlot(stored.value, k) else A;
    assert first == slot || first == Inactive(slot);
  }

  lemma CandidateIsContent(v: Validator, files: Files, k: Kind, slot: Slot)
    ensures var r, x := LoadCandidate(v, files, k, slot, {}), Content(v, files, k, slot);
      r.Ok? && (r.value.Some? <==> x.Some?) && (x.Some? ==> r.value.value.v == x.value)
  {
  }

  lemma QuietLoad(c: Codec, v: Validator, files: Files)
    ensures Load(c, v, files, false, NO_FAULTS).1.Ok?
  {
    var stored := Recorded(c, files);
    ReadsAgree(v, files, Trust, stored, {});
    ReadsAgree(v, files, Revocations, stored, {});
  }

  /** In any other world one allowed step, a torn persist, takes the shown version away. */
  lemma ShownIsLost(c: Codec, v: Validator, w: World, k: Kind, bytes: seq<byte>, left: seq<byte>)
    requires Inv(c, v, w) && SessionExact(v, w)
    requires v(k, bytes).Some? && !Safe(w, k, v(k, bytes).value.version) && v(k, left).None?
    ensures var e := TearingPersist(k, bytes, left); var files := Step(c, v, w, e).files;
      && Allowed(c, e) && Load(c, v, files, false, NO_FAULTS).1.Ok?
      && !GivesAtLeast(v, Load(c, v, files, false, NO_FAULTS).1.value, k, v(k, bytes).value.version)
  {
    var s := w.session.value;
    var slot := ActiveSlot(s, k);
    TornFiles(c, v, w, k, bytes, left);
    var files := w.files[SlotPath(k, Inactive(slot)) := left];
    QuietLoad(c, v, files);
    LoadGivesAnswer(c, v, files, false, NO_FAULTS, k);
    OneSlotLeft(c, v, files, k, slot);
    assert Content(v, files, k, slot) == Content(v, w.files, k, slot);
    assert SessionKind(v, w.files, s, w.acked, k);
    if k in w.acked { assert KindInv(c, v, w.files, w.session, k, w.acked[k]); }
  }

  lemma LostIsNoFloor(c: Codec, v: Validator, w: World, k: Kind, bytes: seq<byte>, left: seq<byte>)
    requires Inv(c, v, w) && SessionExact(v, w)
    requires v(k, bytes).Some? && !Safe(w, k, v(k, bytes).value.version) && v(k, left).None?
    ensures !IsFloor(c, v, w, k, v(k, bytes).value.version)
  {
    var e := TearingPersist(k, bytes, left);
    ShownIsLost(c, v, w, k, bytes, left);
    var ws, es := [w, Step(c, v, w, e)], [e];
    assert Trace(c, v, ws, es) && ws[|es|] == Step(c, v, w, e);
    assert Load(c, v, ws[|es|].files, false, NO_FAULTS).1.Ok?;
  }

  /**
   * Exactly which shown versions are floors. In every world of every run, for every read-only
   * load of its files that succeeds: the version it gives for a kind is a floor for all that
   * can follow if and only if no session is open or the version was acknowledged. Some bytes
   * must be invalid for the kind, or no write could spoil a slot.
   */
  lemma FloorExactly(c: Codec, v: Validator, ws: seq<World>, es: seq<Event>, i: nat, faults: LoadFaults, k: Kind,
                     bytes: seq<byte>, left: seq<byte>)
    requires RoundTrips(c) && IsRun(c, v, ws, es) && i < |ws| && v(k, left).None?
    requires Load(c, v, ws[i].files, false, faults).1.Ok?
    requires LoadedBytes(Load(c, v, ws[i].files, false, faults).1.value, k) == Some(bytes)
    ensures v(k, bytes).Some?
    ensures IsFloor(c, v, ws[i], k, v(k, bytes).value.version) <==> Safe(ws[i], k, v(k, bytes).value.version)
  {
    LoadGivesAnswer(c, v, ws[i].files, false, faults, k);
    var x := v(k, bytes).value.version;
    if Safe(ws[i], k, x) {
      ShownIsFloor(c, v, ws, es, i, k, x);
    } else {
      RunKeeps(c, v, ws, es, i);
      RunKeepsExact(c, v, ws, es, i);
      LostIsNoFloor(c, v, ws[i], k, bytes, left);
    }
  }
}
