/**
 * What a load gives back, in full: after a load, a persist or a check mark that succeeded, the
 * next load answers the session's own state, metadata and tags included, and changes nothing.
 */
module Reload {
  import opened Machine
  import opened StateCodec
  import opened StorageSpec
  import opened NoRollback
  import opened ShownFloor

  /** The record is the session's state. */
  predicate RecordedIs(c: Codec, w: World) {
    w.session.Some? && Recorded(c, w.files) == w.session
  }

  /** A kind nobody acknowledged has no valid snapshot in its other slot either. */
  predicate NoSpare(v: Validator, w: World, k: Kind) {
    k in w.acked || Content(v, w.files, k, B).None?
  }

  /** The bytes of a kind's active slot, if the kind was acknowledged. */
  function ActiveBytes(w: World, k: Kind): Option<seq<byte>> {
    if w.session.None? || k !in w.acked then None
    else
      var path := SlotPath(k, ActiveSlot(w.session.value, k));
      if path in w.files then Some(w.files[path]) else None
  }

  /** The load that changes nothing and reports nothing recovered. */
  function Untouched(w: World): (Files, Result<Loaded, StorageError>)
    requires w.session.Some?
  {
    (w.files, Ok(Loaded(w.session.value, ActiveBytes(w, Trust), ActiveBytes(w, Revocations), false)))
  }

  /** An acknowledged kind is found where the record says, and adopting it changes nothing. */
  lemma AckedFound(c: Codec, v: Validator, w: World, k: Kind)
    requires Inv(c, v, w) && SessionExact(v, w) && RecordedIs(c, w) && k in w.acked
    ensures var r := Answer(c, v, w.files, k);
      && r.Some? && Adopts(w.session.value, k, r.value) && ActiveBytes(w, k) == Some(r.value.bytes)
  {
    assert KindInv(c, v, w.files, w.session, k, w.acked[k]);
  }

  /** Any other kind has no answer exactly when its other slot is not valid. */
  lemma UnackedFound(c: Codec, v: Validator, w: World, k: Kind)
    requires SessionExact(v, w) && RecordedIs(c, w) && k !in w.acked
    ensures var r := Answer(c, v, w.files, k);
      && ActiveBytes(w, k) == None && (r.None? <==> Content(v, w.files, k, B).None?)
      && (r.Some? ==> r.value.slot == B)
  {
    assert SessionKind(v, w.files, w.session.value, w.acked, k);
    OneOrOther(c, v, w.files, k);
  }

  lemma OneOrOther(c: Codec, v: Validator, files: Files, k: Kind)
    requires Content(v, files, k, A).None?
    ensures var r := Answer(c, v, files, k);
      (r.None? <==> Content(v, files, k, B).None?) && (r.Some? ==> r.value.slot == B)
  {
    OneSlotLeft(c, v, files, k, B);
    var stored := Recorded(c, files);
    var first := if stored.Some? then ActiveSlot(stored.value, k) else A;
    assert first == A || first == B;
    CandidateIsContent(v, files, k, A);
  }

  /** Adopting a candidate that the state already names leaves the state alone, tags and check times included. */
  lemma AdoptingAgain(s: DatabaseState, k: Kind, r: Candidate)
    requires Adopts(s, k, r)
    ensures ApplyLoaded(s, k, Some(r)) == s
  {
  }

  lemma AdoptingNothing(s: DatabaseState, k: Kind)
    requires Meta(s, k) == EMPTY && ActiveSlot(s, k) == A
    ensures ApplyLoaded(s, k, None) == s
  {
  }

  /** What a kind's answer must be for the state to stay. */
  predicate Stays(s: DatabaseState, k: Kind, r: Option<Candidate>) {
    if r.Some? then Adopts(s, k, r.value) else Meta(s, k) == EMPTY && ActiveSlot(s, k) == A
  }

  lemma StaysApplied(s: DatabaseState, k: Kind, r: Option<Candidate>)
    requires Stays(s, k, r)
    ensures ApplyLoaded(s, k, r) == s
  {
    if r.Some? { AdoptingAgain(s, k, r.value); } else { AdoptingNothing(s, k); }
  }

  /** One kind of the session and what the files answer for it. */
  lemma KindStays(c: Codec, v: Validator, w: World, k: Kind)
    requires Inv(c, v, w) && SessionExact(v, w) && RecordedIs(c, w)
    ensures var r := Answer(c, v, w.files, k);
      && (NoSpare(v, w, k) ==> Stays(w.session.value, k, r) && CandidateBytes(r) == ActiveBytes(w, k))
      && (!NoSpare(v, w, k) ==> r.Some? && r.value.slot == B && ActiveSlot(w.session.value, k) == A)
  {
    assert SessionKind(v, w.files, w.session.value, w.acked, k);
    if k in w.acked { AckedFound(c, v, w, k); } else { UnackedFound(c, v, w, k); }
  }

  lemma QuietLoadIs(c: Codec, v: Validator, files: Files, repair: bool)
    ensures Load(c, v, files, repair, NO_FAULTS)
         == Repair(c, files, Recorded(c, files), Answer(c, v, files, Trust), Answer(c, v, files, Revocations),
                   repair, Stored)
  {
    ReadsAgree(v, files, Trust, Recorded(c, files), {});
    ReadsAgree(v, files, Revocations, Recorded(c, files), {});
  }

  lemma RepairUntouched(c: Codec, files: Files, s: DatabaseState, trust: Option<Candidate>,
                        revocations: Option<Candidate>, repair: bool, o: WriteOutcome)
    requires Stays(s, Trust, trust) && Stays(s, Revocations, revocations)
    ensures Repair(c, files, Some(s), trust, revocations, repair, o)
         == (files, Ok(Loaded(s, CandidateBytes(trust), CandidateBytes(revocations), false)))
  {
    StaysApplied(s, Trust, trust);
    StaysApplied(s, Revocations, revocations);
  }

  /** A kind found in another slot changes the state. */
  lemma RepairTouches(c: Codec, files: Files, s: DatabaseState, trust: Option<Candidate>,
                      revocations: Option<Candidate>, repair: bool, o: WriteOutcome, k: Kind)
    requires var r := if k == Trust then trust else revocations; r.Some? && r.value.slot != ActiveSlot(s, k)
    ensures var (f, r) := Repair(c, files, Some(s), trust, revocations, repair, o); r.Ok? ==> r.value.state != s
  {
    LoadedStateMeta(Some(s), trust, revocations);
    if Repair(c, files, Some(s), trust, revocations, repair, o).1.Ok? {
      RepairGives(c, files, Some(s), trust, revocations, repair, o, k);
    }
  }

  /**
   * A load without faults, repairing or not, of files whose record is the session's state:
   * it answers exactly that state and the active slots' bytes, recovers nothing and writes
   * nothing, if and only if no kind has an unacknowledged valid snapshot.
   */
  lemma ReloadExactly(c: Codec, v: Validator, w: World, repair: bool)
    requires Inv(c, v, w) && SessionExact(v, w) && RecordedIs(c, w)
    ensures Load(c, v, w.files, repair, NO_FAULTS) == Untouched(w)
       <==> NoSpare(v, w, Trust) && NoSpare(v, w, Revocations)
  {
    var s := w.session.value;
    var trust, revocations := Answer(c, v, w.files, Trust), Answer(c, v, w.files, Revocations);
    KindStays(c, v, w, Trust);
    KindStays(c, v, w, Revocations);
    QuietLoadIs(c, v, w.files, repair);
    if NoSpare(v, w, Trust) && NoSpare(v, w, Revocations) {
      RepairUntouched(c, w.files, s, trust, revocations, repair, Stored);
    } else {
      RepairTouches(c, w.files, s, trust, revocations, repair, Stored,
                    if NoSpare(v, w, Trust) then Revocations else Trust);
    }
  }

  /** Later in version, or in generation time for the same version. */
  predicate Newer(x: Validated, y: Validated) {
    x.version > y.version || (x.version == y.version && x.generatedAt > y.generatedAt)
  }

  /** If any slot is valid there is an answer: the snapshot the record describes, or one no slot is newer than. */
  lemma RecoversNewest(c: Codec, v: Validator, files: Files, k: Kind, slot: Slot)
    requires Content(v, files, k, slot).Some?
    ensures var r, s := Answer(c, v, files, k), Recorded(c, files);
      && r.Some? && Content(v, files, k, r.value.slot) == Some(r.value.v)
      && ((s.Some? && Adopts(s.value, k, r.value)) || !Newer(Content(v, files, k, slot).value, r.value.v))
    ensures var r, s := Answer(c, v, files, k).value, Recorded(c, files);
      var first := if s.Some? then ActiveSlot(s.value, k) else A;
      r.slot != first && Content(v, files, k, first).Some? ==> Newer(r.v, Content(v, files, k, first).value)
  {
    CandidateIsContent(v, files, k, slot);
    CandidateIsContent(v, files, k, Inactive(slot));
    var stored := Recorded(c, files);
    var first := if stored.Some? then ActiveSlot(stored.value, k) else A;
    assert first == slot || first == Inactive(slot);
  }

  // ---------------------------------------------------------------- loads that meet faults

  /** The slot the record names for a kind, or the first one. */
  function FirstSlot(stored: Option<DatabaseState>, k: Kind): Slot {
    if stored.Some? then ActiveSlot(stored.value, k) else A
  }

  /** The record's slot is as the record says, so that the other slot is not looked at. */
  predicate AsRecorded(c: Codec, v: Validator, files: Files, k: Kind) {
    Recorded(c, files).Some? && SessionBacked(v, files, Recorded(c, files).value, k)
  }

  /** The reads a kind needs succeed, and what they answer is not refused. */
  predicate KindLoads(c: Codec, v: Validator, files: Files, k: Kind, faults: LoadFaults) {
    var slot := FirstSlot(Recorded(c, files), k);
    && SlotPath(k, slot) !in faults.failing
    && (!AsRecorded(c, v, files, k) ==> SlotPath(k, Inactive(slot)) !in faults.failing)
    && (Answer(c, v, files, k).Some? ==> k !in faults.refused)
  }

  lemma KindReads(c: Codec, v: Validator, files: Files, k: Kind, faults: LoadFaults)
    ensures LoadKind(v, files, k, Recorded(c, files), faults.failing).Ok?
         && (LoadKind(v, files, k, Recorded(c, files), faults.failing).value.Some? ==> k !in faults.refused)
       <==> KindLoads(c, v, files, k, faults)
  {
    ReadsAgree(v, files, k, Recorded(c, files), faults.failing);
  }

  /** The repaired record can be numbered and encoded, and its write reports success. */
  predicate Repairs(c: Codec, v: Validator, files: Files, o: WriteOutcome) {
    var s := LoadedState(Recorded(c, files), Answer(c, v, files, Trust), Answer(c, v, files, Revocations));
    || Recorded(c, files) == Some(s)
    || (s.generation < U64_MAX && c.encode(s.(generation := s.generation + 1)).Some? && (o.Stored? || o.Misstored?))
  }

  lemma RepairExactly(c: Codec, v: Validator, files: Files, repair: bool, o: WriteOutcome)
    ensures Repair(c, files, Recorded(c, files), Answer(c, v, files, Trust), Answer(c, v, files, Revocations), repair, o).1.Ok?
       <==> (repair ==> Repairs(c, v, files, o))
  {
  }

  /**
   * Exactly when a load succeeds, whatever fails: the state file and the slots it needs can be
   * read, no snapshot found is refused, and a repair, if one is wanted and needed, is written.
   */
  lemma LoadSucceedsExactly(c: Codec, v: Validator, files: Files, repair: bool, faults: LoadFaults)
    ensures Load(c, v, files, repair, faults).1.Ok?
       <==> && StatePath !in faults.failing && KindLoads(c, v, files, Trust, faults)
            && KindLoads(c, v, files, Revocations, faults) && (repair ==> Repairs(c, v, files, faults.stateWrite))
  {
    KindReads(c, v, files, Trust, faults);
    KindReads(c, v, files, Revocations, faults);
    ReadsAgree(v, files, Trust, Recorded(c, files), faults.failing);
    ReadsAgree(v, files, Revocations, Recorded(c, files), faults.failing);
    RepairExactly(c, v, files, repair, faults.stateWrite);
  }

  // ---------------------------------------------------------------- after each operation

  function OtherKind(k: Kind): Kind {
    if k == Trust then Revocations else Trust
  }

  /** A persist that succeeded: the new session, the written record and the written slot. */
  lemma PersistEffect(c: Codec, v: Validator, w: World, k: Kind, bytes: seq<byte>, etag: seq<byte>, at: u64,
                      faults: PersistFaults)
    requires RoundTrips(c) && StateWriteFault(c, faults.stateWrite) && w.session.Some?
    requires Persist(c, v, w.files, w.session.value, k, bytes, etag, at, faults).2.Ok?
    ensures var (f, s', r) := Persist(c, v, w.files, w.session.value, k, bytes, etag, at, faults); var s := w.session.value;
      && v(k, bytes).Some? && (Meta(s, k).version == 0 || v(k, bytes).value.version > Meta(s, k).version)
      && Meta(s', k) == (var x := v(k, bytes).value; Metadata(x.version, x.generatedAt, x.expiresAt, at, etag))
      && ActiveSlot(s', k) == r.value == Inactive(ActiveSlot(s, k)) && s'.generation == s.generation + 1
      && Recorded(c, f) == Some(s') && SlotPath(k, r.value) in f && f[SlotPath(k, r.value)] == bytes
  {
    var s := w.session.value;
    var path := SlotPath(k, Inactive(ActiveSlot(s, k)));
    var f := Write(w.files, path, bytes, faults.slotWrite).0;
    var next := Advanced(s, k, v(k, bytes).value, etag, at);
    WriteStateEffect(c, f, next, faults.stateWrite);
  }

  /** The other kind, before and after a persist. */
  lemma OtherKept(c: Codec, v: Validator, w: World, k: Kind, bytes: seq<byte>, etag: seq<byte>, at: u64,
                  faults: PersistFaults)
    requires w.session.Some? && Persist(c, v, w.files, w.session.value, k, bytes, etag, at, faults).2.Ok?
    ensures var w', j := Step(c, v, w, PersistCall(k, bytes, etag, at, faults)), OtherKind(k);
      && Meta(w'.session.value, j) == Meta(w.session.value, j)
      && ActiveSlot(w'.session.value, j) == ActiveSlot(w.session.value, j)
      && ActiveBytes(w', j) == ActiveBytes(w, j) && NoSpare(v, w', j) == NoSpare(v, w, j)
  {
    PersistShape(c, v, w.files, w.session.value, k, bytes, etag, at, faults);
    var f, j := Persist(c, v, w.files, w.session.value, k, bytes, etag, at, faults).0, OtherKind(k);
    assert SameFile(w.files, f, SlotPath(j, A)) && SameFile(w.files, f, SlotPath(j, B));
  }

  lemma RunFacts(c: Codec, v: Validator, ws: seq<World>, es: seq<Event>, i: nat)
    requires RoundTrips(c) && IsRun(c, v, ws, es) && i < |es|
    ensures ws[i + 1] == Step(c, v, ws[i], es[i]) && Allowed(c, es[i])
    ensures Inv(c, v, ws[i]) && SessionExact(v, ws[i]) && Inv(c, v, ws[i + 1]) && SessionExact(v, ws[i + 1])
  {
    RunKeeps(c, v, ws, es, i);
    RunKeeps(c, v, ws, es, i + 1);
    RunKeepsExact(c, v, ws, es, i);
    RunKeepsExact(c, v, ws, es, i + 1);
    assert Next(c, v, ws[i], es[i], ws[i + 1]);
  }

  /**
   * After every persist that succeeded in a run: its kind has the new snapshot, strictly newer
   * than the one before, with the given tag and check time; the other kind is unchanged; and the
   * next load answers exactly that, recovering and writing nothing, if and only if the other kind
   * has no valid snapshot that was never acknowledged.
   */
  lemma PersistThenLoad(c: Codec, v: Validator, ws: seq<World>, es: seq<Event>, i: nat, k: Kind, bytes: seq<byte>,
                        etag: seq<byte>, at: u64, faults: PersistFaults, repair: bool)
    requires RoundTrips(c) && IsRun(c, v, ws, es) && i < |es| && es[i] == PersistCall(k, bytes, etag, at, faults)
    requires ws[i].session.Some? && Persist(c, v, ws[i].files, ws[i].session.value, k, bytes, etag, at, faults).2.Ok?
    ensures var w, w', j := ws[i], ws[i + 1], OtherKind(k);
      && w'.session.Some? && ActiveBytes(w', k) == Some(bytes) && v(k, bytes).Some?
      && Meta(w'.session.value, k) == (var x := v(k, bytes).value;
                                       Metadata(x.version, x.generatedAt, x.expiresAt, at, etag))
      && (Meta(w.session.value, k).version == 0 || v(k, bytes).value.version > Meta(w.session.value, k).version)
      && Meta(w'.session.value, j) == Meta(w.session.value, j) && ActiveBytes(w', j) == ActiveBytes(w, j)
      && (Load(c, v, w'.files, repair, NO_FAULTS) == Untouched(w') <==> NoSpare(v, w, j))
  {
    RunFacts(c, v, ws, es, i);
    PersistEffect(c, v, ws[i], k, bytes, etag, at, faults);
    OtherKept(c, v, ws[i], k, bytes, etag, at, faults);
    ReloadExactly(c, v, ws[i + 1], repair);
  }

  /** A check mark that succeeded: only the check time of its kind and the generation differ. */
  lemma MarkEffect(c: Codec, w: World, k: Kind, at: u64, o: WriteOutcome)
    requires RoundTrips(c) && StateWriteFault(c, o) && w.session.Some?
    requires MarkChecked(c, w.files, w.session.value, k, at, o).2.Ok?
    ensures var (f, s', r) := MarkChecked(c, w.files, w.session.value, k, at, o); var s := w.session.value;
      && s.generation < U64_MAX && s' == Marked(s, k, at) && Recorded(c, f) == Some(s') && SameSlots(w.files, f)
  {
    var s := w.session.value;
    WriteStateEffect(c, w.files, Marked(s, k, at), o);
  }

  lemma MarkedIs(s: DatabaseState, k: Kind, at: u64)
    requires s.generation < U64_MAX
    ensures Meta(Marked(s, k, at), k) == Meta(s, k).(lastCheckedAt := at)
    ensures Meta(Marked(s, k, at), OtherKind(k)) == Meta(s, OtherKind(k))
    ensures forall j :: ActiveSlot(Marked(s, k, at), j) == ActiveSlot(s, j)
  {
  }

  lemma SameSlotsSame(v: Validator, w: World, w': World)
    requires SameSlots(w.files, w'.files) && w.session.Some? && w'.session.Some? && w'.acked == w.acked
    requires forall j :: ActiveSlot(w'.session.value, j) == ActiveSlot(w.session.value, j)
    ensures forall j :: ActiveBytes(w', j) == ActiveBytes(w, j) && NoSpare(v, w', j) == NoSpare(v, w, j)
  {
    forall j ensures ActiveBytes(w', j) == ActiveBytes(w, j) && NoSpare(v, w', j) == NoSpare(v, w, j) {
      SameContent(v, w.files, w'.files, j);
      var slot := ActiveSlot(w.session.value, j);
      assert SlotPath(j, slot) in w.files <==> SlotPath(j, slot) in w'.files;
    }
  }

  /** After every check mark that succeeded in a run: that check time, and all other metadata kept, in the next load too. */
  lemma MarkThenLoad(c: Codec, v: Validator, ws: seq<World>, es: seq<Event>, i: nat, k: Kind, at: u64, o: WriteOutcome,
                     repair: bool)
    requires RoundTrips(c) && IsRun(c, v, ws, es) && i < |es| && es[i] == MarkCall(k, at, o)
    requires ws[i].session.Some? && MarkChecked(c, ws[i].files, ws[i].session.value, k, at, o).2.Ok?
    ensures var w, w', j := ws[i], ws[i + 1], OtherKind(k);
      && w'.session.Some? && Meta(w'.session.value, k) == Meta(w.session.value, k).(lastCheckedAt := at)
      && Meta(w'.session.value, j) == Meta(w.session.value, j)
      && ActiveBytes(w', k) == ActiveBytes(w, k) && ActiveBytes(w', j) == ActiveBytes(w, j)
      && (Load(c, v, w'.files, repair, NO_FAULTS) == Untouched(w') <==> NoSpare(v, w, k) && NoSpare(v, w, j))
  {
    RunFacts(c, v, ws, es, i);
    MarkEffect(c, ws[i], k, at, o);
    MarkedIs(ws[i].session.value, k, at);
    SameSlotsSame(v, ws[i], ws[i + 1]);
    ReloadExactly(c, v, ws[i + 1], repair);
  }

  /** A load that succeeded leaves its state in the record. */
  lemma LoadEffect(c: Codec, v: Validator, w: World, faults: LoadFaults)
    requires RoundTrips(c) && StateWriteFault(c, faults.stateWrite) && Load(c, v, w.files, true, faults).1.Ok?
    ensures var (f, r) := Load(c, v, w.files, true, faults); Recorded(c, f) == Some(r.value.state) && SameSlots(w.files, f)
  {
    var stored := Recorded(c, w.files);
    assert stored == StoredState(c, ReadFile(w.files, StatePath, faults.failing).value);
    ReadsAgree(v, w.files, Trust, stored, faults.failing);
    ReadsAgree(v, w.files, Revocations, stored, faults.failing);
    RepairShape(c, w.files, Answer(c, v, w.files, Trust), Answer(c, v, w.files, Revocations), faults.stateWrite);
  }

  lemma NothingSpare(c: Codec, v: Validator, w: World, faults: LoadFaults, k: Kind)
    requires RoundTrips(c) && StateWriteFault(c, faults.stateWrite) && Load(c, v, w.files, true, faults).1.Ok?
    ensures NoSpare(v, Step(c, v, w, LoadCall(faults)), k)
  {
    LoadEffect(c, v, w, faults);
    LoadGivesAnswer(c, v, w.files, true, faults, k);
    var f := Load(c, v, w.files, true, faults).0;
    SameContent(v, w.files, f, k);
    if LoadedBytes(Load(c, v, w.files, true, faults).1.value, k).None? { NoAnswer(c, v, w.files, k); }
  }

  /** After every load that succeeded in a run, loading again answers the same and changes nothing. */
  lemma LoadThenLoad(c: Codec, v: Validator, ws: seq<World>, es: seq<Event>, i: nat, faults: LoadFaults, repair: bool)
    requires RoundTrips(c) && IsRun(c, v, ws, es) && i < |es| && es[i] == LoadCall(faults)
    requires Load(c, v, ws[i].files, true, faults).1.Ok?
    ensures ws[i + 1].session == Some(Load(c, v, ws[i].files, true, faults).1.value.state)
    ensures Load(c, v, ws[i + 1].files, repair, NO_FAULTS) == Untouched(ws[i + 1])
  {
    RunFacts(c, v, ws, es, i);
    LoadEffect(c, v, ws[i], faults);
    NothingSpare(c, v, ws[i], faults, Trust);
    NothingSpare(c, v, ws[i], faults, Revocations);
    ReloadExactly(c, v, ws[i + 1], repair);
  }

  // ---------------------------------------------------------------- when a persist succeeds

  predicate TagsOk(ok: seq<byte> -> bool, s: DatabaseState) {
    ok(s.trust.etag) && ok(s.revocations.etag)
  }

  /** A codec that stores exactly the states with storable tags, and reads no others. */
  ghost predicate StoresTagged(c: Codec, ok: seq<byte> -> bool) {
    && ok([])
    && (forall s :: c.encode(s).Some? <==> TagsOk(ok, s))
    && (forall b :: c.decode(b).Some? ==> TagsOk(ok, c.decode(b).value))
  }

  lemma StateRecordStores(sha: Hash)
    ensures StoresTagged(StateRecord(sha), ValidStoredEtag)
  {
    var c := StateRecord(sha);
    forall b | c.decode(b).Some? ensures TagsOk(ValidStoredEtag, c.decode(b).value) { EncodeDecode(sha, b); }
  }

  lemma AppliedTags(ok: seq<byte> -> bool, s: DatabaseState, k: Kind, r: Option<Candidate>)
    requires ok([]) && TagsOk(ok, s)
    ensures TagsOk(ok, ApplyLoaded(s, k, r))
  {
  }

  lemma LoadIsRepair(c: Codec, v: Validator, files: Files, repair: bool, faults: LoadFaults)
    requires Load(c, v, files, repair, faults).1.Ok?
    ensures Load(c, v, files, repair, faults)
         == Repair(c, files, Recorded(c, files), Answer(c, v, files, Trust), Answer(c, v, files, Revocations), repair,
                   faults.stateWrite)
  {
    ReadsAgree(v, files, Trust, Recorded(c, files), faults.failing);
    ReadsAgree(v, files, Revocations, Recorded(c, files), faults.failing);
  }

  lemma RepairTags(c: Codec, ok: seq<byte> -> bool, files: Files, stored: Option<DatabaseState>,
                   trust: Option<Candidate>, revocations: Option<Candidate>, repair: bool, o: WriteOutcome)
    requires ok([]) && (stored.Some? ==> TagsOk(ok, stored.value))
    requires Repair(c, files, stored, trust, revocations, repair, o).1.Ok?
    ensures TagsOk(ok, Repair(c, files, stored, trust, revocations, repair, o).1.value.state)
  {
    var base := if stored.Some? then stored.value else DEFAULT_STATE;
    AppliedTags(ok, base, Trust, trust);
    AppliedTags(ok, ApplyLoaded(base, Trust, trust), Revocations, revocations);
  }

  lemma LoadedTags(c: Codec, ok: seq<byte> -> bool, v: Validator, w: World, faults: LoadFaults)
    requires StoresTagged(c, ok) && Load(c, v, w.files, true, faults).1.Ok?
    ensures TagsOk(ok, Load(c, v, w.files, true, faults).1.value.state)
  {
    LoadIsRepair(c, v, w.files, true, faults);
    RepairTags(c, ok, w.files, Recorded(c, w.files), Answer(c, v, w.files, Trust), Answer(c, v, w.files, Revocations),
               true, faults.stateWrite);
  }

  predicate SessionTags(ok: seq<byte> -> bool, w: World) {
    w.session.Some? ==> TagsOk(ok, w.session.value)
  }

  lemma PersistTags(c: Codec, ok: seq<byte> -> bool, v: Validator, files: Files, s: DatabaseState, k: Kind,
                    bytes: seq<byte>, etag: seq<byte>, at: u64, faults: PersistFaults)
    requires StoresTagged(c, ok) && TagsOk(ok, s)
    ensures TagsOk(ok, Persist(c, v, files, s, k, bytes, etag, at, faults).1)
  {
    if v(k, bytes).Some? && s.generation < U64_MAX {
      assert c.encode(Advanced(s, k, v(k, bytes).value, etag, at)).Some?
        <==> TagsOk(ok, Advanced(s, k, v(k, bytes).value, etag, at));
    }
  }

  lemma StepTags(c: Codec, ok: seq<byte> -> bool, v: Validator, w: World, e: Event)
    requires StoresTagged(c, ok) && SessionTags(ok, w)
    ensures SessionTags(ok, Step(c, v, w, e))
  {
    match e
    case LoadCall(faults) =>
      if Load(c, v, w.files, true, faults).1.Ok? { LoadedTags(c, ok, v, w, faults); }
    case PersistCall(k, bytes, etag, at, faults) =>
      if w.session.Some? { PersistTags(c, ok, v, w.files, w.session.value, k, bytes, etag, at, faults); }
    case _ =>
  }

  lemma {:induction false} RunTags(c: Codec, ok: seq<byte> -> bool, v: Validator, ws: seq<World>, es: seq<Event>, i: nat)
    requires StoresTagged(c, ok) && IsRun(c, v, ws, es) && i <= |es|
    ensures SessionTags(ok, ws[i])
  {
    if i > 0 {
      RunTags(c, ok, v, ws, es, i - 1);
      assert Next(c, v, ws[i - 1], es[i - 1], ws[i]);
      StepTags(c, ok, v, ws[i - 1], es[i - 1]);
    }
  }

  const NO_PERSIST_FAULTS := PersistFaults(Stored, false, Stored)

  lemma PersistOkIs(c: Codec, ok: seq<byte> -> bool, v: Validator, files: Files, s: DatabaseState, k: Kind,
                    bytes: seq<byte>, etag: seq<byte>, at: u64)
    requires StoresTagged(c, ok) && TagsOk(ok, s)
    ensures Persist(c, v, files, s, k, bytes, etag, at, NO_PERSIST_FAULTS).2.Ok?
       <==> && v(k, bytes).Some? && ok(etag) && s.generation < U64_MAX
            && (Meta(s, k).version != 0 ==> v(k, bytes).value.version > Meta(s, k).version)
  {
    if v(k, bytes).Some? && s.generation < U64_MAX {
      var next := Advanced(s, k, v(k, bytes).value, etag, at);
      assert c.encode(next).Some? <==> TagsOk(ok, next);
    }
  }

  /**
   * Under any faults a persist succeeds exactly when it would without them, the slot ends up with
   * the bytes and can be read back, and both writes report success.
   */
  lemma PersistUnderFaults(c: Codec, v: Validator, files: Files, s: DatabaseState, k: Kind, bytes: seq<byte>,
                           etag: seq<byte>, at: u64, faults: PersistFaults)
    ensures Persist(c, v, files, s, k, bytes, etag, at, faults).2.Ok?
       <==> && Persist(c, v, files, s, k, bytes, etag, at, NO_PERSIST_FAULTS).2.Ok? && !faults.readFails
            && (faults.slotWrite == Stored || faults.slotWrite == Misstored(bytes))
            && (faults.stateWrite.Stored? || faults.stateWrite.Misstored?)
  {
  }

  /** In every world of every run: exactly when a persist that meets no fault succeeds, for any such codec. */
  lemma PersistSucceeds(c: Codec, ok: seq<byte> -> bool, v: Validator, ws: seq<World>, es: seq<Event>, i: nat, k: Kind,
                        bytes: seq<byte>, etag: seq<byte>, at: u64)
    requires RoundTrips(c) && StoresTagged(c, ok) && IsRun(c, v, ws, es) && i < |ws| && ws[i].session.Some?
    ensures var w, s := ws[i], ws[i].session.value;
      Persist(c, v, w.files, s, k, bytes, etag, at, NO_PERSIST_FAULTS).2.Ok?
      <==> && v(k, bytes).Some? && ok(etag) && s.generation < U64_MAX
           && (k in w.acked && w.acked[k] != 0 ==> v(k, bytes).value.version > w.acked[k])
  {
    var w, s := ws[i], ws[i].session.value;
    RunKeepsExact(c, v, ws, es, i);
    RunTags(c, ok, v, ws, es, i);
    assert SessionKind(v, w.files, s, w.acked, k);
    PersistOkIs(c, ok, v, w.files, s, k, bytes, etag, at);
  }

  /**
   * In every world of every run of the store a persist that meets no fault succeeds if and only
   * if the snapshot is valid and newer than the version last acknowledged for its kind (if that
   * is not zero), the tag can be stored, and the generation is not used up.
   */
  lemma PersistSucceedsExactly(sha: Hash, v: Validator, ws: seq<World>, es: seq<Event>, i: nat, k: Kind,
                               bytes: seq<byte>, etag: seq<byte>, at: u64)
    requires IsRun(StateRecord(sha), v, ws, es) && i < |ws| && ws[i].session.Some?
    ensures var w, s := ws[i], ws[i].session.value;
      Persist(StateRecord(sha), v, w.files, s, k, bytes, etag, at, NO_PERSIST_FAULTS).2.Ok?
      <==> && v(k, bytes).Some? && ValidStoredEtag(etag) && s.generation < U64_MAX
           && (k in w.acked && w.acked[k] != 0 ==> v(k, bytes).value.version > w.acked[k])
  {
    StateRecordRoundTrips(sha);
    StateRecordStores(sha);
    PersistSucceeds(StateRecord(sha), ValidStoredEtag, v, ws, es, i, k, bytes, etag, at);
  }
}
