/**
 * Runs of the store with crashes and faults at every write and read: what a load
 * returns is never older than what was acknowledged before it.
 */
module NoRollback {
  import opened Machine
  import opened StateCodec
  import opened StorageSpec

  datatype Event =
    | LoadCall(faults: LoadFaults)
    | Peek(faults: LoadFaults)
    | PersistCall(kind: Kind, bytes: seq<byte>, etag: seq<byte>, at: u64, persistFaults: PersistFaults)
    | MarkCall(kind: Kind, at: u64, outcome: WriteOutcome)
    | Crash

  /** session: the state the one writer holds; acked: versions a call reported as current. */
  datatype World = World(files: Files, session: Option<DatabaseState>, acked: map<Kind, u64>)

  function AckKind(acked: map<Kind, u64>, k: Kind, loaded: Loaded, bytes: Option<seq<byte>>): map<Kind, u64> {
    if bytes.Some? then acked[k := Meta(loaded.state, k).version] else acked
  }

  function AckLoaded(acked: map<Kind, u64>, l: Loaded): map<Kind, u64> {
    AckKind(AckKind(acked, Trust, l, l.trust), Revocations, l, l.revocations)
  }

  function Step(c: Codec, v: Validator, w: World, e: Event): World {
    match e
    case LoadCall(faults) =>
      var (f, r) := Load(c, v, w.files, true, faults);
      if r.Ok? then World(f, Some(r.value.state), AckLoaded(w.acked, r.value)) else w.(files := f)
    case Peek(faults) => w.(files := Load(c, v, w.files, false, faults).0)
    case PersistCall(k, bytes, etag, at, faults) =>
      if w.session.None? then w
      else
        var (f, s, r) := Persist(c, v, w.files, w.session.value, k, bytes, etag, at, faults);
        World(f, Some(s), if r.Ok? then w.acked[k := Meta(s, k).version] else w.acked)
    case MarkCall(k, at, o) =>
      if w.session.None? then w
      else
        var (f, s, r) := MarkChecked(c, w.files, w.session.value, k, at, o);
        World(f, Some(s), w.acked)
    case Crash => w.(session := None)
  }

  /** A state write is stored, or fails leaving the old record, the new one, or no record. */
  predicate StateWriteFault(c: Codec, o: WriteOutcome) {
    o.Stored? || o.Unopened? || o.Unsynced? || (o.Torn? && c.decode(o.left).None?)
  }

  /** Slot writes and reads may fail in any way at all. */
  predicate Allowed(c: Codec, e: Event) {
    match e
    case LoadCall(faults) => StateWriteFault(c, faults.stateWrite)
    case PersistCall(_, _, _, _, faults) => StateWriteFault(c, faults.stateWrite)
    case MarkCall(_, _, o) => StateWriteFault(c, o)
    case _ => true
  }

  /** The one fact about the codec the store needs. */
  ghost predicate RoundTrips(c: Codec) {
    forall s :: c.encode(s).Some? ==> c.decode(c.encode(s).value) == Some(s)
  }

  predicate Next(c: Codec, v: Validator, w: World, e: Event, w': World) {
    w' == Step(c, v, w, e)
  }

  /** A run from a store nobody has acknowledged anything of; its files may hold anything. */
  predicate IsRun(c: Codec, v: Validator, ws: seq<World>, es: seq<Event>) {
    && |ws| == |es| + 1
    && ws[0].session == None && ws[0].acked == map[]
    && (forall i :: 0 <= i < |es| ==> Next(c, v, ws[i], es[i], ws[i + 1]))
    && (forall i :: 0 <= i < |es| ==> Allowed(c, es[i]))
  }

  // ---------------------------------------------------------------- the invariant

  function Content(v: Validator, files: Files, k: Kind, slot: Slot): Option<Validated> {
    if SlotPath(k, slot) in files then v(k, files[SlotPath(k, slot)]) else None
  }

  predicate Holds(v: Validator, files: Files, k: Kind, slot: Slot, floor: u64) {
    Content(v, files, k, slot).Some? && Content(v, files, k, slot).value.version >= floor
  }

  function Recorded(c: Codec, files: Files): Option<DatabaseState> {
    if StatePath in files then c.decode(files[StatePath]) else None
  }

  /** The session's active slot holds exactly what the session says. */
  predicate SessionBacked(v: Validator, files: Files, s: DatabaseState, k: Kind) {
    var x := Content(v, files, k, ActiveSlot(s, k));
    x.Some? && MetadataMatches(Meta(s, k), x.value)
  }

  predicate KindInv(c: Codec, v: Validator, files: Files, session: Option<DatabaseState>, k: Kind, floor: u64) {
    && (Holds(v, files, k, A, floor) || Holds(v, files, k, B, floor))
    && (session.Some? ==> SessionBacked(v, files, session.value, k) && Meta(session.value, k).version >= floor)
    && (Recorded(c, files).Some? ==> Meta(Recorded(c, files).value, k).version >= floor)
  }

  predicate Inv(c: Codec, v: Validator, w: World) {
    forall k :: k in w.acked ==> KindInv(c, v, w.files, w.session, k, w.acked[k])
  }

  // ---------------------------------------------------------------- loading

  /** Recovery returns something at least as new as any floor the store keeps. */
  lemma LoadKindAtLeast(c: Codec, v: Validator, files: Files, k: Kind, floor: u64, failing: set<Path>)
    requires Holds(v, files, k, A, floor) || Holds(v, files, k, B, floor)
    requires Recorded(c, files).Some? ==> Meta(Recorded(c, files).value, k).version >= floor
    requires LoadKind(v, files, k, Recorded(c, files), failing).Ok?
    ensures var r := LoadKind(v, files, k, Recorded(c, files), failing).value;
      r.Some? && r.value.v.version >= floor
  {
  }

  /** Whatever is loaded is the content of its slot. */
  lemma LoadKindContent(v: Validator, files: Files, k: Kind, stored: Option<DatabaseState>, failing: set<Path>)
    ensures var r := LoadKind(v, files, k, stored, failing);
      r.Ok? && r.value.Some? ==>
        && SlotPath(k, r.value.value.slot) in files
        && r.value.value.bytes == files[SlotPath(k, r.value.value.slot)]
        && v(k, r.value.value.bytes) == Some(r.value.value.v)
  {
  }

  predicate SameSlots(f: Files, g: Files) {
    forall k: Kind, slot: Slot ::
      && (SlotPath(k, slot) in f <==> SlotPath(k, slot) in g)
      && (SlotPath(k, slot) in f ==> f[SlotPath(k, slot)] == g[SlotPath(k, slot)])
  }

  lemma WriteStateEffect(c: Codec, files: Files, s: DatabaseState, o: WriteOutcome)
    requires RoundTrips(c) && StateWriteFault(c, o)
    ensures var (f, e) := WriteState(c, files, s, o);
      && SameSlots(files, f)
      && Recorded(c, f) in {Recorded(c, files), Some(s), None}
      && (e.None? ==> Recorded(c, f) == Some(s))
  {
    assert c.encode(s).Some? ==> c.decode(c.encode(s).value) == Some(s);
  }

  /** One kind of the invariant survives a state write of a state that is new enough. */
  lemma KindAfterStateWrite(c: Codec, v: Validator, f: Files, g: Files,
                            session: Option<DatabaseState>, k: Kind, floor: u64, s: DatabaseState)
    requires KindInv(c, v, f, session, k, floor) && SameSlots(f, g)
    requires Recorded(c, g) in {Recorded(c, f), Some(s), None} && Meta(s, k).version >= floor
    ensures KindInv(c, v, g, session, k, floor)
  {
    assert forall slot :: Content(v, f, k, slot) == Content(v, g, k, slot);
  }

  function LoadedState(stored: Option<DatabaseState>, trust: Option<Candidate>, revocations: Option<Candidate>)
    : DatabaseState
  {
    var base := if stored.Some? then stored.value else DEFAULT_STATE;
    ApplyLoaded(ApplyLoaded(base, Trust, trust), Revocations, revocations)
  }

  /** The state names the candidate's slot and carries its metadata. */
  predicate Adopts(s: DatabaseState, k: Kind, r: Candidate) {
    ActiveSlot(s, k) == r.slot && MetadataMatches(Meta(s, k), r.v)
  }

  lemma LoadedStateMeta(stored: Option<DatabaseState>, trust: Option<Candidate>, revocations: Option<Candidate>)
    ensures var s := LoadedState(stored, trust, revocations);
      && (trust.Some? ==> Adopts(s, Trust, trust.value))
      && (revocations.Some? ==> Adopts(s, Revocations, revocations.value))
  {
  }

  /** A loaded candidate of one kind backs the loaded state and keeps every floor. */
  lemma CandidateBacks(c: Codec, v: Validator, w: World, k: Kind, failing: set<Path>, r: Option<Candidate>, s: DatabaseState)
    requires Inv(c, v, w) && LoadKind(v, w.files, k, Recorded(c, w.files), failing) == Ok(r)
    requires r.Some? ==> Adopts(s, k, r.value)
    ensures k in w.acked ==> r.Some? && Meta(s, k).version >= w.acked[k]
    ensures r.Some? ==> SessionBacked(v, w.files, s, k) && Holds(v, w.files, k, r.value.slot, Meta(s, k).version)
  {
    LoadKindContent(v, w.files, k, Recorded(c, w.files), failing);
    if k in w.acked {
      assert KindInv(c, v, w.files, w.session, k, w.acked[k]);
      LoadKindAtLeast(c, v, w.files, k, w.acked[k], failing);
    }
  }

  /** The loaded state, written or not, keeps the floors it came from. */
  lemma LoadedKeeps(c: Codec, v: Validator, w: World, f: Files, s: DatabaseState)
    requires Inv(c, v, w) && SameSlots(w.files, f)
    requires Recorded(c, f) in {Recorded(c, w.files), Some(s), None}
    requires forall k :: k in w.acked ==> Meta(s, k).version >= w.acked[k]
    ensures Inv(c, v, w.(files := f))
  {
    forall k | k in w.acked ensures KindInv(c, v, f, w.session, k, w.acked[k]) {
      KindAfterStateWrite(c, v, w.files, f, w.session, k, w.acked[k], s);
    }
  }

  /** A successful load: its state becomes the session and its versions are acknowledged. */
  lemma AckedLoadKeeps(c: Codec, v: Validator, w: World, f: Files, l: Loaded)
    requires Inv(c, v, w) && SameSlots(w.files, f) && Recorded(c, f) == Some(l.state)
    requires forall k :: k in w.acked ==> LoadedBytes(l, k).Some?
    requires forall k :: LoadedBytes(l, k).Some? ==> SessionBacked(v, w.files, l.state, k)
    ensures Inv(c, v, World(f, Some(l.state), AckLoaded(w.acked, l)))
  {
    var w' := World(f, Some(l.state), AckLoaded(w.acked, l));
    forall k | k in w'.acked ensures KindInv(c, v, f, w'.session, k, w'.acked[k]) {
      assert LoadedBytes(l, k).Some? && w'.acked[k] == Meta(l.state, k).version;
      var slot := ActiveSlot(l.state, k);
      assert Content(v, f, k, slot) == Content(v, w.files, k, slot);
      assert SessionBacked(v, w.files, l.state, k);
      assert Holds(v, f, k, slot, w'.acked[k]);
      assert slot == A || slot == B;
    }
  }

  function LoadedBytes(l: Loaded, k: Kind): Option<seq<byte>> {
    if k == Trust then l.trust else l.revocations
  }

  lemma RepairKeeps(c: Codec, v: Validator, w: World, failing: set<Path>,
                    trust: Option<Candidate>, revocations: Option<Candidate>, o: WriteOutcome)
    requires RoundTrips(c) && StateWriteFault(c, o) && Inv(c, v, w)
    requires LoadKind(v, w.files, Trust, Recorded(c, w.files), failing) == Ok(trust)
    requires LoadKind(v, w.files, Revocations, Recorded(c, w.files), failing) == Ok(revocations)
    ensures var (f, r) := Repair(c, w.files, Recorded(c, w.files), trust, revocations, true, o);
      && (r.Err? ==> Inv(c, v, w.(files := f)))
      && (r.Ok? ==> Inv(c, v, World(f, Some(r.value.state), AckLoaded(w.acked, r.value))))
  {
    var stored := Recorded(c, w.files);
    var s := LoadedState(stored, trust, revocations);
    var (f, r) := Repair(c, w.files, stored, trust, revocations, true, o);
    LoadedStateMeta(stored, trust, revocations);
    CandidateBacks(c, v, w, Trust, failing, trust, s);
    CandidateBacks(c, v, w, Revocations, failing, revocations, s);
    RepairShape(c, w.files, trust, revocations, o);
    if r.Err? {
      LoadedKeeps(c, v, w, f, s.(generation := if s.generation == U64_MAX then 0 else s.generation + 1));
    } else {
      SameKinds(v, w.files, s, r.value.state);
      AckedLoadKeeps(c, v, w, f, r.value);
    }
  }

  lemma SameKinds(v: Validator, files: Files, s: DatabaseState, t: DatabaseState)
    requires s.(generation := 0) == t.(generation := 0)
    ensures forall k :: Meta(s, k) == Meta(t, k) && ActiveSlot(s, k) == ActiveSlot(t, k)
    ensures forall k :: SessionBacked(v, files, s, k) <==> SessionBacked(v, files, t, k)
  {
  }

  /** What the repair step leaves behind, whichever way the write went. */
  lemma RepairShape(c: Codec, files: Files, trust: Option<Candidate>, revocations: Option<Candidate>, o: WriteOutcome)
    requires RoundTrips(c) && StateWriteFault(c, o)
    ensures var s := LoadedState(Recorded(c, files), trust, revocations);
      var next := s.(generation := if s.generation == U64_MAX then 0 else s.generation + 1);
      var (f, r) := Repair(c, files, Recorded(c, files), trust, revocations, true, o);
      && SameSlots(files, f)
      && (r.Err? ==> Recorded(c, f) in {Recorded(c, files), Some(next), None})
      && (r.Ok? ==> Recorded(c, f) == Some(r.value.state) && r.value.state.(generation := 0) == s.(generation := 0))
      && (r.Ok? ==> LoadedBytes(r.value, Trust) == CandidateBytes(trust))
      && (r.Ok? ==> LoadedBytes(r.value, Revocations) == CandidateBytes(revocations))
  {
    var s := LoadedState(Recorded(c, files), trust, revocations);
    if s.generation < U64_MAX {
      WriteStateEffect(c, files, s.(generation := s.generation + 1), o);
    }
  }

  // ---------------------------------------------------------------- every step

  lemma LoadKeeps(c: Codec, v: Validator, w: World, faults: LoadFaults)
    requires RoundTrips(c) && StateWriteFault(c, faults.stateWrite) && Inv(c, v, w)
    ensures Inv(c, v, Step(c, v, w, LoadCall(faults)))
  {
    var read := ReadFile(w.files, StatePath, faults.failing);
    if read.Ok? {
      var stored := StoredState(c, read.value);
      assert stored == Recorded(c, w.files);
      var trust := LoadKind(v, w.files, Trust, stored, faults.failing);
      var revocations := LoadKind(v, w.files, Revocations, stored, faults.failing);
      if trust.Ok? && revocations.Ok? {
        RepairKeeps(c, v, w, faults.failing, trust.value, revocations.value, faults.stateWrite);
      }
    }
  }

  /** Overwriting the inactive slot leaves every floor standing. */
  lemma SlotWriteKeeps(c: Codec, v: Validator, w: World, k: Kind, bytes: seq<byte>, o: WriteOutcome)
    requires Inv(c, v, w) && w.session.Some?
    ensures var target := Inactive(ActiveSlot(w.session.value, k));
      Inv(c, v, w.(files := Write(w.files, SlotPath(k, target), bytes, o).0))
  {
    var s := w.session.value;
    var target := Inactive(ActiveSlot(s, k));
    var f := Write(w.files, SlotPath(k, target), bytes, o).0;
    forall j | j in w.acked ensures KindInv(c, v, f, w.session, j, w.acked[j]) {
      assert KindInv(c, v, w.files, w.session, j, w.acked[j]);
      var slot := ActiveSlot(s, j);
      assert Content(v, f, j, slot) == Content(v, w.files, j, slot);
      assert Holds(v, f, j, slot, w.acked[j]);
      assert slot == A || slot == B;
      assert Recorded(c, f) == Recorded(c, w.files);
    }
  }

  /** The new state of a persist is newer for its kind and unchanged for the other. */
  lemma AdvancedAtLeast(c: Codec, v: Validator, w: World, k: Kind, x: Validated, etag: seq<byte>, at: u64)
    requires Inv(c, v, w) && w.session.Some? && w.session.value.generation < U64_MAX
    requires Meta(w.session.value, k).version == 0 || x.version > Meta(w.session.value, k).version
    ensures forall j :: j in w.acked ==> Meta(Advanced(w.session.value, k, x, etag, at), j).version >= w.acked[j]
  {
    forall j | j in w.acked
      ensures Meta(Advanced(w.session.value, k, x, etag, at), j).version >= w.acked[j]
    {
      assert KindInv(c, v, w.files, w.session, j, w.acked[j]);
    }
  }

  lemma StateWriteKeeps(c: Codec, v: Validator, w: World, s: DatabaseState, o: WriteOutcome)
    requires RoundTrips(c) && StateWriteFault(c, o) && Inv(c, v, w)
    requires forall j :: j in w.acked ==> Meta(s, j).version >= w.acked[j]
    ensures Inv(c, v, w.(files := WriteState(c, w.files, s, o).0))
  {
    WriteStateEffect(c, w.files, s, o);
    LoadedKeeps(c, v, w, WriteState(c, w.files, s, o).0, s);
  }

  /** Switching to a state whose every acknowledged kind is backed by the files. */
  lemma SwitchKeeps(c: Codec, v: Validator, w: World, s: DatabaseState, acked: map<Kind, u64>)
    requires Inv(c, v, w) && Recorded(c, w.files) == Some(s)
    requires forall j :: j in acked ==> SessionBacked(v, w.files, s, j) && Meta(s, j).version >= acked[j]
    ensures Inv(c, v, World(w.files, Some(s), acked))
  {
    forall j | j in acked ensures KindInv(c, v, w.files, Some(s), j, acked[j]) {
      var slot := ActiveSlot(s, j);
      assert Holds(v, w.files, j, slot, acked[j]);
      assert slot == A || slot == B;
    }
  }

  lemma PersistKeeps(c: Codec, v: Validator, w: World, k: Kind, bytes: seq<byte>, etag: seq<byte>, at: u64, faults: PersistFaults)
    requires RoundTrips(c) && StateWriteFault(c, faults.stateWrite) && Inv(c, v, w) && w.session.Some?
    ensures Inv(c, v, Step(c, v, w, PersistCall(k, bytes, etag, at, faults)))
  {
    var s := w.session.value;
    var (f', s', r) := Persist(c, v, w.files, s, k, bytes, etag, at, faults);
    var target := Inactive(ActiveSlot(s, k));
    var f := Write(w.files, SlotPath(k, target), bytes, faults.slotWrite).0;
    SlotWriteKeeps(c, v, w, k, bytes, faults.slotWrite);
    var w1 := w.(files := f);
    if (f' != w.files && f' != f) || r.Ok? {
      var x := v(k, bytes).value;
      AdvancedAtLeast(c, v, w1, k, x, etag, at);
      var next := Advanced(s, k, x, etag, at);
      StateWriteKeeps(c, v, w1, next, faults.stateWrite);
      if r.Ok? {
        WriteStateEffect(c, f, next, faults.stateWrite);
        PersistedBacks(c, v, w1, f', k, bytes, next);
        SwitchKeeps(c, v, w1.(files := f'), next, w.acked[k := x.version]);
      }
    }
  }

  /** After the flip the session's slots still hold what the session says. */
  lemma PersistedBacks(c: Codec, v: Validator, w: World, g: Files, k: Kind, bytes: seq<byte>, next: DatabaseState)
    requires Inv(c, v, w) && w.session.Some? && SameSlots(w.files, g)
    requires SlotPath(k, ActiveSlot(next, k)) in w.files && w.files[SlotPath(k, ActiveSlot(next, k))] == bytes
    requires v(k, bytes).Some? && MetadataMatches(Meta(next, k), v(k, bytes).value)
    requires forall j :: j != k ==>
      Meta(next, j) == Meta(w.session.value, j) && ActiveSlot(next, j) == ActiveSlot(w.session.value, j)
    ensures SessionBacked(v, g, next, k)
    ensures forall j :: j in w.acked && j != k ==>
      SessionBacked(v, g, next, j) && Meta(next, j).version >= w.acked[j]
  {
    forall j | j in w.acked && j != k
      ensures SessionBacked(v, g, next, j) && Meta(next, j).version >= w.acked[j]
    {
      assert KindInv(c, v, w.files, w.session, j, w.acked[j]);
      assert Content(v, g, j, ActiveSlot(next, j)) == Content(v, w.files, j, ActiveSlot(next, j));
    }
  }

  /** A state differing only in check time and generation is backed wherever the session is. */
  lemma MarkedBacks(c: Codec, v: Validator, w: World, g: Files, next: DatabaseState)
    requires Inv(c, v, w) && w.session.Some? && SameSlots(w.files, g)
    requires forall j :: ActiveSlot(next, j) == ActiveSlot(w.session.value, j)
    requires forall j :: Meta(next, j).(lastCheckedAt := 0) == Meta(w.session.value, j).(lastCheckedAt := 0)
    ensures forall j :: j in w.acked ==> SessionBacked(v, g, next, j) && Meta(next, j).version >= w.acked[j]
  {
    forall j | j in w.acked ensures SessionBacked(v, g, next, j) && Meta(next, j).version >= w.acked[j] {
      assert KindInv(c, v, w.files, w.session, j, w.acked[j]);
      assert Content(v, g, j, ActiveSlot(next, j)) == Content(v, w.files, j, ActiveSlot(next, j));
      assert Meta(next, j).version == Meta(next, j).(lastCheckedAt := 0).version;
    }
  }

  function Marked(s: DatabaseState, k: Kind, at: u64): DatabaseState
    requires s.generation < U64_MAX
  {
    WithKind(s, k, ActiveSlot(s, k), Meta(s, k).(lastCheckedAt := at)).(generation := s.generation + 1)
  }

  lemma MarkedMeta(s: DatabaseState, k: Kind, at: u64)
    requires s.generation < U64_MAX
    ensures forall j :: ActiveSlot(Marked(s, k, at), j) == ActiveSlot(s, j)
    ensures forall j :: Meta(Marked(s, k, at), j).(lastCheckedAt := 0) == Meta(s, j).(lastCheckedAt := 0)
  {
  }

  lemma MarkWrites(c: Codec, v: Validator, w: World, next: DatabaseState, o: WriteOutcome)
    requires RoundTrips(c) && StateWriteFault(c, o) && Inv(c, v, w) && w.session.Some?
    requires forall j :: ActiveSlot(next, j) == ActiveSlot(w.session.value, j)
    requires forall j :: Meta(next, j).(lastCheckedAt := 0) == Meta(w.session.value, j).(lastCheckedAt := 0)
    ensures var (f, e) := WriteState(c, w.files, next, o);
      Inv(c, v, World(f, if e.None? then Some(next) else w.session, w.acked))
  {
    var (f, e) := WriteState(c, w.files, next, o);
    WriteStateEffect(c, w.files, next, o);
    MarkedBacks(c, v, w, f, next);
    StateWriteKeeps(c, v, w, next, o);
    if e.None? {
      SwitchKeeps(c, v, w.(files := f), next, w.acked);
    }
  }

  lemma MarkKeeps(c: Codec, v: Validator, w: World, k: Kind, at: u64, o: WriteOutcome)
    requires RoundTrips(c) && StateWriteFault(c, o) && Inv(c, v, w) && w.session.Some?
    ensures Inv(c, v, Step(c, v, w, MarkCall(k, at, o)))
  {
    var s := w.session.value;
    if Meta(s, k).version != 0 && s.generation < U64_MAX {
      MarkedMeta(s, k, at);
      MarkWrites(c, v, w, Marked(s, k, at), o);
    }
  }

  lemma StepKeeps(c: Codec, v: Validator, w: World, e: Event)
    requires RoundTrips(c) && Allowed(c, e) && Inv(c, v, w)
    ensures Inv(c, v, Step(c, v, w, e))
  {
    match e
    case LoadCall(faults) => LoadKeeps(c, v, w, faults);
    case Peek(faults) => assert Load(c, v, w.files, false, faults).0 == w.files;
    case PersistCall(k, bytes, etag, at, faults) =>
      if w.session.Some? { PersistKeeps(c, v, w, k, bytes, etag, at, faults); }
    case MarkCall(k, at, o) =>
      if w.session.Some? { MarkKeeps(c, v, w, k, at, o); }
    case Crash =>
      forall k | k in w.acked ensures KindInv(c, v, w.files, None, k, w.acked[k]) {
        assert KindInv(c, v, w.files, w.session, k, w.acked[k]);
      }
  }

  lemma {:induction false} RunKeeps(c: Codec, v: Validator, ws: seq<World>, es: seq<Event>, i: nat)
    requires RoundTrips(c) && IsRun(c, v, ws, es) && i <= |es|
    ensures Inv(c, v, ws[i])
  {
    if i > 0 {
      RunKeeps(c, v, ws, es, i - 1);
      assert Next(c, v, ws[i - 1], es[i - 1], ws[i]);
      assert Allowed(c, es[i - 1]);
      StepKeeps(c, v, ws[i - 1], es[i - 1]);
    }
  }

  // ---------------------------------------------------------------- the theorems

  lemma StateRecordRoundTrips(sha: Hash)
    ensures RoundTrips(StateRecord(sha))
  {
    var c := StateRecord(sha);
    forall s | c.encode(s).Some? ensures c.decode(c.encode(s).value) == Some(s) {
      DecodeEncode(sha, s);
    }
  }

  /** A load's answer for one kind: validated bytes out of a slot, at least as new as the floor. */
  predicate FreshEnough(v: Validator, files: Files, l: Loaded, k: Kind, floor: u64) {
    && LoadedBytes(l, k).Some?
    && var bytes := LoadedBytes(l, k).value;
    && (exists slot :: SlotPath(k, slot) in files && files[SlotPath(k, slot)] == bytes)
    && v(k, bytes).Some?
    && v(k, bytes).value.version >= floor
    && MetadataMatches(Meta(l.state, k), v(k, bytes).value)
  }

  lemma LoadIsFresh(c: Codec, v: Validator, w: World, repair: bool, faults: LoadFaults)
    requires Inv(c, v, w) && Load(c, v, w.files, repair, faults).1.Ok?
    ensures forall k :: k in w.acked ==>
      FreshEnough(v, w.files, Load(c, v, w.files, repair, faults).1.value, k, w.acked[k])
  {
    var l := Load(c, v, w.files, repair, faults).1.value;
    var stored := Recorded(c, w.files);
    assert stored == StoredState(c, ReadFile(w.files, StatePath, faults.failing).value);
    var trust := LoadKind(v, w.files, Trust, stored, faults.failing).value;
    var revocations := LoadKind(v, w.files, Revocations, stored, faults.failing).value;
    var s := LoadedState(stored, trust, revocations);
    LoadedStateMeta(stored, trust, revocations);
    LoadKindContent(v, w.files, Trust, stored, faults.failing);
    LoadKindContent(v, w.files, Revocations, stored, faults.failing);
    CandidateBacks(c, v, w, Trust, faults.failing, trust, s);
    CandidateBacks(c, v, w, Revocations, faults.failing, revocations, s);
    assert Meta(l.state, Trust) == Meta(s, Trust) && Meta(l.state, Revocations) == Meta(s, Revocations);
  }

  /**
   * No rollback: in every run, from any files, with crashes anywhere and any faults, a
   * load that succeeds (repairing or read-only) returns for each acknowledged kind a
   * validated snapshot at least as new as the last acknowledged one.
   */
  lemma LoadNeverRollsBack(sha: Hash, v: Validator, ws: seq<World>, es: seq<Event>, i: nat,
                           repair: bool, faults: LoadFaults)
    requires IsRun(StateRecord(sha), v, ws, es) && i < |ws|
    requires Load(StateRecord(sha), v, ws[i].files, repair, faults).1.Ok?
    ensures forall k :: k in ws[i].acked ==>
      FreshEnough(v, ws[i].files, Load(StateRecord(sha), v, ws[i].files, repair, faults).1.value, k, ws[i].acked[k])
  {
    StateRecordRoundTrips(sha);
    RunKeeps(StateRecord(sha), v, ws, es, i);
    LoadIsFresh(StateRecord(sha), v, ws[i], repair, faults);
  }

  /** Acknowledged versions never go down and are never forgotten along a run. */
  lemma {:induction false} AckedOnlyGrows(c: Codec, v: Validator, ws: seq<World>, es: seq<Event>, i: nat, j: nat)
    requires RoundTrips(c) && IsRun(c, v, ws, es) && i <= j <= |es|
    ensures forall k :: k in ws[i].acked ==> k in ws[j].acked && ws[j].acked[k] >= ws[i].acked[k]
    decreases j
  {
    if i < j {
      AckedOnlyGrows(c, v, ws, es, i, j - 1);
      RunKeeps(c, v, ws, es, j - 1);
      assert Next(c, v, ws[j - 1], es[j - 1], ws[j]);
      StepAcks(c, v, ws[j - 1], es[j - 1]);
    }
  }

  lemma StepAcks(c: Codec, v: Validator, w: World, e: Event)
    requires Inv(c, v, w)
    ensures var w' := Step(c, v, w, e);
      forall k :: k in w.acked ==> k in w'.acked && w'.acked[k] >= w.acked[k]
  {
    match e
    case LoadCall(faults) =>
      if Load(c, v, w.files, true, faults).1.Ok? {
        LoadIsFresh(c, v, w, true, faults);
      }
    case PersistCall(k, bytes, etag, at, faults) =>
      if k in w.acked { assert KindInv(c, v, w.files, w.session, k, w.acked[k]); }
    case _ =>
  }
}
