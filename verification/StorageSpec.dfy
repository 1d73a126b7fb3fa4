/**
 * The A/B-slot snapshot store on values: the files, the caller's state, and what each
 * operation does to them, under any fault of the medium. Faults are inputs.
 */
module StorageSpec {
  import opened Machine
  import opened StateCodec

  datatype Kind = Trust | Revocations

  datatype Path = StatePath | SlotPath(kind: Kind, slot: Slot)

  type Files = map<Path, seq<byte>>

  datatype Validated = Validated(version: u64, generatedAt: u64, expiresAt: u64)

  /** The snapshot validator: a fixed function of the kind and the bytes. */
  type Validator = (Kind, seq<byte>) -> Option<Validated>

  datatype StorageError =
    | Backend | InvalidSnapshot | SnapshotRollback | WriteBackMismatch | StateEncoding | GenerationOverflow

  /**
   * What one synchronous write does. It truncates first, so a failing write can leave
   * any bytes; `Unopened` fails before touching the file; `Unsynced` stores everything
   * and still reports failure; `Misstored` stores other bytes and reports success.
   */
  datatype WriteOutcome =
    | Stored
    | Unopened
    | Unsynced
    | Torn(left: seq<byte>)
    | Misstored(left: seq<byte>)

  function Write(files: Files, path: Path, bytes: seq<byte>, o: WriteOutcome): (Files, bool) {
    match o
    case Stored => (files[path := bytes], true)
    case Unopened => (files, false)
    case Unsynced => (files[path := bytes], false)
    case Torn(left) => (files[path := left], false)
    case Misstored(left) => (files[path := left], true)
  }

  /** A read fails, or yields the file's bytes or nothing. */
  function ReadFile(files: Files, path: Path, failing: set<Path>): Result<Option<seq<byte>>, StorageError> {
    if path in failing then Err(Backend)
    else if path in files then Ok(Some(files[path]))
    else Ok(None)
  }

  function ActiveSlot(s: DatabaseState, k: Kind): Slot {
    if k == Trust then s.trustSlot else s.revocationSlot
  }

  function Meta(s: DatabaseState, k: Kind): Metadata {
    if k == Trust then s.trust else s.revocations
  }

  function WithKind(s: DatabaseState, k: Kind, slot: Slot, m: Metadata): DatabaseState {
    if k == Trust then s.(trustSlot := slot, trust := m)
    else s.(revocationSlot := slot, revocations := m)
  }

  predicate MetadataMatches(m: Metadata, v: Validated) {
    m.version == v.version && m.generatedAt == v.generatedAt && m.expiresAt == v.expiresAt
  }

  /** The state record's codec, as the store uses it. */
  datatype Codec = Codec(encode: DatabaseState -> Option<seq<byte>>, decode: seq<byte> -> Option<DatabaseState>)

  function StateRecord(sha: Hash): Codec {
    Codec(s => var r := Encode(sha, s); if r.Ok? then Some(r.value) else None,
          b => var r := Decode(sha, b); if r.Ok? then Some(r.value) else None)
  }

  /** The state write, and its error if it fails. */
  function WriteState(c: Codec, files: Files, s: DatabaseState, o: WriteOutcome): (Files, Option<StorageError>) {
    var encoded := c.encode(s);
    if encoded.None? then (files, Some(StateEncoding))
    else
      var (f, ok) := Write(files, StatePath, encoded.value, o);
      (f, if ok then None else Some(Backend))
  }

  datatype Candidate = Candidate(slot: Slot, v: Validated, bytes: seq<byte>)

  function LoadCandidate(v: Validator, files: Files, k: Kind, slot: Slot, failing: set<Path>)
    : Result<Option<Candidate>, StorageError>
  {
    var read := ReadFile(files, SlotPath(k, slot), failing);
    if read.Err? then Err(read.error)
    else if read.value.None? then Ok(None)
    else
      var checked := v(k, read.value.value);
      if checked.None? then Ok(None) else Ok(Some(Candidate(slot, checked.value, read.value.value)))
  }

  function Newest(first: Option<Candidate>, second: Option<Candidate>): Option<Candidate> {
    if first.Some? && second.Some? then
      var f, s := first.value.v, second.value.v;
      if s.version > f.version || (s.version == f.version && s.generatedAt > f.generatedAt) then second else first
    else if first.Some? then first
    else second
  }

  function LoadKind(v: Validator, files: Files, k: Kind, stored: Option<DatabaseState>, failing: set<Path>)
    : Result<Option<Candidate>, StorageError>
  {
    var slot := if stored.Some? then ActiveSlot(stored.value, k) else A;
    var first := LoadCandidate(v, files, k, slot, failing);
    if first.Err? then first
    else if stored.Some? && first.value.Some? && MetadataMatches(Meta(stored.value, k), first.value.value.v) then first
    else
      var second := LoadCandidate(v, files, k, Inactive(slot), failing);
      if second.Err? then second else Ok(Newest(first.value, second.value))
  }

  function LoadedMetadata(before: Metadata, c: Candidate): Metadata {
    var m := Metadata(c.v.version, c.v.generatedAt, c.v.expiresAt, 0, []);
    if MetadataMatches(before, c.v) then m.(lastCheckedAt := before.lastCheckedAt, etag := before.etag) else m
  }

  /** The state with one kind taken from its candidate. */
  function ApplyLoaded(s: DatabaseState, k: Kind, c: Option<Candidate>): DatabaseState {
    if c.Some? then WithKind(s, k, c.value.slot, LoadedMetadata(Meta(s, k), c.value))
    else WithKind(s, k, A, EMPTY)
  }

  function StoredState(c: Codec, bytes: Option<seq<byte>>): Option<DatabaseState> {
    if bytes.None? then None else c.decode(bytes.value)
  }

  datatype Loaded = Loaded(
    state: DatabaseState, trust: Option<seq<byte>>, revocations: Option<seq<byte>>, recovered: bool)

  /** failing: paths whose read fails; refused: kinds whose activation fails. */
  datatype LoadFaults = LoadFaults(failing: set<Path>, refused: set<Kind>, stateWrite: WriteOutcome)

  function CandidateBytes(c: Option<Candidate>): Option<seq<byte>> {
    if c.Some? then Some(c.value.bytes) else None
  }

  /** The repair step, once both kinds are loaded. */
  function Repair(c: Codec, files: Files, stored: Option<DatabaseState>,
                  trust: Option<Candidate>, revocations: Option<Candidate>,
                  repair: bool, o: WriteOutcome): (Files, Result<Loaded, StorageError>)
  {
    var base := if stored.Some? then stored.value else DEFAULT_STATE;
    var s := ApplyLoaded(ApplyLoaded(base, Trust, trust), Revocations, revocations);
    var recovered := stored.None? || s != base;
    var loaded := Loaded(s, CandidateBytes(trust), CandidateBytes(revocations), recovered);
    if !recovered || !repair then (files, Ok(loaded))
    else if s.generation == U64_MAX then (files, Err(GenerationOverflow))
    else
      var next := s.(generation := s.generation + 1);
      var (f, e) := WriteState(c, files, next, o);
      (f, if e.Some? then Err(e.value) else Ok(loaded.(state := next)))
  }

  function Load(c: Codec, v: Validator, files: Files, repair: bool, faults: LoadFaults)
    : (Files, Result<Loaded, StorageError>)
  {
    var read := ReadFile(files, StatePath, faults.failing);
    if read.Err? then (files, Err(read.error))
    else
      var stored := StoredState(c, read.value);
      var trust := LoadKind(v, files, Trust, stored, faults.failing);
      if trust.Err? then (files, Err(trust.error))
      else if trust.value.Some? && Trust in faults.refused then (files, Err(InvalidSnapshot))
      else
        var revocations := LoadKind(v, files, Revocations, stored, faults.failing);
        if revocations.Err? then (files, Err(revocations.error))
        else if revocations.value.Some? && Revocations in faults.refused then (files, Err(InvalidSnapshot))
        else Repair(c, files, stored, trust.value, revocations.value, repair, faults.stateWrite)
  }

  datatype PersistFaults = PersistFaults(slotWrite: WriteOutcome, readFails: bool, stateWrite: WriteOutcome)

  /** The state a successful persist moves to. */
  function Advanced(s: DatabaseState, k: Kind, checked: Validated, etag: seq<byte>, at: u64): DatabaseState
    requires s.generation < U64_MAX
  {
    WithKind(s, k, Inactive(ActiveSlot(s, k)),
             Metadata(checked.version, checked.generatedAt, checked.expiresAt, at, etag))
    .(generation := s.generation + 1)
  }

  function Persist(c: Codec, v: Validator, files: Files, s: DatabaseState, k: Kind,
                   bytes: seq<byte>, etag: seq<byte>, at: u64, faults: PersistFaults)
    : (Files, DatabaseState, Result<Slot, StorageError>)
  {
    var checked := v(k, bytes);
    if checked.None? then (files, s, Err(InvalidSnapshot))
    else if Meta(s, k).version != 0 && checked.value.version <= Meta(s, k).version then
      (files, s, Err(SnapshotRollback))
    else
      var target := Inactive(ActiveSlot(s, k));
      var (f, ok) := Write(files, SlotPath(k, target), bytes, faults.slotWrite);
      if !ok || faults.readFails then (f, s, Err(Backend))
      else if SlotPath(k, target) !in f || f[SlotPath(k, target)] != bytes then (f, s, Err(WriteBackMismatch))
      else if s.generation == U64_MAX then (f, s, Err(GenerationOverflow))
      else
        var next := Advanced(s, k, checked.value, etag, at);
        var (g, e) := WriteState(c, f, next, faults.stateWrite);
        if e.Some? then (g, s, Err(e.value)) else (g, next, Ok(target))
  }

  function MarkChecked(c: Codec, files: Files, s: DatabaseState, k: Kind, at: u64, o: WriteOutcome)
    : (Files, DatabaseState, Result<(), StorageError>)
  {
    if Meta(s, k).version == 0 then (files, s, Err(InvalidSnapshot))
    else if s.generation == U64_MAX then (files, s, Err(GenerationOverflow))
    else
      var next := WithKind(s, k, ActiveSlot(s, k), Meta(s, k).(lastCheckedAt := at))
                  .(generation := s.generation + 1);
      var (f, e) := WriteState(c, files, next, o);
      if e.Some? then (f, s, Err(e.value)) else (f, next, Ok(()))
  }
}
