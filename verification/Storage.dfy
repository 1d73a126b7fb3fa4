/** The store's operations on a backend and a caller's state, both changed in place. */
module Storage {
  import opened Machine
  import opened StateCodec
  import opened StorageSpec

  class BackendFiles {
    var files: Files

    method Read(path: Path, fails: bool) returns (r: Result<Option<seq<byte>>, StorageError>)
      ensures r == ReadFile(files, path, if fails then {path} else {})
    {
      if fails {
        return Err(Backend);
      }
      return Ok(if path in files then Some(files[path]) else None);
    }

    method WriteSync(path: Path, bytes: seq<byte>, o: WriteOutcome) returns (ok: bool)
      modifies this
      ensures (files, ok) == Write(old(files), path, bytes, o)
    {
      match o {
        case Stored => files := files[path := bytes]; ok := true;
        case Unopened => ok := false;
        case Unsynced => files := files[path := bytes]; ok := false;
        case Torn(left) => files := files[path := left]; ok := false;
        case Misstored(left) => files := files[path := left]; ok := true;
      }
    }
  }

  class Session {
    var state: DatabaseState
  }

  method WriteStateTo(c: Codec, backend: BackendFiles, s: DatabaseState, o: WriteOutcome)
    returns (e: Option<StorageError>)
    modifies backend
    ensures (backend.files, e) == WriteState(c, old(backend.files), s, o)
  {
    var encoded := c.encode(s);
    if encoded.None? {
      return Some(StateEncoding);
    }
    var ok := backend.WriteSync(StatePath, encoded.value, o);
    return if ok then None else Some(Backend);
  }

  method LoadCandidateFrom(v: Validator, backend: BackendFiles, k: Kind, slot: Slot, failing: set<Path>)
    returns (r: Result<Option<Candidate>, StorageError>)
    ensures r == LoadCandidate(v, backend.files, k, slot, failing)
  {
    var read := backend.Read(SlotPath(k, slot), SlotPath(k, slot) in failing);
    if read.Err? {
      return Err(read.error);
    }
    if read.value.None? {
      return Ok(None);
    }
    var checked := v(k, read.value.value);
    return Ok(if checked.None? then None else Some(Candidate(slot, checked.value, read.value.value)));
  }

  method LoadKindFrom(v: Validator, backend: BackendFiles, k: Kind, stored: Option<DatabaseState>, failing: set<Path>)
    returns (r: Result<Option<Candidate>, StorageError>)
    ensures r == LoadKind(v, backend.files, k, stored, failing)
  {
    var slot := if stored.Some? then ActiveSlot(stored.value, k) else A;
    var first := LoadCandidateFrom(v, backend, k, slot, failing);
    if first.Err? {
      return first;
    }
    if stored.Some? && first.value.Some? && MetadataMatches(Meta(stored.value, k), first.value.value.v) {
      return first;
    }
    var second := LoadCandidateFrom(v, backend, k, Inactive(slot), failing);
    if second.Err? {
      return second;
    }
    return Ok(Newest(first.value, second.value));
  }

  /** Updates one kind of the state; the result is whether anything changed. */
  method ApplyLoadedTo(session: Session, k: Kind, c: Option<Candidate>) returns (changed: bool)
    modifies session
    ensures session.state == ApplyLoaded(old(session.state), k, c)
    ensures changed <==> session.state != old(session.state)
  {
    var oldSlot, oldMeta := ActiveSlot(session.state, k), Meta(session.state, k);
    var slot, meta := A, EMPTY;
    if c.Some? {
      slot, meta := c.value.slot, Metadata(c.value.v.version, c.value.v.generatedAt, c.value.v.expiresAt, 0, []);
      if MetadataMatches(oldMeta, c.value.v) {
        meta := meta.(lastCheckedAt := oldMeta.lastCheckedAt, etag := oldMeta.etag);
      }
    }
    session.state := WithKind(session.state, k, slot, meta);
    changed := oldSlot != slot || oldMeta != meta;
  }

  method LoadDatabase(c: Codec, v: Validator, backend: BackendFiles, repair: bool, faults: LoadFaults)
    returns (r: Result<Loaded, StorageError>)
    modifies backend
    ensures (backend.files, r) == Load(c, v, old(backend.files), repair, faults)
  {
    var read := backend.Read(StatePath, StatePath in faults.failing);
    if read.Err? {
      return Err(read.error);
    }
    var stored := StoredState(c, read.value);
    var trust := LoadKindFrom(v, backend, Trust, stored, faults.failing);
    if trust.Err? {
      return Err(trust.error);
    }
    if trust.value.Some? && Trust in faults.refused {
      return Err(InvalidSnapshot);
    }
    var revocations := LoadKindFrom(v, backend, Revocations, stored, faults.failing);
    if revocations.Err? {
      return Err(revocations.error);
    }
    if revocations.value.Some? && Revocations in faults.refused {
      return Err(InvalidSnapshot);
    }
    r := FinishLoad(c, backend, stored, trust.value, revocations.value, repair, faults.stateWrite);
  }

  method FinishLoad(c: Codec, backend: BackendFiles, stored: Option<DatabaseState>,
                    trust: Option<Candidate>, revocations: Option<Candidate>, repair: bool, o: WriteOutcome)
    returns (r: Result<Loaded, StorageError>)
    modifies backend
    ensures (backend.files, r) == Repair(c, old(backend.files), stored, trust, revocations, repair, o)
  {
    var session := new Session;
    session.state := if stored.Some? then stored.value else DEFAULT_STATE;
    ghost var base := session.state;
    var recovered := stored.None?;
    var changed := ApplyLoadedTo(session, Trust, trust);
    recovered := recovered || changed;
    changed := ApplyLoadedTo(session, Revocations, revocations);
    recovered := recovered || changed;
    assert recovered <==> stored.None? || session.state != base;
    if recovered && repair {
      if session.state.generation == U64_MAX {
        return Err(GenerationOverflow);
      }
      session.state := session.state.(generation := session.state.generation + 1);
      var e := WriteStateTo(c, backend, session.state, o);
      if e.Some? {
        return Err(e.value);
      }
    }
    return Ok(Loaded(session.state, CandidateBytes(trust), CandidateBytes(revocations), recovered));
  }

  method PersistSnapshot(c: Codec, v: Validator, backend: BackendFiles, session: Session, k: Kind,
                         bytes: seq<byte>, etag: seq<byte>, at: u64, faults: PersistFaults)
    returns (r: Result<Slot, StorageError>)
    modifies backend, session
    ensures (backend.files, session.state, r)
         == Persist(c, v, old(backend.files), old(session.state), k, bytes, etag, at, faults)
  {
    var checked := v(k, bytes);
    if checked.None? {
      return Err(InvalidSnapshot);
    }
    var current := Meta(session.state, k);
    if current.version != 0 && checked.value.version <= current.version {
      return Err(SnapshotRollback);
    }
    var target := Inactive(ActiveSlot(session.state, k));
    var path := SlotPath(k, target);
    var ok := backend.WriteSync(path, bytes, faults.slotWrite);
    if !ok {
      return Err(Backend);
    }
    var written := backend.Read(path, faults.readFails);
    if written.Err? {
      return Err(written.error);
    }
    if written.value.None? || written.value.value != bytes {
      return Err(WriteBackMismatch);
    }
    if v(k, written.value.value) != checked {
      return Err(WriteBackMismatch);
    }
    if session.state.generation == U64_MAX {
      return Err(GenerationOverflow);
    }
    var next := Advanced(session.state, k, checked.value, etag, at);
    var e := WriteStateTo(c, backend, next, faults.stateWrite);
    if e.Some? {
      return Err(e.value);
    }
    session.state := next;
    return Ok(target);
  }

  method MarkCheckedAt(c: Codec, backend: BackendFiles, session: Session, k: Kind, at: u64, o: WriteOutcome)
    returns (r: Result<(), StorageError>)
    modifies backend, session
    ensures (backend.files, session.state, r)
         == MarkChecked(c, old(backend.files), old(session.state), k, at, o)
  {
    if Meta(session.state, k).version == 0 {
      return Err(InvalidSnapshot);
    }
    if session.state.generation == U64_MAX {
      return Err(GenerationOverflow);
    }
    var next := WithKind(session.state, k, ActiveSlot(session.state, k),
                         Meta(session.state, k).(lastCheckedAt := at))
                .(generation := session.state.generation + 1);
    var e := WriteStateTo(c, backend, next, o);
    if e.Some? {
      return Err(e.value);
    }
    session.state := next;
    return Ok(());
  }
}
