/**
 * The one answer that is not a floor: a read-only load can show a version whose state write
 * failed, and a later failing persist can take it away again.
 */
module ReadOnlyLoad {
  import opened Machine
  import opened StateCodec
  import opened StorageSpec
  import opened NoRollback
  import opened ShownFloor

  /** Snapshots of one byte, their version. */
  function OneByte(k: Kind, bytes: seq<byte>): Option<Validated> {
    if |bytes| == 1 then Some(Validated(bytes[0], 0, 0)) else None
  }

  /** The state with trust version v in a slot, written as generation g. */
  function StateAt(slot: Slot, v: byte, g: u64): DatabaseState {
    DatabaseState(g, slot, A, Metadata(v, 0, 0, 0, []), EMPTY)
  }

  function Start(): World {
    World(map[SlotPath(Trust, A) := [3]], None, map[])
  }

  function Record(c: Codec, s: DatabaseState): seq<byte> {
    if c.encode(s).Some? then c.encode(s).value else []
  }

  function Loaded3(c: Codec): World {
    World(map[SlotPath(Trust, A) := [3], StatePath := Record(c, StateAt(A, 3, 1))], Some(StateAt(A, 3, 1)), map[Trust := 3])
  }

  /** Version 5 is in slot B and in the record, but its persist reported failure. */
  function Shown5(c: Codec): World {
    World(map[SlotPath(Trust, A) := [3], SlotPath(Trust, B) := [5], StatePath := Record(c, StateAt(B, 5, 2))],
          Some(StateAt(A, 3, 1)), map[Trust := 3])
  }

  /** Then a persist of version 4 tore slot B. */
  function Torn4(c: Codec): World {
    World(map[SlotPath(Trust, A) := [3], SlotPath(Trust, B) := [], StatePath := Record(c, StateAt(B, 5, 2))],
          Some(StateAt(A, 3, 1)), map[Trust := 3])
  }

  const PERSIST5 := PersistCall(Trust, [5], [], 0, PersistFaults(Stored, false, Unsynced))
  const PERSIST4 := PersistCall(Trust, [4], [], 0, PersistFaults(Torn([]), false, Stored))

  /** The two states of the run can be written and read back. */
  ghost predicate Fits(c: Codec) {
    && RoundTrips(c) && c.encode(StateAt(A, 3, 1)).Some? && c.encode(StateAt(B, 5, 2)).Some?
  }

  lemma FirstLoad(c: Codec)
    requires Fits(c)
    ensures Next(c, OneByte, Start(), LoadCall(NO_FAULTS), Loaded3(c))
  {
    var trust := Candidate(A, Validated(3, 0, 0), [3]);
    assert LoadKind(OneByte, Start().files, Trust, None, {}) == Ok(Some(trust));
    assert LoadKind(OneByte, Start().files, Revocations, None, {}) == Ok(None);
    assert ApplyLoaded(ApplyLoaded(DEFAULT_STATE, Trust, Some(trust)), Revocations, None) == StateAt(A, 3, 0);
  }

  lemma FailingPersist(c: Codec)
    requires Fits(c)
    ensures Next(c, OneByte, Loaded3(c), PERSIST5, Shown5(c))
  {
    assert Advanced(StateAt(A, 3, 1), Trust, Validated(5, 0, 0), [], 0) == StateAt(B, 5, 2);
  }

  lemma TornPersist(c: Codec)
    requires Fits(c)
    ensures Next(c, OneByte, Shown5(c), PERSIST4, Torn4(c))
  {
  }

  lemma ShowsFive(c: Codec)
    requires Fits(c)
    ensures Shown(c, Shown5(c).files) == Some([5])
  {
    var stored := Some(StateAt(B, 5, 2));
    assert StoredState(c, Some(Record(c, StateAt(B, 5, 2)))) == stored;
    assert LoadKind(OneByte, Shown5(c).files, Trust, stored, {}) == Ok(Some(Candidate(B, Validated(5, 0, 0), [5])));
    assert LoadKind(OneByte, Shown5(c).files, Revocations, stored, {}) == Ok(None);
  }

  lemma ShowsThree(c: Codec)
    requires Fits(c)
    ensures Shown(c, Torn4(c).files) == Some([3])
  {
    var stored := Some(StateAt(B, 5, 2));
    assert StoredState(c, Some(Record(c, StateAt(B, 5, 2)))) == stored;
    assert LoadKind(OneByte, Torn4(c).files, Trust, stored, {}) == Ok(Some(Candidate(A, Validated(3, 0, 0), [3])));
    assert LoadKind(OneByte, Torn4(c).files, Revocations, stored, {}) == Ok(None);
  }

  /** What a read-only load of these files answers for the trust snapshot. */
  function Shown(c: Codec, files: Files): Option<seq<byte>> {
    var r := Load(c, OneByte, files, false, NO_FAULTS).1;
    if r.Ok? then r.value.trust else None
  }

  function Worlds(c: Codec): seq<World> { [Start(), Loaded3(c), Shown5(c), Torn4(c)] }

  function Events(): seq<Event> { [LoadCall(NO_FAULTS), PERSIST5, PERSIST4] }

  lemma FitsStateRecord(sha: Hash)
    ensures Fits(StateRecord(sha))
  {
    StateRecordRoundTrips(sha);
    assert Storable(StateAt(A, 3, 1)) && Storable(StateAt(B, 5, 2));
  }

  lemma ThreeSteps(c: Codec, ws: seq<World>, es: seq<Event>)
    requires |ws| == 4 && |es| == 3 && ws[0].session == None && ws[0].acked == map[]
    requires Next(c, OneByte, ws[0], es[0], ws[1])
    requires Next(c, OneByte, ws[1], es[1], ws[2])
    requires Next(c, OneByte, ws[2], es[2], ws[3])
    requires Allowed(c, es[0]) && Allowed(c, es[1]) && Allowed(c, es[2])
    ensures IsRun(c, OneByte, ws, es)
  {
    forall i | 0 <= i < |es| ensures Next(c, OneByte, ws[i], es[i], ws[i + 1]) {
      if i == 0 {} else if i == 1 {} else { assert i == 2; }
    }
  }

  lemma WorldsRun(c: Codec)
    requires Fits(c)
    ensures IsRun(c, OneByte, Worlds(c), Events())
  {
    FirstLoad(c);
    FailingPersist(c);
    TornPersist(c);
    ThreeSteps(c, Worlds(c), Events());
  }

  /** A run in which a read-only load shows version 5 and a later load shows version 3. */
  lemma ReadOnlyIsNoFloor(sha: Hash)
    ensures IsRun(StateRecord(sha), OneByte, Worlds(StateRecord(sha)), Events())
    ensures Shown(StateRecord(sha), Worlds(StateRecord(sha))[2].files) == Some([5])
    ensures Shown(StateRecord(sha), Worlds(StateRecord(sha))[3].files) == Some([3])
  {
    FitsStateRecord(sha);
    WorldsRun(StateRecord(sha));
    ShowsFive(StateRecord(sha));
    ShowsThree(StateRecord(sha));
  }
}
