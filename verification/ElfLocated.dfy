/** Exactly when a file holds one signature record or one manifest, and what signing and embedding refuse. */
module ElfLocated {
  import opened Machine
  import opened Text
  import opened ElfSpec
  import opened ElfNames
  import opened ElfAgree
  import opened ElfAccepted
  import opened ElfTheorems

  // ---------------------------------------------------------------- notes

  /** The smallest multiple of four not below a number. */
  predicate RoundedUp(x: nat, y: nat) {
    y % 4 == 0 && x <= y < x + 4
  }

  /** A signature note: its type, its name, and a descriptor of 146 bytes between zero padding. */
  predicate OursFine(b: Bytes, nameEnd: nat, n: Note, descriptorEnd: nat) {
    && n.descriptor + 146 == descriptorEnd && nameEnd <= n.descriptor && descriptorEnd <= n.next <= |b|
    && (forall i :: nameEnd <= i < n.descriptor ==> b[i] == 0)
    && (forall i :: descriptorEnd <= i < n.next ==> b[i] == 0)
  }

  predicate NameIsOurs(b: Bytes, at: nat, size: nat) {
    size == 8 && at + 8 <= |b| && b[at..at + 8] == [109, 111, 99, 104, 105, 79, 83, 0]
  }

  /** The note that starts at a cursor: twelve bytes of sizes and type, the name, the descriptor, each padded to four. */
  predicate NoteFine(b: Bytes, cursor: nat, end: nat, n: Note) {
    && cursor + 12 <= end <= |b|
    && var nameEnd, descriptorEnd := cursor + 12 + Le(b, cursor, 4), n.descriptor + Le(b, cursor + 4, 4);
       && RoundedUp(nameEnd, n.descriptor) && RoundedUp(descriptorEnd, n.next) && n.next <= end
       && (n.ours <==> Le(b, cursor + 8, 4) == 0x4d53_4947 && NameIsOurs(b, cursor + 12, Le(b, cursor, 4)))
       && (n.ours ==> OursFine(b, nameEnd, n, descriptorEnd))
  }

  lemma NoteExactly(b: Bytes, cursor: nat, end: nat, n: Note)
    requires cursor < end <= |b|
    ensures NoteAt(b, cursor, end) == Good(n) <==> NoteFine(b, cursor, end, n)
  {
    if cursor + 12 <= end {
      NoteFromExactly(b, cursor + 12, end, Le(b, cursor, 4), Le(b, cursor + 4, 4), Le(b, cursor + 8, 4), n);
    }
  }

  lemma NoteFromExactly(b: Bytes, at: nat, end: nat, namesz: nat, descsz: nat, kind: nat, n: Note)
    requires at <= end <= |b|
    ensures NoteFrom(b, at, end, namesz, descsz, kind) == Good(n)
       <==> && RoundedUp(at + namesz, n.descriptor) && RoundedUp(n.descriptor + descsz, n.next) && n.next <= end
            && (n.ours <==> kind == 0x4d53_4947 && NameIsOurs(b, at, namesz))
            && (n.ours ==> OursFine(b, at + namesz, n, n.descriptor + descsz))
  {
    if at + namesz <= end {
      assert b[at..at + namesz] == NOTE_NAME <==> NameIsOurs(b, at, namesz) by { assert |NOTE_NAME| == 8; }
    }
    RoundUnique(at + namesz, Align4(at + namesz), n.descriptor);
    RoundUnique(n.descriptor + descsz, Align4(n.descriptor + descsz), n.next);
    if at + namesz <= n.descriptor <= n.descriptor + descsz <= n.next <= |b| {
      ZeroBytes(b, at + namesz, n.descriptor);
      ZeroBytes(b, n.descriptor + descsz, n.next);
    }
  }

  lemma RoundUnique(x: nat, y: nat, z: nat)
    requires RoundedUp(x, y)
    ensures RoundedUp(x, z) <==> z == y
  {
  }

  lemma ZeroBytes(b: Bytes, lo: nat, hi: nat)
    requires lo <= hi <= |b|
    ensures AllZero(b[lo..hi]) <==> forall i :: lo <= i < hi ==> b[i] == 0
  {
    if AllZero(b[lo..hi]) { forall i | lo <= i < hi ensures b[i] == 0 { assert b[lo..hi][i - lo] == 0; } }
  }

  /** Notes one behind the other up to the end of an area. */
  predicate Tiles(b: Bytes, cursor: nat, end: nat, notes: seq<Note>)
    decreases |notes|
  {
    if notes == [] then cursor >= end
    else cursor < end && NoteFine(b, cursor, end, notes[0]) && Tiles(b, notes[0].next, end, notes[1..])
  }

  /** The descriptors of the signature notes among them. */
  function OwnDescriptors(notes: seq<Note>): seq<nat> {
    if notes == [] then [] else (if notes[0].ours then [notes[0].descriptor] else []) + OwnDescriptors(notes[1..])
  }

  lemma {:induction false} NotesTile(b: Bytes, cursor: nat, end: nat) returns (notes: seq<Note>)
    requires end <= |b| && Notes(b, cursor, end).Good?
    ensures Tiles(b, cursor, end, notes) && Notes(b, cursor, end) == Good(OwnDescriptors(notes))
    decreases end - cursor
  {
    notes := [];
    if cursor < end {
      var n := NoteAt(b, cursor, end).value;
      NoteExactly(b, cursor, end, n);
      var rest := NotesTile(b, n.next, end);
      notes := [n] + rest;
      assert notes[1..] == rest;
    }
  }

  lemma {:induction false} TilesRead(b: Bytes, cursor: nat, end: nat, notes: seq<Note>)
    requires end <= |b| && Tiles(b, cursor, end, notes)
    ensures Notes(b, cursor, end) == Good(OwnDescriptors(notes))
    decreases |notes|
  {
    if notes != [] {
      NoteExactly(b, cursor, end, notes[0]);
      TilesRead(b, notes[0].next, end, notes[1..]);
    }
  }

  /** An area is read exactly when notes tile it, and yields the descriptors of the signature notes. */
  lemma NotesExactly(b: Bytes, cursor: nat, end: nat, ds: seq<nat>)
    requires end <= |b|
    ensures Notes(b, cursor, end) == Good(ds)
       <==> exists notes: seq<Note> :: Tiles(b, cursor, end, notes) && ds == OwnDescriptors(notes)
  {
    if Notes(b, cursor, end) == Good(ds) { var notes := NotesTile(b, cursor, end); }
    if exists notes: seq<Note> :: Tiles(b, cursor, end, notes) && ds == OwnDescriptors(notes) {
      var notes: seq<Note> :| Tiles(b, cursor, end, notes) && ds == OwnDescriptors(notes);
      TilesRead(b, cursor, end, notes);
    }
  }

  // ---------------------------------------------------------------- isolation, byte by byte

  predicate Inside(p: nat, r: Range) {
    r.lo <= p < r.hi
  }

  /** Two non-empty ranges overlap exactly when they share a byte. */
  lemma OverlapIsShared(a: Range, b: Range)
    requires a.lo < a.hi && b.lo < b.hi
    ensures Overlaps(a, b) <==> exists p :: Inside(p, a) && Inside(p, b)
  {
    if Overlaps(a, b) {
      var p := if a.lo <= b.lo then b.lo else a.lo;
      assert Inside(p, a) && Inside(p, b);
    }
  }

  predicate Disjoint(a: Range, b: Range) {
    forall p :: a.lo <= p < a.hi ==> !Inside(p, b)
  }

  lemma DisjointExactly(a: Range, b: Range)
    requires a.lo < a.hi && b.lo < b.hi
    ensures !Overlaps(a, b) <==> Disjoint(a, b)
  {
    OverlapIsShared(a, b);
  }

  /** The bytes a section has in the file. */
  function Extent(s: Section): Range {
    Range(s.offset, s.offset + s.size)
  }

  /** No byte of a range is used by a header, a table, a loaded segment, or a stored section but one. */
  ghost predicate Unused(e: Elf, d: Range, index: nat) {
    && Disjoint(d, Range(0, 64)) && Disjoint(d, e.sectionTable)
    && (e.programTable.Some? ==> Disjoint(d, e.programTable.value))
    && (forall r :: r in e.programs.loads ==> Disjoint(d, r))
    && (forall i :: 0 <= i < |e.sections| && i != index && e.sections[i].kind != 8 && e.sections[i].size > 0 ==>
          Disjoint(d, Extent(e.sections[i])))
  }

  /** The tables and loaded segments of a file are not empty. */
  predicate Solid(e: Elf) {
    && e.sectionTable.lo < e.sectionTable.hi
    && (e.programTable.Some? ==> e.programTable.value.lo < e.programTable.value.hi)
    && (forall r :: r in e.programs.loads ==> r.lo < r.hi)
  }

  lemma LoadsSolid(b: Bytes, at: nat, n: nat, p: Programs)
    requires at + 56 * n <= |b| && Collects(b, at, n, p)
    ensures forall r :: r in p.loads ==> r.lo < r.hi
  {
    forall r | r in p.loads ensures r.lo < r.hi {
      var i :| 0 <= i < n && LoadRange(b, at, i, r);
    }
  }

  lemma DescribedSolid(e: Elf, b: Bytes, limits: Limits, ss: seq<Section>, shstr: Bytes)
    requires Describes(e, b, limits, ss, shstr) && Le(b, 60, 2) > 0
    ensures Solid(e)
  {
    LoadsSolid(b, Le(b, 32, 8), Le(b, 56, 2), e.programs);
  }

  lemma ParsedSolid(b: Bytes, limits: Limits, e: Elf)
    requires ParseElf(b, limits) == Good(e)
    ensures Solid(e)
  {
    ParsedSays(b, limits, e);
    DescribedSolid(e, b, limits, e.sections, e.shstr);
  }

  /** What the overlap tests of a file leave unused. */
  predicate Clear(e: Elf, d: Range, index: nat) {
    && !Overlaps(d, Range(0, HEADER_LEN)) && !Overlaps(d, e.sectionTable)
    && (e.programTable.Some? ==> !Overlaps(d, e.programTable.value))
    && (forall i :: 0 <= i < |e.programs.loads| ==> !Overlaps(d, e.programs.loads[i]))
    && (forall i :: 0 <= i < |e.sections| && i != index && FileBacked(e.sections[i]) && e.sections[i].size != 0 ==>
          !Overlaps(d, Extent(e.sections[i])))
  }

  lemma ClearExactly(e: Elf, d: Range, index: nat)
    requires Solid(e) && d.lo < d.hi
    ensures Clear(e, d, index) <==> Unused(e, d, index)
  {
    DisjointExactly(d, Range(0, 64));
    DisjointExactly(d, e.sectionTable);
    if e.programTable.Some? { DisjointExactly(d, e.programTable.value); }
    forall i | 0 <= i < |e.programs.loads|
      ensures !Overlaps(d, e.programs.loads[i]) <==> Disjoint(d, e.programs.loads[i])
    {
      assert e.programs.loads[i] in e.programs.loads;
      DisjointExactly(d, e.programs.loads[i]);
    }
    forall i | 0 <= i < |e.sections| && e.sections[i].size != 0
      ensures !Overlaps(d, Extent(e.sections[i])) <==> Disjoint(d, Extent(e.sections[i]))
    {
      DisjointExactly(d, Extent(e.sections[i]));
    }
  }

  // ---------------------------------------------------------------- the record

  /** One section, and only one, has the name. */
  predicate OnlyNamed(ss: seq<Section>, name: Bytes, index: nat) {
    index < |ss| && forall j :: 0 <= j < |ss| ==> (ss[j].name == name <==> j == index)
  }

  lemma {:induction false} NamedSorted(ss: seq<Section>, name: Bytes, n: nat, i: nat, j: nat)
    requires n <= |ss| && i < j < |Named(ss, name, n)|
    ensures Named(ss, name, n)[i] < Named(ss, name, n)[j]
    decreases n
  {
    NamedShape(ss, name, n - 1);
    var before := Named(ss, name, n - 1);
    if j < |before| {
      NamedSorted(ss, name, n - 1, i, j);
    } else {
      assert before[i] in before;
    }
  }

  lemma NamedExactly(ss: seq<Section>, name: Bytes, index: nat)
    ensures Named(ss, name, |ss|) == [index] <==> OnlyNamed(ss, name, index)
    ensures Named(ss, name, |ss|) == [] <==> forall j :: 0 <= j < |ss| ==> ss[j].name != name
  {
    var named := Named(ss, name, |ss|);
    NamedShape(ss, name, |ss|);
    if named == [index] {
      assert index in named;
    }
    if OnlyNamed(ss, name, index) {
      assert index in named && forall k :: 0 <= k < |named| ==> named[k] in named;
      if |named| > 1 { NamedSorted(ss, name, |ss|, 0, 1); }
    }
    if named != [] { assert named[0] in named; }
  }

  /** Seen once, or twice in the same area: through a section, then through a segment. */
  predicate OneNote(os: seq<Occurrence>, descriptor: nat) {
    && 1 <= |os| <= 2 && os[0].descriptor == descriptor
    && (|os| == 2 ==> os[1].descriptor == descriptor && os[1].area.offset == os[0].area.offset
                      && os[1].area.size == os[0].area.size
                      && os[1].area.origin.FromSection? != os[0].area.origin.FromSection?)
  }

  lemma ChosenExactly(os: seq<Occurrence>, descriptor: nat)
    ensures Chosen(os).Good? && Chosen(os).value.descriptor == descriptor <==> OneNote(os, descriptor)
  {
  }

  /** The record's bytes: a magic, version 1, a kind, and its fields one after the other. */
  predicate SpellsRecord(b: Bytes, r: Record) {
    && r.offset + 146 <= |b| && b[r.offset..r.offset + 8] == [77, 79, 69, 76, 70, 83, 73, 71]
    && Le(b, r.offset + 8, 2) == 1 && b[r.offset + 10] == (if r.kind == AdHoc then 1 else 2)
    && r.digestAlgorithm == b[r.offset + 11] && r.signatureAlgorithm == b[r.offset + 12] && b[r.offset + 13] == 0
    && r.flags == Le(b, r.offset + 14, 4) && r.keyId == b[r.offset + 18..r.offset + 50]
    && r.digest == b[r.offset + 50..r.offset + 82] && r.signature == b[r.offset + 82..r.offset + 146]
  }

  lemma RecordSpelled(b: Bytes, offset: nat, r: Record)
    ensures ParseRecord(b, offset) == Good(r) <==> SpellsRecord(b, r) && r.offset == offset
  {
  }

  /** The record stands in the section of the reserved name, read through it, in bytes nothing else uses. */
  ghost predicate RecordStands(e: Elf, sig: Bytes, r: Record, index: nat, os: seq<Occurrence>) {
    && OnlyNamed(e.sections, sig, index) && e.sections[index].kind == 7
    && TotalSize(AllAreas(e)) <= e.noteLimit && ScanAreas(e.bytes, AllAreas(e)) == Good(os)
    && OneNote(os, r.offset) && os[0].area.origin == FromSection(index)
    && e.sections[index].offset <= r.offset && r.offset + 146 <= e.sections[index].offset + e.sections[index].size
    && Unused(e, Range(r.offset, r.offset + 146), index) && SpellsRecord(e.bytes, r)
  }

  lemma LocationExactly(e: Elf, o: Occurrence, index: nat)
    requires Solid(e) && o.area.origin == FromSection(index)
    ensures LocationOk(e, o)
       <==> o.descriptor + 146 <= |e.bytes| && Unused(e, Range(o.descriptor, o.descriptor + 146), index)
  {
    ClearExactly(e, Range(o.descriptor, o.descriptor + 146), index);
  }

  lemma RecordFound(e: Elf, sig: Bytes, r: Record) returns (index: nat, os: seq<Occurrence>)
    requires Solid(e) && NotesOk(e.programs.notes, |e.bytes|) && LocateRecordAs(e, sig) == Good(Some(r))
    ensures RecordStands(e, sig, r, index, os)
  {
    var named := Named(e.sections, sig, |e.sections|);
    index, os := named[0], ScanAreas(e.bytes, AllAreas(e)).value;
    NamedExactly(e.sections, sig, index);
    assert named == [index] && index in named;
    ScanShape(e.bytes, AllAreas(e));
    assert os[0] in os;
    ReadThrough(e, os[0], index);
    LocationExactly(e, os[0], index);
    ChosenExactly(os, os[0].descriptor);
    RecordSpelled(e.bytes, os[0].descriptor, r);
  }

  lemma RecordStandsLocated(e: Elf, sig: Bytes, r: Record, index: nat, os: seq<Occurrence>)
    requires Solid(e) && RecordStands(e, sig, r, index, os)
    ensures LocateRecordAs(e, sig) == Good(Some(r))
  {
    NamedExactly(e.sections, sig, index);
    ChosenExactly(os, r.offset);
    LocationExactly(e, os[0], index);
    RecordSpelled(e.bytes, r.offset, r);
  }

  /**
   * A parsed file has a record exactly when one section has the reserved name and is a note
   * section, all notes read, exactly one is a signature note, seen through that section and at
   * most once more through a segment over the same bytes, and no byte of its 146 is used otherwise.
   */
  lemma RecordExactly(b: Bytes, limits: Limits, e: Elf, r: Record)
    requires ParseElf(b, limits) == Good(e)
    ensures LocateRecord(e) == Good(Some(r))
       <==> exists index: nat, os: seq<Occurrence> :: RecordStands(e, SIGNATURE_SECTION, r, index, os)
  {
    ParsedSolid(b, limits, e);
    ParsedInside(b, limits, e);
    if LocateRecord(e) == Good(Some(r)) { var index, os := RecordFound(e, SIGNATURE_SECTION, r); }
    if exists index: nat, os: seq<Occurrence> :: RecordStands(e, SIGNATURE_SECTION, r, index, os) {
      var index: nat, os: seq<Occurrence> :| RecordStands(e, SIGNATURE_SECTION, r, index, os);
      RecordStandsLocated(e, SIGNATURE_SECTION, r, index, os);
    }
  }

  /** A file has no record exactly when no section has the name and no note is a signature note. */
  lemma NoRecordExactly(e: Elf)
    ensures LocateRecord(e) == Good(None)
       <==> && (forall j :: 0 <= j < |e.sections| ==> e.sections[j].name != SIGNATURE_SECTION)
            && TotalSize(AllAreas(e)) <= e.noteLimit && ScanAreas(e.bytes, AllAreas(e)) == Good([])
  {
    NamedExactly(e.sections, SIGNATURE_SECTION, 0);
  }

  predicate AllScanned(b: Bytes, areas: seq<Area>) {
    forall i :: 0 <= i < |areas| ==> Scanned(b, areas[i])
  }

  lemma ScannedFirst(b: Bytes, areas: seq<Area>)
    requires areas != []
    ensures AllScanned(b, areas) <==> Scanned(b, areas[0]) && AllScanned(b, areas[1..])
  {
    if Scanned(b, areas[0]) && AllScanned(b, areas[1..]) {
      forall i | 0 <= i < |areas| ensures Scanned(b, areas[i]) { if i > 0 { assert areas[i] == areas[1..][i - 1]; } }
    }
  }

  /** Every area is inside the file and made of notes, exactly when the scan of them all succeeds. */
  lemma {:induction false} ScanExactly(b: Bytes, areas: seq<Area>)
    ensures ScanAreas(b, areas).Good? <==> AllScanned(b, areas)
  {
    if areas != [] {
      ScanExactly(b, areas[1..]);
      ScannedFirst(b, areas);
    }
  }

  // ---------------------------------------------------------------- the manifest

  /** No note segment shares a byte with a range, and no empty one stands strictly inside it. */
  predicate NotesAway(notes: seq<Area>, d: Range) {
    forall a :: a in notes ==>
      if a.size > 0 then Disjoint(d, Range(a.offset, a.offset + a.size)) else !(d.lo < a.offset < d.hi)
  }

  /** A program-bits section of alignment four without entries, flags, address or link, stored at a multiple of four. */
  predicate ManifestPlain(e: Elf, s: Section) {
    && s.kind == 1 && s.align == 4 && s.entrySize == 0 && s.raw + 64 <= |e.bytes|
    && Le(e.bytes, s.raw + 8, 8) == 0 && Le(e.bytes, s.raw + 16, 8) == 0 && Le(e.bytes, s.raw + 40, 8) == 0
    && s.offset % 4 == 0 && s.offset + s.size <= |e.bytes|
  }

  /** The text behind sixteen bytes of magic, version and format, in bytes nothing else uses. */
  ghost predicate ManifestStands(e: Elf, name: Bytes, t: Bytes, index: nat) {
    && OnlyNamed(e.sections, name, index) && ManifestPlain(e, e.sections[index])
    && 1 <= |t| <= 65536 && 0 !in t && ValidUtf8(t)
    && e.bytes[e.sections[index].offset..e.sections[index].offset + e.sections[index].size]
       == [77, 79, 69, 76, 70, 77, 65, 78, 1, 0, 1, 0, 0, 0, 0, 0] + t
    && Unused(e, Extent(e.sections[index]), index) && NotesAway(e.programs.notes, Extent(e.sections[index]))
  }

  lemma NotesAwayExactly(notes: seq<Area>, d: Range)
    requires d.lo < d.hi
    ensures NotesAway(notes, d)
       <==> forall i :: 0 <= i < |notes| ==> !Overlaps(d, Range(notes[i].offset, notes[i].offset + notes[i].size))
  {
    forall i | 0 <= i < |notes| && notes[i].size > 0
      ensures !Overlaps(d, Range(notes[i].offset, notes[i].offset + notes[i].size))
         <==> Disjoint(d, Range(notes[i].offset, notes[i].offset + notes[i].size))
    {
      DisjointExactly(d, Range(notes[i].offset, notes[i].offset + notes[i].size));
    }
    if NotesAway(notes, d) {
      forall i | 0 <= i < |notes| ensures !Overlaps(d, Range(notes[i].offset, notes[i].offset + notes[i].size)) {
        assert notes[i] in notes;
      }
    }
  }

  lemma ManifestHeaderIs()
    ensures ManifestHeader() == [77, 79, 69, 76, 70, 77, 65, 78, 1, 0, 1, 0, 0, 0, 0, 0]
  {
  }

  lemma ManifestClearExactly(e: Elf, index: nat)
    requires Solid(e) && index < |e.sections| && e.sections[index].size > 0
    ensures ManifestClear(e, index)
       <==> Unused(e, Extent(e.sections[index]), index) && NotesAway(e.programs.notes, Extent(e.sections[index]))
  {
    var d := Extent(e.sections[index]);
    ClearExactly(e, d, index);
    NotesAwayExactly(e.programs.notes, d);
  }

  lemma HeaderThenText(data: Bytes, header: Bytes, t: Bytes)
    requires |header| == 16
    ensures |data| >= 16 && data[..16] == header && data[16..] == t <==> data == header + t
  {
    if data == header + t { assert data[..16] == header && data[16..] == t; }
    if |data| >= 16 && data[..16] == header && data[16..] == t { assert data == data[..16] + data[16..]; }
  }

  lemma ManifestAtExactly(e: Elf, name: Bytes, index: nat, t: Bytes)
    requires Solid(e) && OnlyNamed(e.sections, name, index)
    ensures ManifestAt(e, index) == Good(t) <==> ManifestStands(e, name, t, index)
  {
    var s := e.sections[index];
    ManifestHeaderIs();
    if s.size > 0 { ManifestClearExactly(e, index); }
    if s.offset + s.size <= |e.bytes| {
      HeaderThenText(e.bytes[s.offset..s.offset + s.size], ManifestHeader(), t);
    }
  }

  lemma ManifestFound(e: Elf, name: Bytes, t: Bytes) returns (index: nat)
    requires Solid(e) && LocateManifestAs(e, name) == Good(Some(t))
    ensures ManifestStands(e, name, t, index)
  {
    var named := Named(e.sections, name, |e.sections|);
    index := named[0];
    assert named == [index];
    NamedExactly(e.sections, name, index);
    ManifestAtExactly(e, name, index, t);
  }

  lemma ManifestStandsLocated(e: Elf, name: Bytes, t: Bytes, index: nat)
    requires Solid(e) && ManifestStands(e, name, t, index)
    ensures LocateManifestAs(e, name) == Good(Some(t))
  {
    NamedExactly(e.sections, name, index);
    ManifestAtExactly(e, name, index, t);
  }

  lemma NoManifestExactly(e: Elf, name: Bytes)
    ensures LocateManifestAs(e, name) == Good(None)
       <==> forall j :: 0 <= j < |e.sections| ==> e.sections[j].name != name
  {
    NamedExactly(e.sections, name, 0);
  }

  lemma ManifestHeld(e: Elf, name: Bytes, t: Bytes)
    requires Solid(e)
    ensures LocateManifestAs(e, name) == Good(Some(t)) <==> exists index: nat :: ManifestStands(e, name, t, index)
  {
    if LocateManifestAs(e, name) == Good(Some(t)) { var index := ManifestFound(e, name, t); }
    if exists index: nat :: ManifestStands(e, name, t, index) {
      var index: nat :| ManifestStands(e, name, t, index);
      ManifestStandsLocated(e, name, t, index);
    }
  }

  /** Exactly when a parsed file has a manifest, and which text it is. */
  lemma ManifestExactly(b: Bytes, limits: Limits, e: Elf, t: Bytes)
    requires ParseElf(b, limits) == Good(e)
    ensures LocateManifest(e) == Good(Some(t)) <==> exists index: nat :: ManifestStands(e, MANIFEST_SECTION, t, index)
    ensures LocateManifest(e) == Good(None)
       <==> forall j :: 0 <= j < |e.sections| ==> e.sections[j].name != MANIFEST_SECTION
  {
    ParsedSolid(b, limits, e);
    ManifestHeld(e, MANIFEST_SECTION, t);
    NoManifestExactly(e, MANIFEST_SECTION);
  }

  // ---------------------------------------------------------------- refusals

  /** A file with a record is refused by the signer and by the embedder, and so is an unreadable manifest. */
  lemma SignerRefuses(sha: Hash, b: Bytes, e: Elf, declaration: Bytes)
    requires ParseElf(b, DEFAULT_LIMITS) == Good(e)
    ensures LocateRecord(e) != Good(None) || LocateManifest(e).Bad? ==>
      SignAdHoc(sha, b) == Bad && EmbedManifest(b, declaration) == Bad
    ensures LocateManifest(e) != Good(None) ==> EmbedManifest(b, declaration) == Bad
  {
  }

  lemma SignedHasRecord(sha: Hash, b: Bytes, c: Bytes) returns (e2: Elf)
    requires SignAdHoc(sha, b) == Good(c)
    ensures ParseElf(c, DEFAULT_LIMITS) == Good(e2) && LocateRecord(e2) != Good(None)
  {
    var e, out, e1, r := SignSteps(sha, b, c);
    SigningLocates(sha, b, e, SIGNATURE_SECTION, NoteBytes(AdHoc, Zeros(32)), out, e1, r, c);
    e2 := e1.(bytes := c);
  }

  /** A signed file can neither be signed again nor given a manifest. */
  lemma SignedOnlyOnce(sha: Hash, b: Bytes, c: Bytes, declaration: Bytes)
    requires SignAdHoc(sha, b) == Good(c)
    ensures SignAdHoc(sha, c) == Bad && EmbedManifest(c, declaration) == Bad
  {
    var e2 := SignedHasRecord(sha, b, c);
    SignerRefuses(sha, c, e2, declaration);
  }

  /** An embedded manifest cannot be followed by another. */
  lemma EmbeddedOnlyOnce(sha: Hash, b: Bytes, m: Bytes, declaration: Bytes, other: Bytes)
    requires EmbedManifest(b, declaration) == Good(m)
    ensures EmbedManifest(m, other) == Bad
  {
    var e1 := EmbedThenLocate(b, declaration, m);
    SignerRefuses(sha, m, e1, other);
  }
}
