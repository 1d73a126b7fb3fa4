/** Signing then verifying, embedding then signing, and where a located record can be. */
module ElfTheorems {
  import opened Machine
  import opened Pieces
  import opened ElfSpec
  import opened ElfAgree
  import opened ElfAppend
  import opened ElfReparse
  import opened ElfPatch

  // ---------------------------------------------------------------- the note that was written

  lemma NoteParts(kind: Kind, keyId: Bytes, n: Bytes)
    requires |keyId| == 32 && n == NoteBytes(kind, keyId)
    ensures |n| == 168 && n[0..4] == LeBytes(8, 4) && n[4..8] == LeBytes(DESCRIPTOR_LEN, 4)
    ensures n[8..12] == LeBytes(NOTE_TYPE, 4) && n[12..20] == NOTE_NAME
    ensures n[20..166] == Descriptor(kind, keyId) && n[166..168] == [0, 0]
  {
    JoinedNote(LeBytes(8, 4), LeBytes(DESCRIPTOR_LEN, 4), LeBytes(NOTE_TYPE, 4), NOTE_NAME,
               Descriptor(kind, keyId), [0, 0], n);
  }

  lemma JoinedNote(a: Bytes, b: Bytes, c: Bytes, d: Bytes, e: Bytes, f: Bytes, n: Bytes)
    requires n == a + b + c + d + e + f
    requires |a| == 4 && |b| == 4 && |c| == 4 && |d| == 8 && |e| == 146 && |f| == 2
    ensures |n| == 168 && n[0..4] == a && n[4..8] == b && n[8..12] == c && n[12..20] == d
    ensures n[20..166] == e && n[166..168] == f
  {
  }

  lemma NoteFields(out: Bytes, at: nat, kind: Kind, keyId: Bytes)
    requires |keyId| == 32 && Holds(out, at, NoteBytes(kind, keyId))
    ensures Le(out, at, 4) == 8 && Le(out, at + 4, 4) == DESCRIPTOR_LEN && Le(out, at + 8, 4) == NOTE_TYPE
    ensures Holds(out, at + 12, NOTE_NAME) && Holds(out, at + 20, Descriptor(kind, keyId))
    ensures Holds(out, at + 166, [0, 0])
  {
    var n := NoteBytes(kind, keyId);
    NoteParts(kind, keyId, n);
    Pow256Values();
    FieldRead(out, at, n, 0, 8, 4);
    FieldRead(out, at, n, 4, DESCRIPTOR_LEN, 4);
    FieldRead(out, at, n, 8, NOTE_TYPE, 4);
    HoldsPart(out, at, n, 12, 20);
    HoldsPart(out, at, n, 20, 166);
    HoldsPart(out, at, n, 166, 168);
  }

  /** A written note, scanned on its own, is one signature note with the written descriptor. */
  lemma OwnNote(out: Bytes, at: nat, kind: Kind, keyId: Bytes)
    requires |keyId| == 32 && at % 4 == 0 && Holds(out, at, NoteBytes(kind, keyId))
    ensures at + 168 <= |out| && Notes(out, at, at + 168) == Good([at + 20])
  {
    NoteFields(out, at, kind, keyId);
    OwnNoteFrom(out, at);
    assert NoteAt(out, at, at + 168) == Good(Note(true, at + 20, at + 168));
    assert Notes(out, at + 168, at + 168) == Good([]);
    var none: seq<nat> := [];
    assert [at + 20] + none == [at + 20];
  }

  lemma OwnNoteFrom(out: Bytes, at: nat)
    requires at % 4 == 0 && at + 168 <= |out| && Holds(out, at + 12, NOTE_NAME) && Holds(out, at + 166, [0, 0])
    ensures NoteFrom(out, at + 12, at + 168, 8, DESCRIPTOR_LEN, NOTE_TYPE) == Good(Note(true, at + 20, at + 168))
  {
    assert Align4(at + 20) == at + 20 && Align4(at + 166) == at + 168;
    assert |NOTE_NAME| == 8;
  }

  lemma DescriptorParts(kind: Kind, keyId: Bytes, d: Bytes)
    requires |keyId| == 32 && d == Descriptor(kind, keyId)
    ensures |d| == DESCRIPTOR_LEN && d[0..8] == DESCRIPTOR_MAGIC && d[8..10] == LeBytes(1, 2)
    ensures d[10..14] == [if kind == AdHoc then 1 else 2, 1, if kind == AdHoc then 0 else 1, 0]
    ensures d[14..18] == LeBytes(0, 4)
    ensures d[18..50] == keyId && d[50..82] == Zeros(32) && d[82..146] == Zeros(64)
  {
    JoinedDescriptor(DESCRIPTOR_MAGIC, LeBytes(1, 2),
                     [if kind == AdHoc then 1 else 2, 1, if kind == AdHoc then 0 else 1, 0], LeBytes(0, 4),
                     keyId, Zeros(32), Zeros(64), d);
  }

  lemma JoinedDescriptor(a: Bytes, v: Bytes, k: Bytes, f: Bytes, c: Bytes, d: Bytes, e: Bytes, n: Bytes)
    requires n == a + v + k + f + c + d + e
    requires |a| == 8 && |v| == 2 && |k| == 4 && |f| == 4 && |c| == 32 && |d| == 32 && |e| == 64
    ensures |n| == 146 && n[0..8] == a && n[8..10] == v && n[10..14] == k && n[14..18] == f
    ensures n[18..50] == c && n[50..82] == d && n[82..146] == e
  {
  }

  lemma OwnParts(out: Bytes, at: nat, d: Bytes)
    requires d == Descriptor(AdHoc, Zeros(32)) && Holds(out, at, d)
    ensures Holds(out, at, DESCRIPTOR_MAGIC) && Holds(out, at + 8, LeBytes(1, 2))
    ensures Holds(out, at + 10, [1, 1, 0, 0]) && Holds(out, at + 14, LeBytes(0, 4))
    ensures Holds(out, at + 18, Zeros(32)) && Holds(out, at + 50, Zeros(32)) && Holds(out, at + 82, Zeros(64))
    ensures at + DESCRIPTOR_LEN <= |out|
  {
    DescriptorParts(AdHoc, Zeros(32), d);
    PartsHold(out, at, d);
  }

  lemma PartsHold(out: Bytes, at: nat, d: Bytes)
    requires |d| == DESCRIPTOR_LEN && Holds(out, at, d)
    ensures Holds(out, at, d[0..8]) && Holds(out, at + 8, d[8..10]) && Holds(out, at + 10, d[10..14])
    ensures Holds(out, at + 14, d[14..18]) && Holds(out, at + 18, d[18..50])
    ensures Holds(out, at + 50, d[50..82]) && Holds(out, at + 82, d[82..146])
  {
    HoldsPart(out, at, d, 0, 8);
    HoldsPart(out, at, d, 8, 10);
    HoldsPart(out, at, d, 10, 14);
    HoldsPart(out, at, d, 14, 18);
    HoldsPart(out, at, d, 18, 50);
    HoldsPart(out, at, d, 50, 82);
    HoldsPart(out, at, d, 82, 146);
  }

  lemma ZeroWord(out: Bytes, at: nat)
    requires Holds(out, at, LeBytes(0, 4))
    ensures Le(out, at, 4) == 0
  {
    Pow256Values();
    LeWritten(out, at, 0, 4);
  }

  /** An ad-hoc descriptor reads back as an acceptable record. */
  lemma OwnRecord(out: Bytes, at: nat)
    requires Holds(out, at, Descriptor(AdHoc, Zeros(32)))
    ensures ParseRecord(out, at) == Good(BlankRecord(at))
  {
    OwnParts(out, at, Descriptor(AdHoc, Zeros(32)));
    ShortWritten(out, at + 8, 1);
    ZeroWord(out, at + 14);
    RecordFrom(out, at);
  }

  /** The record of an ad-hoc descriptor before its digest is filled in. */
  function BlankRecord(offset: nat): Record {
    Record(AdHoc, 1, 0, 0, Zeros(32), Zeros(32), Zeros(64), offset)
  }

  lemma FourBytes(out: Bytes, at: nat, a: byte, b: byte, c: byte, d: byte)
    requires Holds(out, at, [a, b, c, d])
    ensures out[at] == a && out[at + 1] == b && out[at + 2] == c && out[at + 3] == d
  {
    var h := out[at..at + 4];
    assert h[0] == a && h[1] == b && h[2] == c && h[3] == d;
  }

  lemma RecordFrom(out: Bytes, at: nat)
    requires at + DESCRIPTOR_LEN <= |out| && Holds(out, at, DESCRIPTOR_MAGIC) && Le(out, at + 8, 2) == 1
    requires Holds(out, at + 10, [1, 1, 0, 0]) && Le(out, at + 14, 4) == 0
    requires Holds(out, at + 18, Zeros(32)) && Holds(out, at + 50, Zeros(32)) && Holds(out, at + 82, Zeros(64))
    ensures ParseRecord(out, at) == Good(BlankRecord(at))
  {
    assert |DESCRIPTOR_MAGIC| == 8;
    FourBytes(out, at + 10, 1, 1, 0, 0);
  }

  // ---------------------------------------------------------------- names and the manifest

  lemma {:induction false} NamedPrefix(ss: seq<Section>, ss': seq<Section>, name: Bytes, n: nat)
    requires n <= |ss| && n <= |ss'| && forall i :: 0 <= i < n ==> ss'[i].name == ss[i].name
    ensures Named(ss', name, n) == Named(ss, name, n)
  {
    if n > 0 { NamedPrefix(ss, ss', name, n - 1); }
  }

  lemma NamedTwo(ss: seq<Section>, wanted: Bytes, n: nat)
    requires |ss| == n + 2 && ss[n + 1].name != wanted
    ensures Named(ss, wanted, n + 2) == Named(ss, wanted, n) + if ss[n].name == wanted then [n] else []
  {
    assert Named(ss, wanted, n + 2) == Named(ss, wanted, n + 1);
  }

  /** The sections with a name in an extension, when the name table does not have that name. */
  lemma NamedExtension(ss: seq<Section>, ss': seq<Section>, index: nat, l: Layout, name: Bytes, kind: nat, size: nat,
                       wanted: Bytes)
    requires index < |ss| && Extension(ss, ss', index, l, name, kind, size) && ss[index].name != wanted
    ensures Named(ss', wanted, |ss'|) == Named(ss, wanted, |ss|) + if name == wanted then [|ss|] else []
  {
    assert forall i :: 0 <= i < |ss| ==> SameSection(ss[i], ss'[i]);
    NamedPrefix(ss, ss', wanted, |ss|);
    NamedTwo(ss', wanted, |ss|);
  }

  lemma {:induction false} NamedIn(ss: seq<Section>, name: Bytes, n: nat, i: nat)
    requires i < n <= |ss| && ss[i].name == name
    ensures i in Named(ss, name, n)
  {
    NamedShape(ss, name, n);
  }

  /** A manifest found in a file is its text at its section, and its section is not the name table. */
  lemma ManifestNamed(e: Elf, name: Bytes)
    requires e.shstrIndex < |e.sections| && e.sections[e.shstrIndex].kind == SHT_STRTAB
    requires LocateManifestAs(e, name).Good?
    ensures e.sections[e.shstrIndex].name != name
  {
    if e.sections[e.shstrIndex].name == name {
      NamedIn(e.sections, name, |e.sections|, e.shstrIndex);
      assert false;
    }
  }

  /** What an extended file keeps of a section: its fields, its bytes and its header's bytes. */
  predicate Kept(e: Elf, e': Elf, m: nat) {
    && m < |e.sections| && m < |e'.sections| && SameSection(e.sections[m], e'.sections[m])
    && Moved(e.bytes, e.sections[m].raw, e'.bytes, e'.sections[m].raw, SECTION_LEN)
    && Same(e.bytes, e'.bytes, HEADER_LEN, |e.bytes|) && |e.bytes| >= HEADER_LEN
    && e'.programTable == e.programTable
    && e.sections[m].offset + e.sections[m].size <= |e.bytes|
  }

  lemma ManifestFieldsKept(e: Elf, e': Elf, m: nat)
    requires Kept(e, e', m) && ManifestSectionOk(e, m)
    ensures ManifestSectionOk(e', m)
  {
    MovedLe(e.bytes, e.sections[m].raw, e'.bytes, e'.sections[m].raw, SECTION_LEN, 8, 8);
    MovedLe(e.bytes, e.sections[m].raw, e'.bytes, e'.sections[m].raw, SECTION_LEN, 16, 8);
    MovedLe(e.bytes, e.sections[m].raw, e'.bytes, e'.sections[m].raw, SECTION_LEN, 40, 8);
  }

  function FileRange(e: Elf, m: nat): Range
    requires m < |e.sections|
  {
    Range(e.sections[m].offset, e.sections[m].offset + e.sections[m].size)
  }

  lemma ManifestClearKept(e: Elf, e': Elf, m: nat, index: nat, l: Layout, name: Bytes, kind: nat, size: nat)
    requires Kept(e, e', m) && ManifestClear(e, m) && index < |e.sections|
    requires Extension(e.sections, e'.sections, index, l, name, kind, size)
    requires |e.bytes| <= l.dataAt <= l.shstrAt && |e.bytes| <= e'.sectionTable.lo
    ensures ManifestClear(e', m) <==> ProgramsMiss(e'.programs, FileRange(e, m))
  {
    var r := Range(e.sections[m].offset, e.sections[m].offset + e.sections[m].size);
    forall i | 0 <= i < |e'.sections| && i != m && FileBacked(e'.sections[i]) && e'.sections[i].size != 0
      ensures !Overlaps(r, Range(e'.sections[i].offset, e'.sections[i].offset + e'.sections[i].size))
    {
      if i < |e.sections| { assert SameSection(e.sections[i], e'.sections[i]); }
    }
  }

  /** Extending a file keeps its manifest, unless a segment of the extension crosses it. */
  lemma ManifestKept(e: Elf, e': Elf, m: nat, index: nat, l: Layout, name: Bytes, kind: nat, size: nat)
    requires Kept(e, e', m) && index < |e.sections| && ManifestAt(e, m).Good?
    requires Extension(e.sections, e'.sections, index, l, name, kind, size)
    requires |e.bytes| <= l.dataAt <= l.shstrAt && |e.bytes| <= e'.sectionTable.lo
    ensures ManifestAt(e', m) == if ProgramsMiss(e'.programs, FileRange(e, m)) then ManifestAt(e, m) else Bad
  {
    var s := e.sections[m];
    ManifestFieldsKept(e, e', m);
    ManifestClearKept(e, e', m, index, l, name, kind, size);
    assert s.offset >= HEADER_LEN by { assert !Overlaps(Range(s.offset, s.offset + s.size), Range(0, HEADER_LEN)); }
    SameSlice(e.bytes, e'.bytes, HEADER_LEN, |e.bytes|, s.offset, s.offset + s.size);
  }

  // ---------------------------------------------------------------- signing, then verifying

  /** Program headers that start after the file header (or do not exist) survive the patch. */
  predicate ProgramsClear(b: Bytes) {
    |b| >= HEADER_LEN && (Le(b, 56, 2) == 0 || Le(b, 32, 8) >= HEADER_LEN)
  }

  lemma ProgramsKept(b: Bytes, out: Bytes, limits: Limits)
    requires ProgramsClear(b) && BytesKept(b, out) && |b| <= |out| && ParseProgramTable(b, limits).Good?
    ensures ParseProgramTable(out, limits) == ParseProgramTable(b, limits)
  {
    ProgramTableSame(b, out, limits);
  }

  lemma FilledAgrees(b: Bytes, offset: nat, digest: Bytes, c: Bytes)
    requires offset + DESCRIPTOR_LEN <= |b| && |digest| == 32 && c == FilledDigest(b, offset, digest)
    ensures Agree(b, c, offset + DIGEST_OFFSET, offset + SIGNATURE_OFFSET)
    ensures c[offset + DIGEST_OFFSET..offset + SIGNATURE_OFFSET] == digest
    ensures Normalized(c, offset) == Normalized(b, offset)
  {
    var lo, hi, end := offset + DIGEST_OFFSET, offset + SIGNATURE_OFFSET, offset + DESCRIPTOR_LEN;
    assert c[..lo] == b[..lo] && c[end..] == b[end..];
  }

  /** The regions a parse reads, all inside the file. */
  predicate TablesInside(e: Elf) {
    && HEADER_LEN <= |e.bytes| && e.sectionTable.lo <= e.sectionTable.hi <= |e.bytes|
    && (e.programTable.Some? ==> e.programTable.value.lo <= e.programTable.value.hi <= |e.bytes|)
    && NamesRead(e.bytes, e.sections, e.shstrIndex, e.shstr)
  }

  lemma NameTableApart(e: Elf, sig: Bytes, r: Record, index: nat, o: Occurrence)
    requires LocatedIn(e, sig, r, index, o) && NamesRead(e.bytes, e.sections, e.shstrIndex, e.shstr)
    ensures Apart(NameTable(e).lo, NameTable(e).hi, r.offset, r.offset + DESCRIPTOR_LEN)
  {
    var s := e.sections[e.shstrIndex];
    assert s.size != 0;
    assert !Overlaps(Range(r.offset, r.offset + DESCRIPTOR_LEN), Range(s.offset, s.offset + s.size));
  }

  /** No region a parse reads overlaps a located descriptor. */
  lemma TablesApart(e: Elf, sig: Bytes, r: Record, lo: nat, hi: nat)
    requires NotesOk(e.programs.notes, |e.bytes|) && LocateRecordAs(e, sig) == Good(Some(r)) && TablesInside(e)
    requires r.offset <= lo <= hi <= r.offset + DESCRIPTOR_LEN
    ensures Apart(0, HEADER_LEN, lo, hi) && Apart(NameTable(e).lo, NameTable(e).hi, lo, hi)
    ensures Apart(e.sectionTable.lo, e.sectionTable.hi, lo, hi) || e.sectionTable.lo == e.sectionTable.hi
    ensures e.programTable.Some? && e.programTable.value.lo < e.programTable.value.hi ==>
      Apart(e.programTable.value.lo, e.programTable.value.hi, lo, hi)
  {
    var index, o := RecordLocated(e, sig, r);
    NameTableApart(e, sig, r, index, o);
  }

  lemma AgreeSame(b: Bytes, c: Bytes, lo: nat, hi: nat, x: nat, y: nat)
    requires Agree(b, c, lo, hi) && x <= y <= |b| && (x < y ==> Apart(x, y, lo, hi))
    ensures Same(b, c, x, y)
  {
  }

  lemma FilledSame(e: Elf, sig: Bytes, r: Record, c: Bytes, lo: nat, hi: nat)
    requires NotesOk(e.programs.notes, |e.bytes|) && LocateRecordAs(e, sig) == Good(Some(r)) && TablesInside(e)
    requires r.offset <= lo <= hi <= r.offset + DESCRIPTOR_LEN && Agree(e.bytes, c, lo, hi)
    ensures Same(e.bytes, c, 0, HEADER_LEN) && Same(e.bytes, c, e.sectionTable.lo, e.sectionTable.hi)
    ensures Same(e.bytes, c, NameTable(e).lo, NameTable(e).hi)
    ensures e.programTable.Some? ==> Same(e.bytes, c, e.programTable.value.lo, e.programTable.value.hi)
  {
    TablesApart(e, sig, r, lo, hi);
    AgreeSame(e.bytes, c, lo, hi, 0, HEADER_LEN);
    AgreeSame(e.bytes, c, lo, hi, e.sectionTable.lo, e.sectionTable.hi);
    AgreeSame(e.bytes, c, lo, hi, NameTable(e).lo, NameTable(e).hi);
    if e.programTable.Some? {
      AgreeSame(e.bytes, c, lo, hi, e.programTable.value.lo, e.programTable.value.hi);
    }
  }

  /** Rewriting bytes of a located descriptor leaves the parse as it was. */
  lemma FilledParses(b: Bytes, e: Elf, sig: Bytes, r: Record, c: Bytes, lo: nat, hi: nat)
    requires ParseElf(b, DEFAULT_LIMITS) == Good(e) && NotesOk(e.programs.notes, |e.bytes|) && TablesInside(e)
    requires LocateRecordAs(e, sig) == Good(Some(r)) && r.offset <= lo <= hi <= r.offset + DESCRIPTOR_LEN
    requires Agree(b, c, lo, hi)
    ensures ParseElf(c, DEFAULT_LIMITS) == Good(e.(bytes := c))
  {
    FilledSame(e, sig, r, c, lo, hi);
    ParseSame(b, c, DEFAULT_LIMITS, e);
  }

  lemma ParsedInside(b: Bytes, limits: Limits, e: Elf)
    requires ParseElf(b, limits) == Good(e)
    ensures TablesInside(e) && NotesOk(e.programs.notes, |e.bytes|)
  {
    ParsedPrograms(b, limits, e);
    ParseRead(b, limits, e);
    TableInside(b, limits, e);
  }

  lemma TableInside(b: Bytes, limits: Limits, e: Elf)
    requires ParseElf(b, limits) == Good(e)
    ensures e.sectionTable.hi <= |b|
    ensures e.programTable.Some? ==> e.programTable.value.lo <= e.programTable.value.hi <= |b|
  {
    SectionsFromShape(b, limits, Le(b, 40, 8), Le(b, 58, 2), Le(b, 60, 2), Le(b, 62, 2),
                      ParseSectionTable(b, limits).value);
  }

  lemma DataAligned(e: Elf, name: Bytes, data: Bytes)
    ensures LayoutOf(e, name, data).dataAt % 4 == 0 && |e.bytes| <= LayoutOf(e, name, data).dataAt
  {
  }

  /** In an extension by a signature section, that section is the one with the name. */
  lemma SignatureSection(sig: Bytes, ss: seq<Section>, ss': seq<Section>, index: nat, l: Layout, kind: nat, size: nat, i: nat)
    requires index < |ss| && Extension(ss, ss', index, l, sig, kind, size)
    requires i < |ss'| && ss'[i].name == sig && Named(ss, sig, |ss|) == []
    ensures i == |ss|
  {
    NamedShape(ss, sig, |ss|);
  }

  lemma OccurrenceFound(b: Bytes, areas: seq<Area>, o: Occurrence)
    requires ScanAreas(b, areas).Good? && o in ScanAreas(b, areas).value
    ensures Found(b, o)
  {
    ScanShape(b, areas);
  }

  /** A located record's descriptor is a note of the section with the reserved name. */
  lemma LocatedNote(e: Elf, sig: Bytes, r: Record) returns (index: nat)
    requires NotesOk(e.programs.notes, |e.bytes|) && LocateRecordAs(e, sig) == Good(Some(r))
    ensures index < |e.sections| && e.sections[index].name == sig && ParseRecord(e.bytes, r.offset) == Good(r)
    ensures Found(e.bytes, Occurrence(r.offset, Area(e.sections[index].offset, e.sections[index].size,
                                                     FromSection(index))))
  {
    var o;
    index, o := RecordLocated(e, sig, r);
    OccurrenceFound(e.bytes, AllAreas(e), o);
  }

  /** A file that holds a fresh ad-hoc note reads it as one note and one blank record. */
  lemma WrittenNote(out: Bytes, at: nat)
    requires at % 4 == 0 && Holds(out, at, NoteBytes(AdHoc, Zeros(32)))
    ensures at + 168 <= |out| && Notes(out, at, at + 168) == Good([at + 20])
    ensures ParseRecord(out, at + 20) == Good(BlankRecord(at + 20))
  {
    OwnNote(out, at, AdHoc, Zeros(32));
    NoteFields(out, at, AdHoc, Zeros(32));
    OwnRecord(out, at + 20);
  }

  /** A record located in a file freshly extended by a signature section is a note of that section. */
  lemma SignedNote(e: Elf, sig: Bytes, e1: Elf, l: Layout, r: Record)
    requires e.shstrIndex < |e.sections| && Named(e.sections, sig, |e.sections|) == []
    requires Extension(e.sections, e1.sections, e.shstrIndex, l, sig, SHT_NOTE, 168)
    requires NotesOk(e1.programs.notes, |e1.bytes|) && LocateRecordAs(e1, sig) == Good(Some(r))
    ensures ParseRecord(e1.bytes, r.offset) == Good(r)
    ensures Found(e1.bytes, Occurrence(r.offset, Area(l.dataAt, 168, FromSection(|e.sections|))))
  {
    var index := LocatedNote(e1, sig, r);
    SignatureSection(sig, e.sections, e1.sections, e.shstrIndex, l, SHT_NOTE, 168, index);
  }

  /** A record found in an area that holds one blank record is that one. */
  lemma SignedRecord(b: Bytes, at: nat, index: nat, r: Record)
    requires at + 168 <= |b| && Notes(b, at, at + 168) == Good([at + 20])
    requires ParseRecord(b, at + 20) == Good(BlankRecord(at + 20)) && ParseRecord(b, r.offset) == Good(r)
    requires Found(b, Occurrence(r.offset, Area(at, 168, FromSection(index))))
    ensures r == BlankRecord(at + 20)
  {
    OnlyNote(b, at, r.offset, FromSection(index));
  }

  lemma OnlyNote(b: Bytes, at: nat, d: nat, origin: Origin)
    requires at + 168 <= |b| && Notes(b, at, at + 168) == Good([at + 20])
    requires Found(b, Occurrence(d, Area(at, 168, origin)))
    ensures d == at + 20
  {
  }

  /** A file, its extension by a section, and the extension parsed. */
  predicate Extending(b: Bytes, e: Elf, name: Bytes, kind: nat, data: Bytes, out: Bytes, e1: Elf) {
    && ParseElf(b, DEFAULT_LIMITS) == Good(e) && AppendSection(e, name, kind, data) == Good(out)
    && ParseElf(out, DEFAULT_LIMITS) == Good(e1) && 0 !in name && kind < 0x1_0000_0000
  }

  lemma ExtendingFacts(b: Bytes, e: Elf, name: Bytes, kind: nat, data: Bytes, out: Bytes, e1: Elf, l: Layout)
    requires Extending(b, e, name, kind, data, out, e1) && l == LayoutOf(e, name, data)
    ensures Extends(e, e1, l, name, kind, |data|) && BytesKept(b, out) && Holds(out, l.dataAt, data)
    ensures HeadersCopied(b, e.sections, out, l.table, |e.sections|)
    ensures l.dataAt % 4 == 0 && |b| <= l.dataAt <= l.shstrAt <= l.table <= |out|
  {
    ParsedAppended(b, e, name, kind, data, out);
    AppendReparses(b, e, name, kind, data, out, e1, l);
    DataAligned(e, name, data);
  }

  /** The record located in a freshly extended file is the one that was written. */
  lemma WrittenRecord(e: Elf, sig: Bytes, data: Bytes, e1: Elf, l: Layout, r: Record)
    requires e.shstrIndex < |e.sections| && Named(e.sections, sig, |e.sections|) == []
    requires data == NoteBytes(AdHoc, Zeros(32)) && l.dataAt % 4 == 0 && Holds(e1.bytes, l.dataAt, data)
    requires Extends(e, e1, l, sig, SHT_NOTE, 168)
    requires NotesOk(e1.programs.notes, |e1.bytes|) && LocateRecordAs(e1, sig) == Good(Some(r))
    ensures r == BlankRecord(l.dataAt + 20)
  {
    WrittenNote(e1.bytes, l.dataAt);
    SignedNote(e, sig, e1, l, r);
    SignedRecord(e1.bytes, l.dataAt, |e.sections|, r);
  }

  /** The extension with its digest filled parses and locates its record. */
  lemma FilledLocates(b: Bytes, out: Bytes, e1: Elf, sig: Bytes, r: Record, c: Bytes)
    requires ParseElf(out, DEFAULT_LIMITS) == Good(e1) && LocateRecordAs(e1, sig) == Good(Some(r))
    requires NotesOk(e1.programs.notes, |b|) && |b| <= r.offset
    requires r.offset + DESCRIPTOR_LEN <= |out|
    requires Agree(out, c, r.offset + DIGEST_OFFSET, r.offset + SIGNATURE_OFFSET)
    ensures ParseElf(c, DEFAULT_LIMITS) == Good(e1.(bytes := c))
    ensures LocateRecordAs(e1.(bytes := c), sig)
         == Good(Some(r.(digest := c[r.offset + DIGEST_OFFSET..r.offset + SIGNATURE_OFFSET])))
  {
    ParsedInside(out, DEFAULT_LIMITS, e1);
    FilledParses(out, e1, sig, r, c, r.offset + DIGEST_OFFSET, r.offset + SIGNATURE_OFFSET);
    LocateAgree(e1, sig, c, r);
  }

  lemma ReadRaw(b: Bytes, ss: seq<Section>, table: nat, i: nat)
    requires i < |ss| && AllRead(Reader(b), ss, table, |ss|)
    ensures ss[i].raw == table + SECTION_LEN * i
  {
    ReadAt(Reader(b), ss, table, |ss|, i);
  }

  /** A header copied into the new table is still there when bytes outside the table change. */
  lemma MovedStays(b: Bytes, from: nat, out: Bytes, to: nat, c: Bytes, lo: nat, hi: nat)
    requires Moved(b, from, out, to, SECTION_LEN) && Same(out, c, lo, hi) && lo <= to && to + SECTION_LEN <= hi
    ensures Moved(b, from, c, to, SECTION_LEN)
  {
    SameSlice(out, c, lo, hi, to, to + SECTION_LEN);
  }

  lemma HeaderStays(b: Bytes, e: Elf, out: Bytes, e1: Elf, l: Layout, c: Bytes, m: nat)
    requires m < |e.sections| < |e1.sections| && HeadersCopied(b, e.sections, out, l.table, |e.sections|)
    requires AllRead(Reader(out), e1.sections, l.table, |e1.sections|)
    requires Same(out, c, l.table, l.table + SECTION_LEN * |e1.sections|)
    ensures Moved(b, e.sections[m].raw, c, e1.sections[m].raw, SECTION_LEN)
  {
    HeaderCopied(b, e.sections, out, l.table, |e.sections|, m);
    ReadRaw(out, e1.sections, l.table, m);
    MovedStays(b, e.sections[m].raw, out, l.table + SECTION_LEN * m, c,
               l.table, l.table + SECTION_LEN * |e1.sections|);
  }

  /** The manifest section of a file, if it has one, is missed by these segments. */
  predicate ManifestMissed(e: Elf, wanted: Bytes, p: Programs) {
    var named := Named(e.sections, wanted, |e.sections|);
    named == [] || (named[0] < |e.sections| && ProgramsMiss(p, FileRange(e, named[0])))
  }

  /** Extending a file by a section with another name keeps its manifest exactly when no segment then crosses it. */
  lemma LookupKept(e: Elf, e2: Elf, l: Layout, name: Bytes, kind: nat, size: nat, wanted: Bytes)
    requires NamesRead(e.bytes, e.sections, e.shstrIndex, e.shstr) && LocateManifestAs(e, wanted).Good?
    requires Extension(e.sections, e2.sections, e.shstrIndex, l, name, kind, size) && name != wanted
    requires forall m :: 0 <= m < |e.sections| && FileBacked(e.sections[m]) ==> Kept(e, e2, m)
    requires |e.bytes| <= l.dataAt <= l.shstrAt && |e.bytes| <= e2.sectionTable.lo
    ensures LocateManifestAs(e2, wanted)
         == if ManifestMissed(e, wanted, e2.programs) then LocateManifestAs(e, wanted) else Bad
  {
    ManifestNamed(e, wanted);
    NamedExtension(e.sections, e2.sections, e.shstrIndex, l, name, kind, size, wanted);
    var named := Named(e.sections, wanted, |e.sections|);
    if named != [] {
      ManifestKept(e, e2, named[0], e.shstrIndex, l, name, kind, size);
    }
  }

  lemma AllKept(b: Bytes, e: Elf, out: Bytes, e1: Elf, l: Layout, name: Bytes, kind: nat, size: nat, c: Bytes)
    requires e.bytes == b && NamesRead(b, e.sections, e.shstrIndex, e.shstr) && |b| >= HEADER_LEN
    requires Extension(e.sections, e1.sections, e.shstrIndex, l, name, kind, size)
    requires HeadersCopied(b, e.sections, out, l.table, |e.sections|)
    requires AllRead(Reader(out), e1.sections, l.table, |e1.sections|)
    requires Same(out, c, l.table, l.table + SECTION_LEN * |e1.sections|) && Same(b, c, HEADER_LEN, |b|)
    requires e1.programTable == e.programTable
    ensures forall m :: 0 <= m < |e.sections| && FileBacked(e.sections[m]) ==> Kept(e, e1.(bytes := c), m)
  {
    forall m | 0 <= m < |e.sections| && FileBacked(e.sections[m]) ensures Kept(e, e1.(bytes := c), m) {
      HeaderStays(b, e, out, e1, l, c, m);
      assert SameSection(e.sections[m], e1.sections[m]);
    }
  }

  /** An accepted ad-hoc signing, step by step: the input, its extension, the located record, the output. */
  predicate Signing(sha: Hash, b: Bytes, e: Elf, sig: Bytes, data: Bytes, out: Bytes, e1: Elf, r: Record, c: Bytes) {
    && Extending(b, e, sig, SHT_NOTE, data, out, e1) && Named(e.sections, sig, |e.sections|) == []
    && data == NoteBytes(AdHoc, Zeros(32)) && LocateRecordAs(e1, sig) == Good(Some(r))
    && r.offset + DESCRIPTOR_LEN <= |out| && c == FilledDigest(out, r.offset, sha(Normalized(out, r.offset)))
  }

  lemma SigningRecord(
    sha: Hash, b: Bytes, e: Elf, sig: Bytes, data: Bytes, out: Bytes, e1: Elf, r: Record, c: Bytes, l: Layout)
    requires Signing(sha, b, e, sig, data, out, e1, r, c) && l == LayoutOf(e, sig, data)
    ensures r == BlankRecord(l.dataAt + 20) && |b| <= l.dataAt
    ensures NotesOk(e1.programs.notes, |out|) && BytesKept(b, out) && |b| <= |out|
  {
    ExtendingFacts(b, e, sig, SHT_NOTE, data, out, e1, l);
    ParsedInside(out, DEFAULT_LIMITS, e1);
    WrittenRecord(e, sig, data, e1, l, r);
  }

  lemma NewIndex(b: Bytes, e: Elf, name: Bytes, kind: nat, data: Bytes, out: Bytes, e1: Elf)
    requires Extending(b, e, name, kind, data, out, e1)
    ensures |out| >= HEADER_LEN && 0 < Le(out, 62, 2) && BytesKept(b, out) && |b| <= |out|
  {
    ExtendingFacts(b, e, name, kind, data, out, e1, LayoutOf(e, name, data));
    ParseRead(out, DEFAULT_LIMITS, e1);
  }

  lemma LocatedScanned(out: Bytes, e1: Elf, sig: Bytes, r: Record)
    requires ParseElf(out, DEFAULT_LIMITS) == Good(e1) && LocateRecordAs(e1, sig) == Good(Some(r))
    ensures ScanAreas(out, AllAreas(e1)).Good?
  {
    ParsedInside(out, DEFAULT_LIMITS, e1);
    var index, o := RecordLocated(e1, sig, r);
  }

  lemma ExtensionNotes(b: Bytes, e: Elf, sig: Bytes, data: Bytes, out: Bytes, e1: Elf, r: Record)
    requires Extending(b, e, sig, SHT_NOTE, data, out, e1) && LocateRecordAs(e1, sig) == Good(Some(r))
    ensures NotesOk(e1.programs.notes, |b|) && e1.programTable == e.programTable
  {
    NewIndex(b, e, sig, SHT_NOTE, data, out, e1);
    LocatedScanned(out, e1, sig, r);
    ParsedNotesInside(b, e, out, e1);
  }

  lemma SigningLocates(
    sha: Hash, b: Bytes, e: Elf, sig: Bytes, data: Bytes, out: Bytes, e1: Elf, r: Record, c: Bytes)
    requires Signing(sha, b, e, sig, data, out, e1, r, c)
    ensures ParseElf(c, DEFAULT_LIMITS) == Good(e1.(bytes := c)) && |c| == |out|
    ensures r == BlankRecord(r.offset) && Normalized(c, r.offset) == Normalized(out, r.offset)
    ensures LocateRecordAs(e1.(bytes := c), sig) == Good(Some(r.(digest := sha(Normalized(c, r.offset)))))
    ensures e1.programTable == e.programTable
  {
    SigningRecord(sha, b, e, sig, data, out, e1, r, c, LayoutOf(e, sig, data));
    ExtensionNotes(b, e, sig, data, out, e1, r);
    FilledAgrees(out, r.offset, sha(Normalized(out, r.offset)), c);
    FilledLocates(b, out, e1, sig, r, c);
  }

  lemma SameAfterFill(b: Bytes, out: Bytes, c: Bytes, lo: nat, hi: nat)
    requires BytesKept(b, out) && |b| <= |out| && Agree(out, c, lo, hi) && |b| <= lo && |b| >= HEADER_LEN
    ensures Same(b, c, HEADER_LEN, |b|)
  {
  }

  lemma FillKeeps(b: Bytes, out: Bytes, e1: Elf, sig: Bytes, r: Record, c: Bytes, lo: nat, hi: nat)
    requires ParseElf(out, DEFAULT_LIMITS) == Good(e1) && LocateRecordAs(e1, sig) == Good(Some(r))
    requires BytesKept(b, out) && HEADER_LEN <= |b| <= |out| && |b| <= r.offset
    requires r.offset <= lo <= hi <= r.offset + DESCRIPTOR_LEN && Agree(out, c, lo, hi)
    ensures Same(b, c, HEADER_LEN, |b|) && Same(out, c, e1.sectionTable.lo, e1.sectionTable.hi)
  {
    ParsedInside(out, DEFAULT_LIMITS, e1);
    FilledSame(e1, sig, r, c, lo, hi);
    SameAfterFill(b, out, c, lo, hi);
  }

  lemma SigningKeepsManifest(
    sha: Hash, b: Bytes, e: Elf, sig: Bytes, data: Bytes, out: Bytes, e1: Elf, r: Record, c: Bytes, wanted: Bytes)
    requires Signing(sha, b, e, sig, data, out, e1, r, c)
    requires LocateManifestAs(e, wanted).Good? && sig != wanted
    ensures LocateManifestAs(e1.(bytes := c), wanted)
         == if ManifestMissed(e, wanted, e1.programs) then LocateManifestAs(e, wanted) else Bad
  {
    SigningRecord(sha, b, e, sig, data, out, e1, r, c, LayoutOf(e, sig, data));
    FilledAgrees(out, r.offset, sha(Normalized(out, r.offset)), c);
    FillKeeps(b, out, e1, sig, r, c, r.offset + DIGEST_OFFSET, r.offset + SIGNATURE_OFFSET);
    SigningLocates(sha, b, e, sig, data, out, e1, r, c);
    FilledManifest(b, e, sig, data, out, e1, c, wanted, LayoutOf(e, sig, data));
  }

  lemma FilledManifest(
    b: Bytes, e: Elf, sig: Bytes, data: Bytes, out: Bytes, e1: Elf, c: Bytes, wanted: Bytes, l: Layout)
    requires Extending(b, e, sig, SHT_NOTE, data, out, e1) && l == LayoutOf(e, sig, data) && |out| == |c|
    requires LocateManifestAs(e, wanted).Good? && sig != wanted
    requires e1.programTable == e.programTable
    requires Same(b, c, HEADER_LEN, |b|) && Same(out, c, e1.sectionTable.lo, e1.sectionTable.hi)
    ensures LocateManifestAs(e1.(bytes := c), wanted)
         == if ManifestMissed(e, wanted, e1.programs) then LocateManifestAs(e, wanted) else Bad
  {
    ExtendingFacts(b, e, sig, SHT_NOTE, data, out, e1, l);
    ParseRead(b, DEFAULT_LIMITS, e);
    ParseRead(out, DEFAULT_LIMITS, e1);
    AllKept(b, e, out, e1, l, sig, SHT_NOTE, |data|, c);
    LookupKept(e, e1.(bytes := c), l, sig, SHT_NOTE, |data|, wanted);
  }

  // ---------------------------------------------------------------- the theorems

  lemma SectionNames()
    ensures 0 !in SIGNATURE_SECTION && 0 !in MANIFEST_SECTION && SIGNATURE_SECTION != MANIFEST_SECTION
  {
    assert |SIGNATURE_SECTION| == 23 && |MANIFEST_SECTION| == 17;
  }

  lemma SignSteps(sha: Hash, b: Bytes, c: Bytes) returns (e: Elf, out: Bytes, e1: Elf, r: Record)
    requires SignAdHoc(sha, b) == Good(c)
    ensures Signing(sha, b, e, SIGNATURE_SECTION, NoteBytes(AdHoc, Zeros(32)), out, e1, r, c)
    ensures LocateManifest(e).Good?
  {
    e := ParseElf(b, DEFAULT_LIMITS).value;
    out := EmbedEmptyRecord(b, AdHoc, Zeros(32)).value;
    e1 := ParseElf(out, DEFAULT_LIMITS).value;
    r := LocateRecord(e1).value.value;
    SectionNames();
  }

  lemma VerifiedFrom(sha: Hash, keyed: Record -> bool, c: Bytes, e2: Elf, sig: Bytes, r: Record)
    requires e2.bytes == c && LocateRecordAs(e2, sig) == Good(Some(r)) && sig == SIGNATURE_SECTION
    requires r == BlankRecord(r.offset).(digest := sha(Normalized(c, r.offset)))
    ensures VerifyParsed(sha, keyed, e2) == Good(Verified(AdHoc, None, r.digest))
  {
  }

  lemma ImageFrom(sha: Hash, keyed: Record -> bool, c: Bytes, e2: Elf, v: Verified)
    requires ParseElf(c, DEFAULT_LIMITS) == Good(e2) && VerifyParsed(sha, keyed, e2) == Good(v)
    ensures VerifyImage(sha, keyed, c, DEFAULT_LIMITS)
         == if LocateManifest(e2).Bad? then Bad else Good(Image(v, sha(c), LocateManifest(e2).value))
  {
  }

  /** The file with the header that points at the section table an extension will have. */
  function RetabledHeader(e: Elf, name: Bytes, data: Bytes): (w: Bytes)
    requires |e.bytes| >= HEADER_LEN
    ensures |w| == |e.bytes|
  {
    var l := LayoutOf(e, name, data);
    Patched(e.bytes, l.table, l.count)
  }

  /** With the new section table in the file header, no program header describes a segment over the range. */
  predicate RangeSurvives(e: Elf, name: Bytes, data: Bytes, r: Range) {
    && |e.bytes| >= HEADER_LEN && Le(e.bytes, 32, 8) + PROGRAM_LEN * Le(e.bytes, 56, 2) <= |e.bytes|
    && Uncrossed(RetabledHeader(e, name, data), Le(e.bytes, 32, 8), Le(e.bytes, 56, 2), r)
  }

  predicate SurvivesAs(e: Elf, name: Bytes, data: Bytes, wanted: Bytes) {
    var named := Named(e.sections, wanted, |e.sections|);
    named == [] || (named[0] < |e.sections| && RangeSurvives(e, name, data, FileRange(e, named[0])))
  }

  /**
   * What decides whether a signed file verifies: there is no manifest, or the program headers,
   * read under the file header that signing will write, describe no note or loaded segment over it.
   */
  predicate ManifestSurvives(e: Elf) {
    SurvivesAs(e, SIGNATURE_SECTION, NoteBytes(AdHoc, Zeros(32)), MANIFEST_SECTION)
  }

  lemma PatchedPrefix(b: Bytes, out: Bytes, l: Layout)
    requires BytesKept(b, out) && HEADER_LEN <= |b| <= |out| && 0 < l.count
    requires Le(out, 40, 8) == l.table && Le(out, 60, 2) == l.count && Le(out, 62, 2) == l.count - 1
    ensures Same(Patched(b, l.table, l.count), out, 0, |b|)
  {
    LeBytesAt(out, 40, 8);
    LeBytesAt(out, 60, 2);
    LeBytesAt(out, 62, 2);
    PatchedSame(b, out, LeBytes(l.table, 8), LeBytes(l.count, 2), LeBytes(l.count - 1, 2));
  }

  lemma LeBytesAt(out: Bytes, at: nat, n: nat)
    requires at + n <= |out|
    ensures Holds(out, at, LeBytes(Le(out, at, n), n))
  {
    LeIs(out, at, n);
    LeCanonical(out[at..at + n]);
  }

  lemma PatchedSame(b: Bytes, out: Bytes, x: Bytes, y: Bytes, z: Bytes)
    requires BytesKept(b, out) && HEADER_LEN <= |b| <= |out| && |x| == 8 && |y| == 2 && |z| == 2
    requires Holds(out, 40, x) && Holds(out, 60, y) && Holds(out, 62, z)
    ensures Same(b[..40] + x + b[48..60] + y + z + b[64..], out, 0, |b|)
  {
    var w := b[..40] + x + b[48..60] + y + z + b[64..];
    forall i | 0 <= i < |b| ensures w[i] == out[i] {
      if 40 <= i < 48 { assert w[i] == x[i - 40] == out[40..48][i - 40]; }
      if 60 <= i < 62 { assert w[i] == y[i - 60] == out[60..62][i - 60]; }
      if 62 <= i < 64 { assert w[i] == z[i - 62] == out[62..64][i - 62]; }
    }
  }

  lemma MissedIsUncrossed(b: Bytes, w: Bytes, e: Elf, out: Bytes, e1: Elf, r: Range)
    requires ParseElf(b, DEFAULT_LIMITS) == Good(e) && ParseElf(out, DEFAULT_LIMITS) == Good(e1)
    requires BytesKept(b, out) && |b| <= |out| && |w| == |b| && Same(w, out, 0, |b|)
    ensures |b| >= HEADER_LEN && Le(b, 32, 8) + PROGRAM_LEN * Le(b, 56, 2) <= |b|
    ensures ProgramsMiss(e1.programs, r) <==> Uncrossed(w, Le(b, 32, 8), Le(b, 56, 2), r)
  {
    var phoff, n := Le(b, 32, 8), Le(b, 56, 2);
    ParsedTables(b, e, out, e1);
    if n == 0 {
      ParsedPrograms(b, DEFAULT_LIMITS, e);
    } else {
      MissIsUncrossed(out, phoff, n, r);
      UncrossedSame(w, out, phoff, n, r);
    }
  }

  lemma ExtensionPrefix(b: Bytes, e: Elf, name: Bytes, kind: nat, data: Bytes, out: Bytes, e1: Elf)
    requires Extending(b, e, name, kind, data, out, e1)
    ensures |b| >= HEADER_LEN && BytesKept(b, out) && |b| <= |out|
    ensures Same(RetabledHeader(e, name, data), out, 0, |b|)
  {
    var l := LayoutOf(e, name, data);
    ParsedAppended(b, e, name, kind, data, out);
    AppendedFields(e, name, kind, data, out, l);
    NewIndex(b, e, name, kind, data, out, e1);
    ParseRead(b, DEFAULT_LIMITS, e);
    PatchedPrefix(b, out, l);
  }

  lemma SurvivesIsMissed(
    b: Bytes, e: Elf, name: Bytes, kind: nat, data: Bytes, out: Bytes, e1: Elf, wanted: Bytes)
    requires Extending(b, e, name, kind, data, out, e1)
    ensures SurvivesAs(e, name, data, wanted) <==> ManifestMissed(e, wanted, e1.programs)
  {
    ExtensionPrefix(b, e, name, kind, data, out, e1);
    var named := Named(e.sections, wanted, |e.sections|);
    if named != [] && named[0] < |e.sections| {
      MissedIsUncrossed(b, RetabledHeader(e, name, data), e, out, e1, FileRange(e, named[0]));
    }
  }

  /**
   * Exactly which signed files verify: every one whose manifest survives the new section
   * table, and then with the ad-hoc signature, the digest of the normalized output, and the
   * manifest of the input.
   */
  lemma SignThenVerifyExactly(sha: Hash, keyed: Record -> bool, b: Bytes, e: Elf, c: Bytes) returns (offset: nat)
    requires SignAdHoc(sha, b) == Good(c) && ParseElf(b, DEFAULT_LIMITS) == Good(e)
    ensures LocateManifest(e).Good? && offset + DESCRIPTOR_LEN <= |c|
    ensures VerifyImage(sha, keyed, c, DEFAULT_LIMITS)
         == if ManifestSurvives(e)
            then Good(Image(Verified(AdHoc, None, sha(Normalized(c, offset))), sha(c), LocateManifest(e).value))
            else Bad
  {
    var e0, out, e1, r := SignSteps(sha, b, c);
    offset := r.offset;
    var data := NoteBytes(AdHoc, Zeros(32));
    SigningLocates(sha, b, e, SIGNATURE_SECTION, data, out, e1, r, c);
    SectionNames();
    SigningKeepsManifest(sha, b, e, SIGNATURE_SECTION, data, out, e1, r, c, MANIFEST_SECTION);
    SurvivesIsMissed(b, e, SIGNATURE_SECTION, SHT_NOTE, data, out, e1, MANIFEST_SECTION);
    var digest := sha(Normalized(c, offset));
    VerifiedFrom(sha, keyed, c, e1.(bytes := c), SIGNATURE_SECTION, r.(digest := digest));
    ImageFrom(sha, keyed, c, e1.(bytes := c), Verified(AdHoc, None, digest));
  }

  /** A file whose program headers start after the file header, or that has none, keeps its manifest. */
  lemma ClearSurvives(sha: Hash, b: Bytes, e: Elf, c: Bytes)
    requires SignAdHoc(sha, b) == Good(c) && ParseElf(b, DEFAULT_LIMITS) == Good(e) && ProgramsClear(b)
    ensures ManifestSurvives(e)
  {
    var e0, out, e1, r := SignSteps(sha, b, c);
    var data := NoteBytes(AdHoc, Zeros(32));
    SigningRecord(sha, b, e, SIGNATURE_SECTION, data, out, e1, r, c, LayoutOf(e, SIGNATURE_SECTION, data));
    SurvivesIsMissed(b, e, SIGNATURE_SECTION, SHT_NOTE, data, out, e1, MANIFEST_SECTION);
    ParsedPrograms(b, DEFAULT_LIMITS, e);
    ParsedPrograms(out, DEFAULT_LIMITS, e1);
    ProgramsKept(b, out, DEFAULT_LIMITS);
    FoundIsMissed(e);
  }

  lemma FoundIsMissed(e: Elf)
    requires LocateManifest(e).Good?
    ensures ManifestMissed(e, MANIFEST_SECTION, e.programs)
  {
  }

  /** Whatever the signer accepts, `verify` accepts, if the program headers are clear of the file header. */
  lemma SignThenVerify(sha: Hash, keyed: Record -> bool, b: Bytes, c: Bytes)
    requires SignAdHoc(sha, b) == Good(c) && ProgramsClear(b)
    ensures Verify(sha, keyed, c).Good? && Verify(sha, keyed, c).value.kind == AdHoc
    ensures Verify(sha, keyed, c).value.keyId == None
  {
    var e := ParseElf(b, DEFAULT_LIMITS).value;
    var offset := SignThenVerifyExactly(sha, keyed, b, e, c);
    ClearSurvives(sha, b, e, c);
  }

  /** The text of the one new section of an extension by a manifest. */
  lemma EmbeddedText(e: Elf, e1: Elf, l: Layout, name: Bytes, data: Bytes, found: Bytes)
    requires e.shstrIndex < |e.sections| && Named(e.sections, name, |e.sections|) == []
    requires Extends(e, e1, l, name, SHT_PROGBITS, |data|) && Holds(e1.bytes, l.dataAt, data)
    requires LocateManifestAs(e1, name) == Good(Some(found))
    ensures |data| >= MANIFEST_HEADER_LEN && found == data[MANIFEST_HEADER_LEN..]
  {
    NamedShape(e.sections, name, |e.sections|);
    assert e.sections[e.shstrIndex].name != name;
    NamedExtension(e.sections, e1.sections, e.shstrIndex, l, name, SHT_PROGBITS, |data|, name);
  }

  /** An embedded manifest is found again, exactly. */
  lemma EmbedThenLocate(b: Bytes, declaration: Bytes, m: Bytes) returns (e1: Elf)
    requires EmbedManifest(b, declaration) == Good(m)
    ensures ParseElf(m, DEFAULT_LIMITS) == Good(e1) && LocateManifest(e1) == Good(Some(declaration))
    ensures BytesKept(b, m)
  {
    var e := ParseElf(b, DEFAULT_LIMITS).value;
    var data := ManifestHeader() + declaration;
    e1 := ParseElf(m, DEFAULT_LIMITS).value;
    SectionNames();
    ExtendingFacts(b, e, MANIFEST_SECTION, SHT_PROGBITS, data, m, e1, LayoutOf(e, MANIFEST_SECTION, data));
    EmbeddedText(e, e1, LayoutOf(e, MANIFEST_SECTION, data), MANIFEST_SECTION, data, LocateManifest(e1).value.value);
    assert data[MANIFEST_HEADER_LEN..] == declaration;
  }

  lemma ProgramsStayClear(b: Bytes, out: Bytes)
    requires ProgramsClear(b) && BytesKept(b, out) && |out| >= HEADER_LEN
    ensures ProgramsClear(out)
  {
    SameLe(b, out, 0, 40, 32, 8);
    SameLe(b, out, 48, 60, 56, 2);
  }

  /**
   * A manifest embedded before signing is what verification of the signed file returns, if
   * it survives; and it does when the program headers are clear of the file header.
   */
  lemma EmbedSignVerify(sha: Hash, keyed: Record -> bool, b: Bytes, declaration: Bytes, m: Bytes, c: Bytes)
    returns (e1: Elf)
    requires EmbedManifest(b, declaration) == Good(m) && SignAdHoc(sha, m) == Good(c)
    ensures ParseElf(m, DEFAULT_LIMITS) == Good(e1) && (ProgramsClear(b) ==> ManifestSurvives(e1))
    ensures VerifyImage(sha, keyed, c, DEFAULT_LIMITS).Good? <==> ManifestSurvives(e1)
    ensures ManifestSurvives(e1) ==> VerifyImage(sha, keyed, c, DEFAULT_LIMITS).value.manifest == Some(declaration)
  {
    e1 := EmbedThenLocate(b, declaration, m);
    var offset := SignThenVerifyExactly(sha, keyed, m, e1, c);
    if ProgramsClear(b) {
      ProgramsStayClear(b, m);
      ClearSurvives(sha, m, e1, c);
    }
  }

  /** The one section with a name holds a descriptor that overlaps nothing else the file uses. */
  predicate Isolated(e: Elf, name: Bytes, d: Range, index: nat) {
    && index < |e.sections| && e.sections[index].kind == SHT_NOTE
    && (forall j :: 0 <= j < |e.sections| ==> (e.sections[j].name == name <==> j == index))
    && e.sections[index].offset <= d.lo && d.hi <= e.sections[index].offset + e.sections[index].size
    && !Overlaps(d, Range(0, HEADER_LEN)) && !Overlaps(d, e.sectionTable)
    && (e.programTable.Some? ==> !Overlaps(d, e.programTable.value))
    && (forall i :: 0 <= i < |e.programs.loads| ==> !Overlaps(d, e.programs.loads[i]))
    && (forall i :: 0 <= i < |e.sections| && i != index && FileBacked(e.sections[i]) && e.sections[i].size != 0 ==>
          !Overlaps(d, Range(e.sections[i].offset, e.sections[i].offset + e.sections[i].size)))
  }

  lemma LocatedIsolated(e: Elf, sig: Bytes, r: Record) returns (index: nat)
    requires NotesOk(e.programs.notes, |e.bytes|) && LocateRecordAs(e, sig) == Good(Some(r))
    ensures Isolated(e, sig, Range(r.offset, r.offset + DESCRIPTOR_LEN), index)
  {
    var o;
    index, o := RecordLocated(e, sig, r);
  }

  /**
   * A located record comes from the one section with the reserved name, and its 146 bytes
   * overlap no header, table, loaded segment or other section that has bytes in the file.
   */
  lemma RecordIsIsolated(b: Bytes, limits: Limits, e: Elf, r: Record) returns (index: nat)
    requires ParseElf(b, limits) == Good(e) && LocateRecord(e) == Good(Some(r))
    ensures Isolated(e, SIGNATURE_SECTION, Range(r.offset, r.offset + DESCRIPTOR_LEN), index)
  {
    ParsedInside(b, limits, e);
    index := LocatedIsolated(e, SIGNATURE_SECTION, r);
  }

  predicate OnlyTablePatched(b: Bytes, out: Bytes) {
    |b| <= |out| && forall i :: 0 <= i < |b| && !(40 <= i < 48) && !(60 <= i < 64) ==> out[i] == b[i]
  }

  lemma PatchedOnly(b: Bytes, out: Bytes)
    requires BytesKept(b, out)
    ensures OnlyTablePatched(b, out)
  {
  }

  /** A name table that begins with another and ends with a name between two NULs. */
  predicate Delimited(shstr: Bytes, t: Bytes, name: Bytes) {
    shstr <= t && |t| >= |name| + 2 && t[|t| - |name| - 2..] == [0] + name + [0]
  }

  lemma NameDelimited(e: Elf, name: Bytes, data: Bytes)
    ensures Delimited(e.shstr, LayoutOf(e, name, data).shstr, name)
  {
    var base := Terminated(e.shstr);
    var t := base + name + [0];
    assert t[|t| - |name| - 2..] == [base[|base| - 1]] + name + [0];
  }

  /** Appending a section keeps every input byte but three header fields, and every section and name. */
  lemma AppendKeeps(b: Bytes, e: Elf, name: Bytes, kind: nat, data: Bytes, out: Bytes, e1: Elf)
    requires Extending(b, e, name, kind, data, out, e1)
    ensures OnlyTablePatched(b, out)
    ensures Extends(e, e1, LayoutOf(e, name, data), name, kind, |data|)
    ensures Holds(out, e1.sections[|e.sections|].offset, data)
    ensures Delimited(e.shstr, e1.shstr, name)
  {
    NameDelimited(e, name, data);
    ExtendingFacts(b, e, name, kind, data, out, e1, LayoutOf(e, name, data));
    PatchedOnly(b, out);
  }
}
