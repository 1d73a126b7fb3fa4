/**
 * ELF signature records on byte strings: parsing, locating the one record and the one
 * manifest, appending a section, signing and verifying. Every bail is `Bad`; SHA-256 is
 * an arbitrary function.
 */
module ElfSpec {
  import opened Machine
  import opened Text

  type Bytes = seq<byte>

  datatype Parse<+T> = Bad | Good(value: T)

  const MAX_ELF_LEN := 0x4000_0000
  const HEADER_LEN := 64
  const SECTION_LEN := 64
  const PROGRAM_LEN := 56
  const SHT_PROGBITS := 1
  const SHT_STRTAB := 3
  const SHT_NOTE := 7
  const SHT_NOBITS := 8
  const PT_LOAD := 1
  const PT_NOTE := 4
  const DESCRIPTOR_LEN := 146
  const DIGEST_OFFSET := 50
  const SIGNATURE_OFFSET := 82
  const NOTE_TYPE := 0x4d53_4947
  const MAX_MANIFEST_LEN := 65536
  const MANIFEST_HEADER_LEN := 16

  // ".note.mochios.signature", "mochiOS\0", "MOELFSIG", ".mochios.manifest", "MOELFMAN"
  const SIGNATURE_SECTION: Bytes :=
    [46, 110, 111, 116, 101, 46, 109, 111, 99, 104, 105, 111, 115, 46, 115, 105, 103, 110, 97, 116, 117, 114, 101]
  const NOTE_NAME: Bytes := [109, 111, 99, 104, 105, 79, 83, 0]
  const DESCRIPTOR_MAGIC: Bytes := [77, 79, 69, 76, 70, 83, 73, 71]
  const MANIFEST_SECTION: Bytes := [46, 109, 111, 99, 104, 105, 111, 115, 46, 109, 97, 110, 105, 102, 101, 115, 116]
  const MANIFEST_MAGIC: Bytes := [77, 79, 69, 76, 70, 77, 65, 78]
  const ELF_MAGIC: Bytes := [0x7f, 69, 76, 70]

  datatype Limits = Limits(image: nat, sections: nat, programs: nat, notes: nat, names: nat)

  const DEFAULT_LIMITS := Limits(MAX_ELF_LEN, 0xFFFF, 0xFFFF, 2 * MAX_ELF_LEN, MAX_ELF_LEN)

  /** A section: where its name starts in the name table, the name, its fields, and where its header is. */
  datatype Section = Section(
    nameAt: nat, name: Bytes, kind: nat, offset: nat, size: nat, align: nat, entrySize: nat, raw: nat)

  datatype Origin = FromSection(index: nat) | FromProgram(index: nat)

  datatype Area = Area(offset: nat, size: nat, origin: Origin)

  datatype Range = Range(lo: nat, hi: nat)

  datatype Programs = Programs(notes: seq<Area>, loads: seq<Range>)

  datatype Elf = Elf(
    bytes: Bytes, sections: seq<Section>, shstrIndex: nat, shstr: Bytes,
    programs: Programs, programTable: Option<Range>, sectionTable: Range, noteLimit: nat)

  predicate Overlaps(a: Range, b: Range) {
    a.lo < b.hi && b.lo < a.hi
  }

  function Align4(x: nat): (r: nat)
    ensures x <= r < x + 4 && r % 4 == 0
  {
    (x + 3) / 4 * 4
  }

  /** The remainder, by repeated subtraction. */
  function Remainder(x: nat, m: nat): (r: nat)
    requires m > 0
    ensures r < m
  {
    if x < m then x else Remainder(x - m, m)
  }

  predicate PowerOfTwo(x: nat) {
    x == 1 || (x > 1 && x % 2 == 0 && PowerOfTwo(x / 2))
  }

  // ---------------------------------------------------------------- parsing

  predicate HeaderOk(b: Bytes) {
    && |b| >= HEADER_LEN && b[..4] == ELF_MAGIC
    && b[4] == 2 && b[5] == 1 && b[6] == 1
    && (forall i :: 7 <= i < 16 ==> b[i] == 0)
    && (Le(b, 16, 2) == 2 || Le(b, 16, 2) == 3)
    && Le(b, 20, 4) == 1 && Le(b, 52, 2) == HEADER_LEN
  }

  predicate ProgramOk(b: Bytes, raw: nat)
    requires raw + PROGRAM_LEN <= |b|
  {
    var kind, offset, size, align := Le(b, raw, 4), Le(b, raw + 8, 8), Le(b, raw + 32, 8), Le(b, raw + 48, 8);
    && offset + size <= |b|
    && (align > 1 ==> PowerOfTwo(align))
    && (kind == PT_LOAD ==> size <= Le(b, raw + 40, 8))
    && (kind == PT_LOAD && align > 1 ==> Remainder(Le(b, raw + 16, 8), align) == Remainder(offset, align))
  }

  function WithProgram(p: Programs, index: nat, kind: nat, offset: nat, size: nat): Programs {
    Programs(
      if kind == PT_NOTE then p.notes + [Area(offset, size, FromProgram(index))] else p.notes,
      if kind == PT_LOAD && size != 0 then p.loads + [Range(offset, offset + size)] else p.loads)
  }

  /** The notes and loads of the first n program headers. */
  function ParsePrograms(b: Bytes, phoff: nat, n: nat): Parse<Programs>
    requires phoff + PROGRAM_LEN * n <= |b|
  {
    if n == 0 then Good(Programs([], []))
    else
      var raw := phoff + PROGRAM_LEN * (n - 1);
      var before := ParsePrograms(b, phoff, n - 1);
      if before.Bad? || !ProgramOk(b, raw) then Bad
      else
        var kind, offset, size := Le(b, raw, 4), Le(b, raw + 8, 8), Le(b, raw + 32, 8);
        Good(WithProgram(before.value, n - 1, kind, offset, size))
  }

  function ParseProgramTable(b: Bytes, limits: Limits): Parse<(Programs, Option<Range>)>
    requires |b| >= HEADER_LEN
  {
    var phoff, phentsize, phnum := Le(b, 32, 8), Le(b, 54, 2), Le(b, 56, 2);
    if phnum > limits.programs then Bad
    else if phnum == 0 then (if phoff != 0 then Bad else Good((Programs([], []), None)))
    else if phoff == 0 || phnum == 0xFFFF || phentsize != PROGRAM_LEN || phoff + PROGRAM_LEN * phnum > |b| then Bad
    else
      var p := ParsePrograms(b, phoff, phnum);
      if p.Bad? then Bad else Good((p.value, Some(Range(phoff, phoff + PROGRAM_LEN * phnum))))
  }

  function SectionAt(b: Bytes, raw: nat): Section
    requires raw + SECTION_LEN <= |b|
  {
    Section(Le(b, raw, 4), [], Le(b, raw + 4, 4), Le(b, raw + 24, 8), Le(b, raw + 32, 8),
            Le(b, raw + 48, 8), Le(b, raw + 56, 8), raw)
  }

  function SectionList(b: Bytes, shoff: nat, n: nat): (ss: seq<Section>)
    requires shoff + SECTION_LEN * n <= |b|
    ensures |ss| == n && forall i :: 0 <= i < n ==> ss[i].raw == shoff + SECTION_LEN * i
  {
    if n == 0 then []
    else SectionList(b, shoff, n - 1) + [SectionAt(b, shoff + SECTION_LEN * (n - 1))]
  }

  predicate FileBacked(s: Section) {
    s.kind != SHT_NOBITS
  }

  function FirstZero(s: Bytes): Option<nat> {
    if s == [] then None
    else if s[0] == 0 then Some(0)
    else
      var rest := FirstZero(s[1..]);
      if rest.None? then None else Some(rest.value + 1)
  }

  /** The bytes up to the next NUL, looked for within the remaining budget. */
  function NameAt(shstr: Bytes, at: nat, budget: nat): Option<Bytes> {
    if at > |shstr| then None
    else
      var scan := shstr[at..][..Min(|shstr| - at, budget)];
      var n := FirstZero(scan);
      if n.None? || n.value > |scan| then None else Some(scan[..n.value])
  }

  function WithNames(ss: seq<Section>, shstr: Bytes, budget: nat): (r: Parse<seq<Section>>)
    ensures r.Good? ==> |r.value| == |ss| && forall i :: 0 <= i < |ss| ==> r.value[i].raw == ss[i].raw
  {
    if ss == [] then Good([])
    else
      var name := NameAt(shstr, ss[0].nameAt, budget);
      if name.None? || |name.value| + 1 > budget then Bad
      else
        var rest := WithNames(ss[1..], shstr, budget - (|name.value| + 1));
        if rest.Bad? then Bad else Good([ss[0].(name := name.value)] + rest.value)
  }

  predicate SectionOk(s: Section) {
    && (s.align != 0 ==> PowerOfTwo(s.align))
    && (FileBacked(s) && s.size != 0 && s.align > 1 ==> Remainder(s.offset, s.align) == 0)
    && (s.entrySize != 0 ==> Remainder(s.size, s.entrySize) == 0)
  }

  predicate AllOk(ss: seq<Section>) {
    ss == [] || (SectionOk(ss[0]) && AllOk(ss[1..]))
  }

  /** Sections with their names, the index of the name table, the table and its range. */
  datatype SectionInfo = SectionInfo(sections: seq<Section>, index: nat, shstr: Bytes, table: Range)

  predicate NameTableOk(ss: seq<Section>, index: nat, limit: nat) {
    && |ss| > 0 && index < |ss|
    && (forall i :: 0 <= i < |ss| && FileBacked(ss[i]) ==> ss[i].offset + ss[i].size <= limit)
    && ss[0].nameAt == 0 && ss[0].kind == 0 && ss[0].offset == 0 && ss[0].size == 0
    && ss[index].kind == SHT_STRTAB
  }

  /** Every section header lies inside the file. */
  predicate Framed(ss: seq<Section>, index: nat, limit: nat) {
    HEADER_LEN <= limit && index < |ss| && forall i :: 0 <= i < |ss| ==> ss[i].raw + SECTION_LEN <= limit
  }

  /** The name table, then the named sections, of a section list. */
  function NameSections(b: Bytes, ss: seq<Section>, index: nat, names: nat): (r: Parse<(seq<Section>, Bytes)>)
    requires forall i :: 0 <= i < |ss| ==> ss[i].raw + SECTION_LEN <= |b|
    ensures r.Good? ==> |r.value.0| == |ss| && index < |ss|
    ensures r.Good? ==> forall i :: 0 <= i < |ss| ==> r.value.0[i].raw == ss[i].raw
  {
    if !NameTableOk(ss, index, |b|) then Bad
    else
      var shstr := b[ss[index].offset..ss[index].offset + ss[index].size];
      if shstr == [] || shstr[0] != 0 then Bad
      else
        var named := WithNames(ss, shstr, names);
        if named.Bad? then Bad else Good((named.value, shstr))
  }

  function SectionsFrom(
    b: Bytes, limits: Limits, shoff: nat, shentsize: nat, shnum: nat, index: nat): (r: Parse<SectionInfo>)
    requires |b| >= HEADER_LEN
    ensures r.Good? ==> Framed(r.value.sections, r.value.index, |b|)
  {
    if shnum > limits.sections || shnum == 0 || shoff == 0 || shentsize != SECTION_LEN
       || shoff + SECTION_LEN * shnum > |b| || index == 0xFFFF || index >= shnum then Bad
    else
      CheckSections(NameSections(b, SectionList(b, shoff, shnum), index, limits.names), index,
                    Range(shoff, shoff + SECTION_LEN * shnum))
  }

  function CheckSections(named: Parse<(seq<Section>, Bytes)>, index: nat, table: Range): (r: Parse<SectionInfo>)
    ensures r.Good? ==> named.Good? && r.value == SectionInfo(named.value.0, index, named.value.1, table)
  {
    if named.Bad? || !AllOk(named.value.0) then Bad
    else Good(SectionInfo(named.value.0, index, named.value.1, table))
  }

  function ParseSectionTable(b: Bytes, limits: Limits): (r: Parse<SectionInfo>)
    requires |b| >= HEADER_LEN
    ensures r.Good? ==> Framed(r.value.sections, r.value.index, |b|)
  {
    SectionsFrom(b, limits, Le(b, 40, 8), Le(b, 58, 2), Le(b, 60, 2), Le(b, 62, 2))
  }

  function ParseElf(b: Bytes, limits: Limits): (r: Parse<Elf>)
    ensures r.Good? ==> r.value.bytes == b && Framed(r.value.sections, r.value.shstrIndex, |b|)
  {
    if |b| > MAX_ELF_LEN || |b| > limits.image || !HeaderOk(b) then Bad
    else
      var p := ParseProgramTable(b, limits);
      if p.Bad? then Bad
      else
        var s := ParseSectionTable(b, limits);
        if s.Bad? then Bad
        else
          Good(Elf(b, s.value.sections, s.value.index, s.value.shstr, p.value.0, p.value.1,
                   s.value.table, limits.notes))
  }

  // ---------------------------------------------------------------- notes

  datatype Note = Note(ours: bool, descriptor: nat, next: nat)

  function NoteFrom(b: Bytes, nameAt: nat, end: nat, namesz: nat, descsz: nat, kind: nat): (r: Parse<Note>)
    requires nameAt <= end <= |b|
    ensures r.Good? ==> nameAt <= r.value.descriptor <= r.value.next <= end
    ensures r.Good? && r.value.ours ==> r.value.descriptor + DESCRIPTOR_LEN <= r.value.next
  {
    var nameEnd := nameAt + namesz;
    var descriptor := Align4(nameEnd);
    var descriptorEnd := descriptor + descsz;
    var next := Align4(descriptorEnd);
    if nameEnd > end || descriptor > end || descriptorEnd > end || next > end then Bad
    else
      var ours := kind == NOTE_TYPE && b[nameAt..nameEnd] == NOTE_NAME;
      if ours && (descsz != DESCRIPTOR_LEN || !AllZero(b[nameEnd..descriptor]) || !AllZero(b[descriptorEnd..next]))
      then Bad
      else Good(Note(ours, descriptor, next))
  }

  /** The note at a cursor: whether it is a signature note, its descriptor and its end. */
  function NoteAt(b: Bytes, cursor: nat, end: nat): (r: Parse<Note>)
    requires cursor < end <= |b|
    ensures r.Good? ==> cursor + 12 <= r.value.descriptor <= r.value.next <= end
    ensures r.Good? && r.value.ours ==> r.value.descriptor + DESCRIPTOR_LEN <= r.value.next
  {
    if end - cursor < 12 then Bad
    else NoteFrom(b, cursor + 12, end, Le(b, cursor, 4), Le(b, cursor + 4, 4), Le(b, cursor + 8, 4))
  }

  /** The descriptor offsets of the signature notes in [cursor, end). */
  function Notes(b: Bytes, cursor: nat, end: nat): (r: Parse<seq<nat>>)
    requires end <= |b|
    ensures r.Good? ==> forall d :: d in r.value ==> cursor + 12 <= d && d + DESCRIPTOR_LEN <= end
    decreases end - cursor
  {
    if cursor >= end then Good([])
    else
      var note := NoteAt(b, cursor, end);
      if note.Bad? then Bad
      else
        var rest := Notes(b, note.value.next, end);
        if rest.Bad? then Bad
        else Good((if note.value.ours then [note.value.descriptor] else []) + rest.value)
  }

  predicate AllZero(s: Bytes) {
    forall i :: 0 <= i < |s| ==> s[i] == 0
  }

  datatype Occurrence = Occurrence(descriptor: nat, area: Area)

  function Occurrences(ds: seq<nat>, area: Area): seq<Occurrence> {
    seq(|ds|, i requires 0 <= i < |ds| => Occurrence(ds[i], area))
  }

  function SectionAreas(ss: seq<Section>, n: nat): seq<Area>
    requires n <= |ss|
  {
    if n == 0 then []
    else if ss[n - 1].kind == SHT_NOTE then
      SectionAreas(ss, n - 1) + [Area(ss[n - 1].offset, ss[n - 1].size, FromSection(n - 1))]
    else SectionAreas(ss, n - 1)
  }

  function AllAreas(e: Elf): seq<Area> {
    SectionAreas(e.sections, |e.sections|) + e.programs.notes
  }

  function TotalSize(areas: seq<Area>): nat {
    if areas == [] then 0 else areas[0].size + TotalSize(areas[1..])
  }

  function AddOccurrences(here: Parse<seq<nat>>, a: Area, rest: Parse<seq<Occurrence>>): Parse<seq<Occurrence>> {
    if here.Bad? || rest.Bad? then Bad else Good(Occurrences(here.value, a) + rest.value)
  }

  function ScanAreas(b: Bytes, areas: seq<Area>): Parse<seq<Occurrence>> {
    if areas == [] then Good([])
    else
      var a := areas[0];
      if a.offset + a.size > |b| then Bad
      else
        AddOccurrences(Notes(b, a.offset, a.offset + a.size), a, ScanAreas(b, areas[1..]))
  }

  // ---------------------------------------------------------------- the record

  datatype Kind = AdHoc | Ed25519

  datatype Record = Record(
    kind: Kind, digestAlgorithm: nat, signatureAlgorithm: nat, flags: nat,
    keyId: Bytes, digest: Bytes, signature: Bytes, offset: nat)

  /** The positions of the sections with a name, among the first n. */
  function Named(ss: seq<Section>, name: Bytes, n: nat): seq<nat>
    requires n <= |ss|
  {
    if n == 0 then []
    else if ss[n - 1].name == name then Named(ss, name, n - 1) + [n - 1]
    else Named(ss, name, n - 1)
  }

  predicate LocationOk(e: Elf, o: Occurrence) {
    var d := Range(o.descriptor, o.descriptor + DESCRIPTOR_LEN);
    && d.hi <= |e.bytes|
    && !Overlaps(d, Range(0, HEADER_LEN))
    && (e.programTable.Some? ==> !Overlaps(d, e.programTable.value))
    && !Overlaps(d, e.sectionTable)
    && (forall i :: 0 <= i < |e.programs.loads| ==> !Overlaps(d, e.programs.loads[i]))
    && (forall i :: 0 <= i < |e.sections| && FileBacked(e.sections[i]) && e.sections[i].size != 0
                    && o.area.origin != FromSection(i) ==>
          !Overlaps(d, Range(e.sections[i].offset, e.sections[i].offset + e.sections[i].size)))
  }

  function ParseRecord(b: Bytes, offset: nat): Parse<Record> {
    if offset + DESCRIPTOR_LEN > |b| then Bad
    else if b[offset..offset + 8] != DESCRIPTOR_MAGIC || Le(b, offset + 8, 2) != 1
            || (b[offset + 10] != 1 && b[offset + 10] != 2) || b[offset + 13] != 0 then Bad
    else
      Good(Record(if b[offset + 10] == 1 then AdHoc else Ed25519,
                  b[offset + 11], b[offset + 12], Le(b, offset + 14, 4),
                  b[offset + 18..offset + 50], b[offset + 50..offset + 82], b[offset + 82..offset + 146], offset))
  }

  /** The one note, or the one note seen both through a section and a segment. */
  function Chosen(os: seq<Occurrence>): Parse<Occurrence> {
    if |os| == 1 then Good(os[0])
    else if |os| == 2 && os[0].descriptor == os[1].descriptor
            && os[0].area.offset == os[1].area.offset && os[0].area.size == os[1].area.size
            && os[0].area.origin.FromSection? != os[1].area.origin.FromSection? then Good(os[0])
    else Bad
  }

  /** The record of the section with the reserved name. */
  function LocateRecordAs(e: Elf, sig: Bytes): (r: Parse<Option<Record>>)
    ensures r.Good? && r.value.Some? ==> r.value.value.offset + DESCRIPTOR_LEN <= |e.bytes|
  {
    var named := Named(e.sections, sig, |e.sections|);
    var scan := ScanAreas(e.bytes, AllAreas(e));
    if |named| > 1 || (exists i :: i in named && i < |e.sections| && e.sections[i].kind != SHT_NOTE)
       || TotalSize(AllAreas(e)) > e.noteLimit || scan.Bad? then Bad
    else if scan.value == [] then (if named == [] then Good(None) else Bad)
    else
      var chosen := Chosen(scan.value);
      if chosen.Bad? || named == [] || named[0] >= |e.sections| then Bad
      else
        var s, o := e.sections[named[0]], chosen.value;
        if o.descriptor < s.offset || o.descriptor + DESCRIPTOR_LEN > s.offset + s.size || !LocationOk(e, o) then Bad
        else
          var r := ParseRecord(e.bytes, o.descriptor);
          if r.Bad? then Bad else Good(Some(r.value))
  }

  function LocateRecord(e: Elf): (r: Parse<Option<Record>>)
    ensures r.Good? && r.value.Some? ==> r.value.value.offset + DESCRIPTOR_LEN <= |e.bytes|
  {
    LocateRecordAs(e, SIGNATURE_SECTION)
  }

  predicate RecordOk(r: Record) {
    && r.digestAlgorithm == 1 && r.flags == 0
    && (r.kind == AdHoc ==> r.signatureAlgorithm == 0 && AllZero(r.keyId) && AllZero(r.signature))
    && (r.kind == Ed25519 ==> r.signatureAlgorithm == 1)
  }

  /** The file with the digest and signature fields of a record zeroed. */
  function Normalized(b: Bytes, offset: nat): Bytes
    requires offset + DESCRIPTOR_LEN <= |b|
  {
    b[..offset + DIGEST_OFFSET] + Zeros(32) + b[offset + DIGEST_OFFSET + 32..offset + SIGNATURE_OFFSET] + Zeros(64)
    + b[offset + SIGNATURE_OFFSET + 64..]
  }

  // ---------------------------------------------------------------- the manifest

  predicate TextOk(t: Bytes) {
    t != [] && |t| <= MAX_MANIFEST_LEN && 0 !in t && ValidUtf8(t)
  }

  predicate ManifestSectionOk(e: Elf, index: nat)
    requires index < |e.sections|
  {
    var s := e.sections[index];
    && s.kind == SHT_PROGBITS && s.align == 4 && s.entrySize == 0
    && s.raw + SECTION_LEN <= |e.bytes|
    && Le(e.bytes, s.raw + 8, 8) == 0 && Le(e.bytes, s.raw + 16, 8) == 0 && Le(e.bytes, s.raw + 40, 8) == 0
    && s.offset % 4 == 0 && MANIFEST_HEADER_LEN < s.size <= MANIFEST_HEADER_LEN + MAX_MANIFEST_LEN
  }

  predicate ManifestClear(e: Elf, index: nat)
    requires index < |e.sections|
  {
    var r := Range(e.sections[index].offset, e.sections[index].offset + e.sections[index].size);
    && !Overlaps(r, Range(0, HEADER_LEN))
    && (e.programTable.Some? ==> !Overlaps(r, e.programTable.value))
    && !Overlaps(r, e.sectionTable)
    && (forall i :: 0 <= i < |e.programs.loads| ==> !Overlaps(r, e.programs.loads[i]))
    && (forall i :: 0 <= i < |e.programs.notes| ==>
          !Overlaps(r, Range(e.programs.notes[i].offset, e.programs.notes[i].offset + e.programs.notes[i].size)))
    && (forall i :: 0 <= i < |e.sections| && i != index && FileBacked(e.sections[i]) && e.sections[i].size != 0 ==>
          !Overlaps(r, Range(e.sections[i].offset, e.sections[i].offset + e.sections[i].size)))
  }

  function ManifestHeader(): (h: Bytes)
    ensures |h| == MANIFEST_HEADER_LEN
  {
    MANIFEST_MAGIC + [1, 0, 1, 0, 0, 0, 0, 0]
  }

  function ManifestAt(e: Elf, index: nat): Parse<Bytes>
    requires index < |e.sections|
  {
    var s := e.sections[index];
    if !ManifestSectionOk(e, index) || !ManifestClear(e, index) || s.offset + s.size > |e.bytes| then Bad
    else
      var data := e.bytes[s.offset..s.offset + s.size];
      if data[..MANIFEST_HEADER_LEN] != ManifestHeader() || !TextOk(data[MANIFEST_HEADER_LEN..]) then Bad
      else Good(data[MANIFEST_HEADER_LEN..])
  }

  function LocateManifest(e: Elf): Parse<Option<Bytes>> {
    LocateManifestAs(e, MANIFEST_SECTION)
  }

  function LocateManifestAs(e: Elf, name: Bytes): Parse<Option<Bytes>> {
    var named := Named(e.sections, name, |e.sections|);
    if named == [] then Good(None)
    else if |named| > 1 || named[0] >= |e.sections| then Bad
    else
      var m := ManifestAt(e, named[0]);
      if m.Bad? then Bad else Good(Some(m.value))
  }

  // ---------------------------------------------------------------- appending a section

  function Terminated(shstr: Bytes): Bytes {
    if shstr == [] || shstr[|shstr| - 1] != 0 then shstr + [0] else shstr
  }

  function Padded(b: Bytes, to: nat): Bytes
    requires to > 0
  {
    b + Zeros(Padding(|b|, to))
  }

  function Padding(n: nat, to: nat): (p: nat)
    requires to > 0
    ensures p < to
  {
    var r := n % to;
    if r == 0 then 0 else to - r
  }

  /** A section header with only the fields the writer sets. */
  function HeaderBytes(name: nat, kind: nat, offset: nat, size: nat, align: nat): (h: Bytes)
    ensures |h| == SECTION_LEN
  {
    LeBytes(name, 4) + LeBytes(kind, 4) + Zeros(16) + LeBytes(offset, 8) + LeBytes(size, 8) + Zeros(8)
    + LeBytes(align, 8) + Zeros(8)
  }

  /** The headers of the first n input sections, copied. */
  function CopiedHeaders(b: Bytes, ss: seq<Section>, n: nat): Bytes
    requires n <= |ss| && forall i :: 0 <= i < |ss| ==> ss[i].raw + SECTION_LEN <= |b|
  {
    if n == 0 then []
    else CopiedHeaders(b, ss, n - 1) + b[ss[n - 1].raw..ss[n - 1].raw + SECTION_LEN]
  }

  /** The three header fields that point at the new section table. */
  function Patched(b: Bytes, table: nat, count: nat): Bytes
    requires |b| >= HEADER_LEN && count > 0
  {
    b[..40] + LeBytes(table, 8) + b[48..60] + LeBytes(count, 2) + LeBytes(count - 1, 2) + b[64..]
  }

  /** Where the pieces of an extended file go. */
  datatype Layout = Layout(name: nat, dataAt: nat, shstrAt: nat, table: nat, count: nat, shstr: Bytes)

  function LayoutOf(e: Elf, name: Bytes, data: Bytes): Layout {
    var shstr := Terminated(e.shstr) + name + [0];
    var dataAt := |e.bytes| + Padding(|e.bytes|, 4);
    var shstrAt := dataAt + |data|;
    var end := shstrAt + |shstr|;
    Layout(|Terminated(e.shstr)|, dataAt, shstrAt, end + Padding(end, 8), |e.sections| + 2, shstr)
  }

  /** The input, the data, the new name table, the copied headers and two new ones, then the patched header. */
  function Extended(l: Layout, oldName: nat, kind: nat, b: Bytes, data: Bytes, copied: Bytes): Bytes
    requires |b| >= HEADER_LEN && l.count > 0
  {
    Patched(
      Padded(Padded(b, 4) + data + l.shstr, 8) + copied
      + HeaderBytes(l.name, kind, l.dataAt, |data|, 4) + HeaderBytes(oldName, SHT_STRTAB, l.shstrAt, |l.shstr|, 1),
      l.table, l.count)
  }

  function AppendSection(e: Elf, name: Bytes, kind: nat, data: Bytes): Parse<Bytes>
    requires Framed(e.sections, e.shstrIndex, |e.bytes|)
  {
    var l := LayoutOf(e, name, data);
    if l.count > 0xFFFF || l.name >= 0x1_0000_0000
       || |e.bytes| + |data| + |l.shstr| + SECTION_LEN * l.count + 16 > MAX_ELF_LEN then Bad
    else
      Good(Extended(l, e.sections[e.shstrIndex].nameAt, kind, e.bytes, data,
                    CopiedHeaders(e.bytes, e.sections, |e.sections|)))
  }

  // ---------------------------------------------------------------- signing and verifying

  function Descriptor(kind: Kind, keyId: Bytes): (d: Bytes)
    requires |keyId| == 32
    ensures |d| == DESCRIPTOR_LEN
  {
    DESCRIPTOR_MAGIC + LeBytes(1, 2) + [if kind == AdHoc then 1 else 2, 1, if kind == AdHoc then 0 else 1, 0]
    + LeBytes(0, 4) + keyId + Zeros(32) + Zeros(64)
  }

  function NoteBytes(kind: Kind, keyId: Bytes): (n: Bytes)
    requires |keyId| == 32
    ensures |n| == 168
  {
    LeBytes(8, 4) + LeBytes(DESCRIPTOR_LEN, 4) + LeBytes(NOTE_TYPE, 4) + NOTE_NAME
    + Descriptor(kind, keyId) + [0, 0]
  }

  function EmbedEmptyRecord(b: Bytes, kind: Kind, keyId: Bytes): Parse<Bytes>
    requires |keyId| == 32
  {
    var e := ParseElf(b, DEFAULT_LIMITS);
    if e.Bad? || LocateRecord(e.value) != Good(None)
       || Named(e.value.sections, SIGNATURE_SECTION, |e.value.sections|) != []
       || LocateManifest(e.value).Bad? then Bad
    else
      var out := AppendSection(e.value, SIGNATURE_SECTION, SHT_NOTE, NoteBytes(kind, keyId));
      if out.Bad? then Bad
      else
        var again := ParseElf(out.value, DEFAULT_LIMITS);
        if again.Bad? || LocateRecord(again.value).Bad? || LocateRecord(again.value).value.None? then Bad else out
  }

  function FilledDigest(b: Bytes, offset: nat, digest: Bytes): Bytes
    requires offset + DESCRIPTOR_LEN <= |b| && |digest| == 32
  {
    b[..offset + DIGEST_OFFSET] + digest + b[offset + DIGEST_OFFSET + 32..]
  }

  function SignAdHoc(sha: Hash, b: Bytes): Parse<Bytes> {
    var out := EmbedEmptyRecord(b, AdHoc, Zeros(32));
    if out.Bad? then Bad
    else
      var e := ParseElf(out.value, DEFAULT_LIMITS);
      if e.Bad? || LocateRecord(e.value).Bad? || LocateRecord(e.value).value.None? then Bad
      else
        var r := LocateRecord(e.value).value.value;
        Good(FilledDigest(out.value, r.offset, sha(Normalized(out.value, r.offset))))
  }

  datatype Verified = Verified(kind: Kind, keyId: Option<Bytes>, digest: Bytes)

  /** `keyed` decides a keyed record: key resolution and the Ed25519 check. */
  function VerifyParsed(sha: Hash, keyed: Record -> bool, e: Elf): Parse<Verified> {
    var located := LocateRecord(e);
    if located.Bad? || located.value.None? then Bad
    else
      var r := located.value.value;
      if !RecordOk(r) then Bad
      else
        var actual := sha(Normalized(e.bytes, r.offset));
        if actual != r.digest then Bad
        else if r.kind == AdHoc then Good(Verified(AdHoc, None, actual))
        else if keyed(r) then Good(Verified(Ed25519, Some(r.keyId), actual))
        else Bad
  }

  datatype Image = Image(signature: Verified, sourceDigest: Bytes, manifest: Option<Bytes>)

  function VerifyImage(sha: Hash, keyed: Record -> bool, b: Bytes, limits: Limits): Parse<Image> {
    var e := ParseElf(b, limits);
    if e.Bad? then Bad
    else
      var m, v := LocateManifest(e.value), VerifyParsed(sha, keyed, e.value);
      if m.Bad? || v.Bad? then Bad else Good(Image(v.value, sha(b), m.value))
  }

  function Verify(sha: Hash, keyed: Record -> bool, b: Bytes): Parse<Verified> {
    var i := VerifyImage(sha, keyed, b, DEFAULT_LIMITS);
    if i.Bad? then Bad else Good(i.value.signature)
  }

  function EmbedManifest(b: Bytes, declaration: Bytes): Parse<Bytes> {
    var e := ParseElf(b, DEFAULT_LIMITS);
    if !TextOk(declaration) || e.Bad? || LocateRecord(e.value) != Good(None)
       || LocateManifest(e.value) != Good(None) then Bad
    else
      var out := AppendSection(e.value, MANIFEST_SECTION, SHT_PROGBITS, ManifestHeader() + declaration);
      if out.Bad? then Bad
      else
        var again := ParseElf(out.value, DEFAULT_LIMITS);
        if again.Bad? || LocateManifest(again.value).Bad? || LocateManifest(again.value).value.None? then Bad else out
  }
}
