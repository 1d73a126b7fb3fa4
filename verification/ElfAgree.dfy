/**
 * What a parsed file depends on: two files that agree on a region read the same there, and
 * rewriting bytes inside a located descriptor changes nothing else that is parsed.
 */
module ElfAgree {
  import opened Machine
  import opened Pieces
  import opened ElfSpec
  import opened ElfNames

  predicate Same(b: Bytes, c: Bytes, lo: nat, hi: nat) {
    lo <= hi <= |b| && hi <= |c| && forall i :: lo <= i < hi ==> b[i] == c[i]
  }

  lemma SameSlice(b: Bytes, c: Bytes, lo: nat, hi: nat, x: nat, y: nat)
    requires Same(b, c, lo, hi) && lo <= x <= y <= hi
    ensures b[x..y] == c[x..y]
  {
  }

  lemma SameLe(b: Bytes, c: Bytes, lo: nat, hi: nat, offset: nat, n: nat)
    requires Same(b, c, lo, hi) && lo <= offset && offset + n <= hi
    ensures Le(b, offset, n) == Le(c, offset, n)
  {
    SameSlice(b, c, lo, hi, offset, offset + n);
    LeIs(b, offset, n);
    LeIs(c, offset, n);
  }

  /** Equal except inside [lo, hi). */
  predicate Agree(b: Bytes, c: Bytes, lo: nat, hi: nat) {
    |b| == |c| && lo <= hi <= |b| && forall i :: 0 <= i < |b| && (i < lo || hi <= i) ==> b[i] == c[i]
  }

  predicate Apart(x: nat, y: nat, lo: nat, hi: nat) {
    y <= lo || hi <= x
  }

  // ---------------------------------------------------------------- tables

  lemma ProgramSame(b: Bytes, c: Bytes, raw: nat)
    requires Same(b, c, raw, raw + PROGRAM_LEN) && |b| <= |c| && ProgramOk(b, raw)
    ensures ProgramOk(c, raw) && Le(b, raw, 4) == Le(c, raw, 4)
    ensures Le(b, raw + 8, 8) == Le(c, raw + 8, 8) && Le(b, raw + 32, 8) == Le(c, raw + 32, 8)
  {
    SameLe(b, c, raw, raw + PROGRAM_LEN, raw, 4);
    SameLe(b, c, raw, raw + PROGRAM_LEN, raw + 8, 8);
    SameLe(b, c, raw, raw + PROGRAM_LEN, raw + 16, 8);
    SameLe(b, c, raw, raw + PROGRAM_LEN, raw + 32, 8);
    SameLe(b, c, raw, raw + PROGRAM_LEN, raw + 40, 8);
    SameLe(b, c, raw, raw + PROGRAM_LEN, raw + 48, 8);
  }

  lemma {:induction false} ProgramsSame(b: Bytes, c: Bytes, phoff: nat, n: nat)
    requires Same(b, c, phoff, phoff + PROGRAM_LEN * n) && |b| <= |c| && ParsePrograms(b, phoff, n).Good?
    ensures ParsePrograms(c, phoff, n) == ParsePrograms(b, phoff, n)
  {
    if n > 0 {
      var raw := phoff + PROGRAM_LEN * (n - 1);
      ProgramsSame(b, c, phoff, n - 1);
      ProgramSame(b, c, raw);
    }
  }

  lemma ProgramTableSame(b: Bytes, c: Bytes, limits: Limits)
    requires HEADER_LEN <= |b| <= |c| && ParseProgramTable(b, limits).Good?
    requires Same(b, c, 0, 40) && Same(b, c, 48, 60)
    requires var t := ParseProgramTable(b, limits).value.1; t.Some? ==> Same(b, c, t.value.lo, t.value.hi)
    ensures ParseProgramTable(c, limits) == ParseProgramTable(b, limits)
  {
    SameLe(b, c, 0, 40, 32, 8);
    SameLe(b, c, 48, 60, 54, 2);
    SameLe(b, c, 48, 60, 56, 2);
    var phoff, phnum := Le(b, 32, 8), Le(b, 56, 2);
    if phnum != 0 { ProgramsSame(b, c, phoff, phnum); }
  }

  lemma HeaderSame(b: Bytes, c: Bytes)
    requires Same(b, c, 0, 40) && Same(b, c, 48, 60) && |b| >= HEADER_LEN && |c| >= HEADER_LEN && HeaderOk(b)
    ensures HeaderOk(c)
  {
    SameSlice(b, c, 0, 40, 0, 4);
    SameLe(b, c, 0, 40, 16, 2);
    SameLe(b, c, 0, 40, 20, 4);
    SameLe(b, c, 48, 60, 52, 2);
    assert c[..4] == c[0..4] && b[..4] == b[0..4];
  }

  /** A run of bytes copied to another place reads the same. */
  predicate Moved(b: Bytes, from: nat, c: Bytes, to: nat, len: nat) {
    from + len <= |b| && to + len <= |c| && b[from..from + len] == c[to..to + len]
  }

  lemma MovedLe(b: Bytes, from: nat, c: Bytes, to: nat, len: nat, o: nat, n: nat)
    requires Moved(b, from, c, to, len) && o + n <= len
    ensures Le(c, to + o, n) == Le(b, from + o, n)
  {
    SliceSlice(b, from, from + len, o, o + n);
    SliceSlice(c, to, to + len, o, o + n);
    LeIs(b, from + o, n);
    LeIs(c, to + o, n);
  }

  lemma SectionMoved(b: Bytes, c: Bytes, raw: nat, to: nat)
    requires Moved(b, raw, c, to, SECTION_LEN)
    ensures SectionAt(c, to) == SectionAt(b, raw).(raw := to)
  {
    MovedLe(b, raw, c, to, SECTION_LEN, 0, 4);
    MovedLe(b, raw, c, to, SECTION_LEN, 4, 4);
    MovedLe(b, raw, c, to, SECTION_LEN, 24, 8);
    MovedLe(b, raw, c, to, SECTION_LEN, 32, 8);
    MovedLe(b, raw, c, to, SECTION_LEN, 48, 8);
    MovedLe(b, raw, c, to, SECTION_LEN, 56, 8);
  }

  lemma {:induction false} SectionListSame(b: Bytes, c: Bytes, shoff: nat, n: nat)
    requires Same(b, c, shoff, shoff + SECTION_LEN * n)
    ensures SectionList(c, shoff, n) == SectionList(b, shoff, n)
  {
    if n > 0 {
      var raw := shoff + SECTION_LEN * (n - 1);
      SameSlice(b, c, raw, raw + SECTION_LEN, raw, raw + SECTION_LEN);
      SectionMoved(b, c, raw, raw);
      SectionListSame(b, c, shoff, n - 1);
    }
  }

  lemma NameSectionsFrom(b: Bytes, c: Bytes, ss: seq<Section>, index: nat, names: nat)
    requires |b| == |c| && forall i :: 0 <= i < |ss| ==> ss[i].raw + SECTION_LEN <= |b|
    requires NameTableOk(ss, index, |b|) && FileBacked(ss[index])
    requires b[ss[index].offset..ss[index].offset + ss[index].size]
          == c[ss[index].offset..ss[index].offset + ss[index].size]
    ensures NameSections(c, ss, index, names) == NameSections(b, ss, index, names)
  {
  }

  lemma NamedAt(b: Bytes, ss: seq<Section>, index: nat, names: nat, t: Section)
    requires forall i :: 0 <= i < |ss| ==> ss[i].raw + SECTION_LEN <= |b|
    requires NameSections(b, ss, index, names).Good? && t == NameSections(b, ss, index, names).value.0[index]
    ensures NameTableOk(ss, index, |b|) && t == ss[index].(name := t.name)
  {
    var shstr := b[ss[index].offset..ss[index].offset + ss[index].size];
    WithNamesIs(ss, shstr, names, NameSections(b, ss, index, names).value.0);
  }

  lemma NameSectionsSame(b: Bytes, c: Bytes, ss: seq<Section>, index: nat, names: nat, t: Section)
    requires |b| == |c| && forall i :: 0 <= i < |ss| ==> ss[i].raw + SECTION_LEN <= |b|
    requires NameSections(b, ss, index, names).Good? && t == NameSections(b, ss, index, names).value.0[index]
    requires Same(b, c, t.offset, t.offset + t.size)
    ensures NameSections(c, ss, index, names) == NameSections(b, ss, index, names)
  {
    NamedAt(b, ss, index, names, t);
    SameSlice(b, c, t.offset, t.offset + t.size, t.offset, t.offset + t.size);
    NameSectionsFrom(b, c, ss, index, names);
  }

  /** The name table of a parsed file, as a range of the file. */
  function NameTable(e: Elf): Range
    requires e.shstrIndex < |e.sections|
  {
    var s := e.sections[e.shstrIndex];
    Range(s.offset, s.offset + s.size)
  }

  lemma NamedListSame(b: Bytes, c: Bytes, shoff: nat, n: nat, index: nat, names: nat, t: Section)
    requires |b| == |c| && Same(b, c, shoff, shoff + SECTION_LEN * n) && Same(b, c, t.offset, t.offset + t.size)
    requires NameSections(b, SectionList(b, shoff, n), index, names).Good?
    requires t == NameSections(b, SectionList(b, shoff, n), index, names).value.0[index]
    ensures NameSections(c, SectionList(c, shoff, n), index, names)
         == NameSections(b, SectionList(b, shoff, n), index, names)
  {
    SectionListSame(b, c, shoff, n);
    NameSectionsSame(b, c, SectionList(b, shoff, n), index, names, t);
  }

  lemma SectionsFromShape(
    b: Bytes, limits: Limits, shoff: nat, shentsize: nat, shnum: nat, index: nat, s: SectionInfo)
    requires |b| >= HEADER_LEN && SectionsFrom(b, limits, shoff, shentsize, shnum, index) == Good(s)
    ensures shoff + SECTION_LEN * shnum <= |b| && s.index == index
    ensures s.table == Range(shoff, shoff + SECTION_LEN * shnum)
    ensures NameSections(b, SectionList(b, shoff, shnum), index, limits.names) == Good((s.sections, s.shstr))
  {
  }

  lemma SectionsFromNamed(
    b: Bytes, c: Bytes, limits: Limits, shoff: nat, shentsize: nat, shnum: nat, index: nat)
    requires HEADER_LEN <= |b| == |c| && SectionsFrom(b, limits, shoff, shentsize, shnum, index).Good?
    requires NameSections(c, SectionList(c, shoff, shnum), index, limits.names)
          == NameSections(b, SectionList(b, shoff, shnum), index, limits.names)
    ensures SectionsFrom(c, limits, shoff, shentsize, shnum, index)
         == SectionsFrom(b, limits, shoff, shentsize, shnum, index)
  {
  }

  lemma SectionsFromSame(
    b: Bytes, c: Bytes, limits: Limits, shoff: nat, shentsize: nat, shnum: nat, index: nat, s: SectionInfo)
    requires HEADER_LEN <= |b| == |c| && SectionsFrom(b, limits, shoff, shentsize, shnum, index) == Good(s)
    requires Same(b, c, s.table.lo, s.table.hi)
    requires var t := s.sections[s.index]; Same(b, c, t.offset, t.offset + t.size)
    ensures SectionsFrom(c, limits, shoff, shentsize, shnum, index) == Good(s)
  {
    SectionsFromShape(b, limits, shoff, shentsize, shnum, index, s);
    NamedListSame(b, c, shoff, shnum, index, limits.names, s.sections[index]);
    SectionsFromNamed(b, c, limits, shoff, shentsize, shnum, index);
  }

  lemma SectionTableSame(b: Bytes, c: Bytes, limits: Limits, s: SectionInfo)
    requires HEADER_LEN <= |b| == |c| && ParseSectionTable(b, limits) == Good(s)
    requires Same(b, c, 0, HEADER_LEN) && Same(b, c, s.table.lo, s.table.hi)
    requires var t := s.sections[s.index]; Same(b, c, t.offset, t.offset + t.size)
    ensures ParseSectionTable(c, limits) == Good(s)
  {
    SameLe(b, c, 0, HEADER_LEN, 40, 8);
    SameLe(b, c, 0, HEADER_LEN, 58, 2);
    SameLe(b, c, 0, HEADER_LEN, 60, 2);
    SameLe(b, c, 0, HEADER_LEN, 62, 2);
    SectionsFromSame(b, c, limits, Le(b, 40, 8), Le(b, 58, 2), Le(b, 60, 2), Le(b, 62, 2), s);
  }

  /** Files that agree on the header, both tables and the name table parse alike. */
  lemma ParseSame(b: Bytes, c: Bytes, limits: Limits, e: Elf)
    requires |b| == |c| && ParseElf(b, limits) == Good(e)
    requires Same(b, c, 0, HEADER_LEN) && Same(b, c, e.sectionTable.lo, e.sectionTable.hi)
    requires Same(b, c, NameTable(e).lo, NameTable(e).hi)
    requires e.programTable.Some? ==> Same(b, c, e.programTable.value.lo, e.programTable.value.hi)
    ensures ParseElf(c, limits) == Good(e.(bytes := c))
  {
    HeaderSame(b, c);
    ProgramTableSame(b, c, limits);
    SectionTableSame(b, c, limits, ParseSectionTable(b, limits).value);
  }

  // ---------------------------------------------------------------- notes

  lemma NoteFromSame(b: Bytes, c: Bytes, nameAt: nat, end: nat, namesz: nat, descsz: nat, kind: nat, n: Note)
    requires nameAt <= end <= |b| == |c| && NoteFrom(b, nameAt, end, namesz, descsz, kind) == Good(n)
    requires Same(b, c, nameAt, n.descriptor)
    requires n.ours ==> Same(b, c, n.descriptor + DESCRIPTOR_LEN, n.next)
    ensures NoteFrom(c, nameAt, end, namesz, descsz, kind) == Good(n)
  {
    SameSlice(b, c, nameAt, n.descriptor, nameAt, nameAt + namesz);
    SameSlice(b, c, nameAt, n.descriptor, nameAt + namesz, n.descriptor);
    if n.ours {
      SameSlice(b, c, n.descriptor + DESCRIPTOR_LEN, n.next, n.descriptor + DESCRIPTOR_LEN, n.next);
    }
  }

  /** A note is read up to its descriptor; only a signature note's padding is read after it. */
  lemma NoteSame(b: Bytes, c: Bytes, cursor: nat, end: nat, n: Note)
    requires cursor < end <= |b| == |c| && NoteAt(b, cursor, end) == Good(n)
    requires Same(b, c, cursor, n.descriptor)
    requires n.ours ==> Same(b, c, n.descriptor + DESCRIPTOR_LEN, n.next)
    ensures NoteAt(c, cursor, end) == Good(n)
  {
    SameLe(b, c, cursor, n.descriptor, cursor, 4);
    SameLe(b, c, cursor, n.descriptor, cursor + 4, 4);
    SameLe(b, c, cursor, n.descriptor, cursor + 8, 4);
    NoteFromSame(b, c, cursor + 12, end, Le(b, cursor, 4), Le(b, cursor + 4, 4), Le(b, cursor + 8, 4), n);
  }

  /** Bytes inside the descriptor of a note found here, or outside this area, do not matter. */
  lemma {:induction false} NotesAgree(b: Bytes, c: Bytes, cursor: nat, end: nat, d: nat, lo: nat, hi: nat)
    requires end <= |b| && Agree(b, c, lo, hi) && d <= lo && hi <= d + DESCRIPTOR_LEN
    requires Notes(b, cursor, end).Good?
    requires Apart(cursor, end, lo, hi) || cursor >= end || d in Notes(b, cursor, end).value
    ensures Notes(c, cursor, end) == Notes(b, cursor, end)
    decreases end - cursor
  {
    if cursor < end {
      var n := NoteAt(b, cursor, end).value;
      assert (n.ours && n.descriptor == d) || Apart(cursor, n.next, lo, hi);
      NoteSame(b, c, cursor, end, n);
      NotesAgree(b, c, n.next, end, d, lo, hi);
    }
  }

  predicate Unread(b: Bytes, a: Area, d: nat, lo: nat, hi: nat) {
    Apart(a.offset, a.offset + a.size, lo, hi) || a.size == 0 || Found(b, Occurrence(d, a))
  }

  predicate Scanned(b: Bytes, a: Area) {
    a.offset + a.size <= |b| && Notes(b, a.offset, a.offset + a.size).Good?
  }

  predicate Found(b: Bytes, o: Occurrence) {
    Scanned(b, o.area) && o.descriptor in Notes(b, o.area.offset, o.area.offset + o.area.size).value
  }

  /** Every area was scanned, and the occurrences are exactly what the areas hold. */
  lemma {:induction false} ScanShape(b: Bytes, areas: seq<Area>)
    requires ScanAreas(b, areas).Good?
    ensures forall a :: a in areas ==> Scanned(b, a)
    ensures forall o :: o in ScanAreas(b, areas).value <==> o.area in areas && Found(b, o)
  {
    if areas != [] {
      var a := areas[0];
      var here, rest := Notes(b, a.offset, a.offset + a.size).value, ScanAreas(b, areas[1..]).value;
      ScanShape(b, areas[1..]);
      OccurrencesShape(here, a);
      assert areas == [a] + areas[1..];
      assert ScanAreas(b, areas).value == Occurrences(here, a) + rest;
    }
  }

  lemma OccurrencesShape(ds: seq<nat>, a: Area)
    ensures forall o :: o in Occurrences(ds, a) <==> o.area == a && o.descriptor in ds
  {
    forall o: Occurrence | o.area == a && o.descriptor in ds ensures o in Occurrences(ds, a) {
      var i :| 0 <= i < |ds| && ds[i] == o.descriptor;
      assert Occurrences(ds, a)[i] == o;
    }
  }

  lemma AreaAgree(b: Bytes, c: Bytes, a: Area, d: nat, lo: nat, hi: nat)
    requires Agree(b, c, lo, hi) && d <= lo && hi <= d + DESCRIPTOR_LEN && Scanned(b, a) && Unread(b, a, d, lo, hi)
    ensures Notes(c, a.offset, a.offset + a.size) == Notes(b, a.offset, a.offset + a.size)
  {
    NotesAgree(b, c, a.offset, a.offset + a.size, d, lo, hi);
  }

  lemma {:induction false} ScanAgree(b: Bytes, c: Bytes, areas: seq<Area>, d: nat, lo: nat, hi: nat)
    requires Agree(b, c, lo, hi) && d <= lo && hi <= d + DESCRIPTOR_LEN && ScanAreas(b, areas).Good?
    requires forall a :: a in areas ==> Unread(b, a, d, lo, hi)
    ensures ScanAreas(c, areas) == ScanAreas(b, areas)
  {
    if areas != [] {
      AreaAgree(b, c, areas[0], d, lo, hi);
      ScanAgree(b, c, areas[1..], d, lo, hi);
    }
  }

  lemma {:induction false} SectionAreasShape(ss: seq<Section>, n: nat)
    requires n <= |ss|
    ensures forall a :: a in SectionAreas(ss, n) ==>
      && a.origin.FromSection? && a.origin.index < n && ss[a.origin.index].kind == SHT_NOTE
      && a.offset == ss[a.origin.index].offset && a.size == ss[a.origin.index].size
    ensures forall i :: 0 <= i < n && ss[i].kind == SHT_NOTE ==>
      Area(ss[i].offset, ss[i].size, FromSection(i)) in SectionAreas(ss, n)
  {
    if n > 0 { SectionAreasShape(ss, n - 1); }
  }

  lemma {:induction false} NamedShape(ss: seq<Section>, name: Bytes, n: nat)
    requires n <= |ss|
    ensures forall i :: i in Named(ss, name, n) <==> 0 <= i < n && ss[i].name == name
  {
    if n > 0 { NamedShape(ss, name, n - 1); }
  }

  /** A parsed file: program notes come from program headers and lie inside the file. */
  predicate NotesOk(notes: seq<Area>, limit: nat) {
    forall i :: 0 <= i < |notes| ==> notes[i].origin.FromProgram? && notes[i].offset + notes[i].size <= limit
  }

  lemma {:induction false} ProgramsOk(b: Bytes, phoff: nat, n: nat)
    requires phoff + PROGRAM_LEN * n <= |b| && ParsePrograms(b, phoff, n).Good?
    ensures NotesOk(ParsePrograms(b, phoff, n).value.notes, |b|)
  {
    if n > 0 { ProgramsOk(b, phoff, n - 1); }
  }

  /** The located record: its section, the occurrence behind it, and where it may not be. */
  predicate LocatedIn(e: Elf, sig: Bytes, r: Record, index: nat, o: Occurrence) {
    && index < |e.sections| && e.sections[index].kind == SHT_NOTE
    && e.sections[index].name == sig
    && (forall j :: 0 <= j < |e.sections| && e.sections[j].name == sig ==> j == index)
    && o.area == Area(e.sections[index].offset, e.sections[index].size, FromSection(index))
    && o.descriptor == r.offset && e.sections[index].offset <= r.offset
    && r.offset + DESCRIPTOR_LEN <= e.sections[index].offset + e.sections[index].size
    && LocationOk(e, o)
  }

  /** An occurrence inside a file-backed section can only have been read through it. */
  lemma ReadThrough(e: Elf, o: Occurrence, index: nat)
    requires NotesOk(e.programs.notes, |e.bytes|) && o.area in AllAreas(e) && LocationOk(e, o) && index < |e.sections|
    requires e.sections[index].kind == SHT_NOTE && e.sections[index].offset <= o.descriptor
    requires o.descriptor + DESCRIPTOR_LEN <= e.sections[index].offset + e.sections[index].size
    ensures o.area == Area(e.sections[index].offset, e.sections[index].size, FromSection(index))
  {
    SectionAreasShape(e.sections, |e.sections|);
    assert Overlaps(Range(o.descriptor, o.descriptor + DESCRIPTOR_LEN),
                    Range(e.sections[index].offset, e.sections[index].offset + e.sections[index].size));
    assert o.area.origin == FromSection(index);
  }

  lemma ChosenShape(os: seq<Occurrence>)
    requires Chosen(os).Good?
    ensures os != [] && Chosen(os).value == os[0] && forall x :: x in os ==> x.descriptor == os[0].descriptor
  {
  }

  /** The chosen occurrence was read through the one section with the reserved name. */
  lemma RecordLocated(e: Elf, sig: Bytes, r: Record) returns (index: nat, o: Occurrence)
    requires NotesOk(e.programs.notes, |e.bytes|) && LocateRecordAs(e, sig) == Good(Some(r))
    ensures LocatedIn(e, sig, r, index, o)
    ensures ScanAreas(e.bytes, AllAreas(e)).Good? && o in ScanAreas(e.bytes, AllAreas(e)).value
    ensures forall x :: x in ScanAreas(e.bytes, AllAreas(e)).value ==> x.descriptor == r.offset
    ensures o.area in AllAreas(e) && ParseRecord(e.bytes, r.offset) == Good(r)
  {
    var named := Named(e.sections, sig, |e.sections|);
    NamedShape(e.sections, sig, |e.sections|);
    var areas := AllAreas(e);
    var scan := ScanAreas(e.bytes, areas).value;
    ChosenShape(scan);
    index, o := named[0], scan[0];
    assert index in named && named == [index];
    ScanShape(e.bytes, areas);
    ReadThrough(e, o, index);
  }

  /** Filling the digest field changes the located record's digest and nothing else. */
  lemma LocateAgree(e: Elf, sig: Bytes, c: Bytes, r: Record)
    requires NotesOk(e.programs.notes, |e.bytes|) && LocateRecordAs(e, sig) == Good(Some(r))
    requires Agree(e.bytes, c, r.offset + DIGEST_OFFSET, r.offset + SIGNATURE_OFFSET)
    requires forall a :: a in e.programs.notes ==>
      Apart(a.offset, a.offset + a.size, r.offset + DIGEST_OFFSET, r.offset + SIGNATURE_OFFSET)
    ensures LocateRecordAs(e.(bytes := c), sig) ==
      Good(Some(r.(digest := c[r.offset + DIGEST_OFFSET..r.offset + SIGNATURE_OFFSET])))
  {
    var index, o := RecordLocated(e, sig, r);
    var lo, hi := r.offset + DIGEST_OFFSET, r.offset + SIGNATURE_OFFSET;
    AreasUnread(e, sig, r, index, o);
    ScanAgree(e.bytes, c, AllAreas(e), r.offset, lo, hi);
    RecordAgree(e.bytes, c, r);
    SameLocation(e, c);
  }

  lemma SameLocation(e: Elf, c: Bytes)
    requires |c| == |e.bytes|
    ensures forall o :: LocationOk(e.(bytes := c), o) == LocationOk(e, o)
  {
  }

  lemma AreasUnread(e: Elf, sig: Bytes, r: Record, index: nat, o: Occurrence)
    requires LocatedIn(e, sig, r, index, o)
    requires ScanAreas(e.bytes, AllAreas(e)).Good? && o in ScanAreas(e.bytes, AllAreas(e)).value
    requires forall a :: a in e.programs.notes ==>
      Apart(a.offset, a.offset + a.size, r.offset + DIGEST_OFFSET, r.offset + SIGNATURE_OFFSET)
    ensures forall a :: a in AllAreas(e) ==>
      Unread(e.bytes, a, r.offset, r.offset + DIGEST_OFFSET, r.offset + SIGNATURE_OFFSET)
  {
    ScanShape(e.bytes, AllAreas(e));
    SectionAreasShape(e.sections, |e.sections|);
    var lo, hi := r.offset + DIGEST_OFFSET, r.offset + SIGNATURE_OFFSET;
    forall a | a in AllAreas(e) ensures Unread(e.bytes, a, r.offset, lo, hi) {
      if a in SectionAreas(e.sections, |e.sections|) {
        var i := a.origin.index;
        if i != index && a.size != 0 {
          assert !Overlaps(Range(r.offset, r.offset + DESCRIPTOR_LEN),
                           Range(e.sections[i].offset, e.sections[i].offset + e.sections[i].size));
        }
      }
    }
  }

  lemma RecordAgree(b: Bytes, c: Bytes, r: Record)
    requires ParseRecord(b, r.offset) == Good(r)
    requires Agree(b, c, r.offset + DIGEST_OFFSET, r.offset + SIGNATURE_OFFSET)
    ensures ParseRecord(c, r.offset) ==
      Good(r.(digest := c[r.offset + DIGEST_OFFSET..r.offset + SIGNATURE_OFFSET]))
  {
    var d, lo, hi := r.offset, r.offset + DIGEST_OFFSET, r.offset + SIGNATURE_OFFSET;
    SameSlice(b, c, d, lo, d, d + 8);
    SameLe(b, c, d, lo, d + 8, 2);
    SameLe(b, c, d, lo, d + 14, 4);
    SameSlice(b, c, d, lo, d + 18, d + 50);
    SameSlice(b, c, hi, d + DESCRIPTOR_LEN, hi, d + DESCRIPTOR_LEN);
  }
}
