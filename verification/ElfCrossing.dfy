/**
 * A file that is signed and then refused. Its one program header starts at byte 62, so that
 * its type is the index of the section name table: moving that table turns the segment into a
 * note segment, which lies in the manifest.
 */
module ElfCrossing {
  import opened Machine
  import opened Text
  import opened Pieces
  import opened ElfSpec
  import opened ElfNames
  import opened ElfAgree
  import opened ElfAppend
  import opened ElfPatch
  import opened ElfTheorems

  // ---------------------------------------------------------------- names that are found

  lemma {:induction false} FirstZeroAt(s: Bytes, n: nat)
    requires n < |s| && s[n] == 0 && 0 !in s[..n]
    ensures FirstZero(s) == Some(n)
  {
    if n > 0 {
      assert s[0] == s[..n][0] && s[0] in s[..n];
      assert forall x :: x in s[1..][..n - 1] ==> x in s[..n];
      FirstZeroAt(s[1..], n - 1);
    }
  }

  lemma NameFound(shstr: Bytes, at: nat, name: Bytes, budget: nat)
    requires NameIn(shstr, at, name) && |name| < budget
    ensures NameAt(shstr, at, budget) == Some(name)
  {
    var scan := shstr[at..][..Min(|shstr| - at, budget)];
    assert scan[..|name|] == shstr[at..at + |name|] && scan[|name|] == shstr[at + |name|];
    FirstZeroAt(scan, |name|);
  }

  lemma NamedTail(ss: seq<Section>, named: seq<Section>, shstr: Bytes)
    requires NamedAs(ss, named, shstr) && ss != []
    ensures NamedAs(ss[1..], named[1..], shstr) && named == [ss[0].(name := named[0].name)] + named[1..]
    ensures NameIn(shstr, ss[0].nameAt, named[0].name)
  {
  }

  lemma NamesStep(ss: seq<Section>, name: Bytes, rest: seq<Section>, shstr: Bytes, budget: nat)
    requires ss != [] && |name| < budget && NameAt(shstr, ss[0].nameAt, budget) == Some(name)
    requires WithNames(ss[1..], shstr, budget - (|name| + 1)) == Good(rest)
    ensures WithNames(ss, shstr, budget) == Good([ss[0].(name := name)] + rest)
  {
  }

  /** Names of less than 64 bytes, all in the table, are resolved. */
  lemma {:induction false} NamesFound(ss: seq<Section>, named: seq<Section>, shstr: Bytes, budget: nat)
    requires NamedAs(ss, named, shstr) && 64 * |ss| <= budget
    requires forall i :: 0 <= i < |named| ==> |named[i].name| < 64
    ensures WithNames(ss, shstr, budget) == Good(named)
  {
    if ss != [] {
      var name := named[0].name;
      NamedTail(ss, named, shstr);
      NameFound(shstr, ss[0].nameAt, name, budget);
      NamesFound(ss[1..], named[1..], shstr, budget - (|name| + 1));
      NamesStep(ss, name, named[1..], shstr, budget);
    }
  }

  // ---------------------------------------------------------------- the file

  function Low(): (p: Bytes)
    ensures |p| == 32
  {
    ELF_MAGIC + [2, 1, 1] + Zeros(9) + LeBytes(2, 2) + LeBytes(62, 2) + LeBytes(1, 4) + Zeros(8)
  }

  function High(): (p: Bytes)
    ensures |p| == 32
  {
    LeBytes(62, 8) + LeBytes(156, 8) + Zeros(4) + LeBytes(64, 2) + LeBytes(56, 2) + LeBytes(1, 2)
    + LeBytes(64, 2) + LeBytes(3, 2) + LeBytes(2, 2)
  }

  /** The program header from its third byte on: offset 121 and size 0. */
  function Segment(): (p: Bytes)
    ensures |p| == 54
  {
    Zeros(6) + LeBytes(121, 8) + Zeros(40)
  }

  function Names(man: Bytes): Bytes {
    [0] + man + [0]
  }

  function File(man: Bytes): Bytes {
    Low() + High() + Segment() + Zeros(2) + ManifestHeader() + [109] + Names(man)
    + HeaderBytes(0, 0, 0, 0, 0) + HeaderBytes(1, SHT_PROGBITS, 120, 17, 4) + HeaderBytes(0, SHT_STRTAB, 137, 19, 0)
  }

  lemma Joined(a: Bytes, b: Bytes, c: Bytes, d: Bytes, m: Bytes, t: Bytes, n: Bytes, x: Bytes, y: Bytes, z: Bytes,
               f: Bytes)
    requires f == a + b + c + d + m + t + n + x + y + z && |a| == 32 && |b| == 32 && |c| == 54 && |d| == 2
    requires |m| == 16 && |t| == 1 && |n| == 19 && |x| == 64 && |y| == 64 && |z| == 64
    ensures |f| == 348 && Holds(f, 0, a) && Holds(f, 32, b) && Holds(f, 64, c) && Holds(f, 118, d)
    ensures Holds(f, 120, m) && Holds(f, 136, t) && Holds(f, 137, n)
    ensures Holds(f, 156, x) && Holds(f, 220, y) && Holds(f, 284, z)
  {
    var start, front := a + b + c + d, a + b + c + d + m + t + n;
    TailPieces(a, b, c, d, start);
    TailPieces(start, m, t, n, front);
    TailPieces(front, x, y, z, f);
    HoldsThrough(start, front, f, 0, a);
    HoldsThrough(start, front, f, 32, b);
    HoldsThrough(start, front, f, 64, c);
    HoldsThrough(start, front, f, 118, d);
    HoldsTrans(front, f, 120, m);
    HoldsTrans(front, f, 136, t);
    HoldsTrans(front, f, 137, n);
  }

  lemma HoldsThrough(start: Bytes, front: Bytes, f: Bytes, at: nat, piece: Bytes)
    requires Holds(start, at, piece) && Holds(front, 0, start) && Holds(f, 0, front)
    ensures Holds(f, at, piece)
  {
    HoldsTrans(start, front, at, piece);
    HoldsTrans(front, f, at, piece);
  }

  /** What the file holds and where. */
  predicate Built(f: Bytes, man: Bytes) {
    && |f| == 348 && Holds(f, 0, Low()) && Holds(f, 32, High()) && Holds(f, 64, Segment())
    && Holds(f, 120, ManifestHeader()) && Holds(f, 136, [109]) && Holds(f, 137, Names(man))
    && Holds(f, 156, HeaderBytes(0, 0, 0, 0, 0)) && Holds(f, 220, HeaderBytes(1, SHT_PROGBITS, 120, 17, 4))
    && Holds(f, 284, HeaderBytes(0, SHT_STRTAB, 137, 19, 0))
  }

  lemma FileBuilt(man: Bytes)
    requires |man| == 17
    ensures Built(File(man), man)
  {
    Joined(Low(), High(), Segment(), Zeros(2), ManifestHeader(), [109], Names(man), HeaderBytes(0, 0, 0, 0, 0),
           HeaderBytes(1, SHT_PROGBITS, 120, 17, 4), HeaderBytes(0, SHT_STRTAB, 137, 19, 0), File(man));
  }

  lemma LowParts(p: Bytes)
    requires p == Low()
    ensures p[..4] == ELF_MAGIC && p[4] == 2 && p[5] == 1 && p[6] == 1 && ZeroAt(p, 7, 16)
    ensures p[16..18] == LeBytes(2, 2) && p[20..24] == LeBytes(1, 4)
  {
    JoinedLow(ELF_MAGIC, [2, 1, 1], Zeros(9), LeBytes(2, 2), LeBytes(62, 2), LeBytes(1, 4), Zeros(8), p);
  }

  lemma JoinedLow(a: Bytes, b: Bytes, c: Bytes, d: Bytes, e: Bytes, g: Bytes, h: Bytes, p: Bytes)
    requires p == a + b + c + d + e + g + h && |a| == 4 && |b| == 3 && |c| == 9 && |d| == 2 && |e| == 2 && |g| == 4
    ensures p[..4] == a && p[4..7] == b && p[7..16] == c && p[16..18] == d && p[20..24] == g
    ensures p[4] == b[0] && p[5] == b[1] && p[6] == b[2] && forall i :: 7 <= i < 16 ==> p[i] == c[i - 7]
  {
  }

  lemma HighParts(p: Bytes)
    requires p == High()
    ensures p[0..8] == LeBytes(62, 8) && p[8..16] == LeBytes(156, 8) && p[20..22] == LeBytes(64, 2)
    ensures p[22..24] == LeBytes(56, 2) && p[24..26] == LeBytes(1, 2) && p[26..28] == LeBytes(64, 2)
    ensures p[28..30] == LeBytes(3, 2) && p[30..32] == LeBytes(2, 2)
  {
    JoinedHigh(LeBytes(62, 8), LeBytes(156, 8), Zeros(4), LeBytes(64, 2), LeBytes(56, 2), LeBytes(1, 2),
               LeBytes(64, 2), LeBytes(3, 2), LeBytes(2, 2), p);
  }

  lemma JoinedHigh(a: Bytes, b: Bytes, c: Bytes, d: Bytes, e: Bytes, g: Bytes, h: Bytes, i: Bytes, j: Bytes, p: Bytes)
    requires p == a + b + c + d + e + g + h + i + j && |a| == 8 && |b| == 8 && |c| == 4 && |d| == 2 && |e| == 2
    requires |g| == 2 && |h| == 2 && |i| == 2 && |j| == 2
    ensures p[0..8] == a && p[8..16] == b && p[20..22] == d && p[22..24] == e && p[24..26] == g
    ensures p[26..28] == h && p[28..30] == i && p[30..32] == j
  {
  }

  lemma SegmentParts(p: Bytes)
    requires p == Segment()
    ensures p[6..14] == LeBytes(121, 8) && ZeroAt(p, 0, 6) && ZeroAt(p, 14, 54)
  {
    JoinedSegment(Zeros(6), LeBytes(121, 8), Zeros(40), p);
  }

  lemma JoinedSegment(a: Bytes, b: Bytes, c: Bytes, p: Bytes)
    requires p == a + b + c && |a| == 6 && |b| == 8 && |c| == 40
    ensures p[6..14] == b
    ensures (forall i :: 0 <= i < 6 ==> p[i] == a[i]) && (forall i :: 14 <= i < 54 ==> p[i] == c[i - 14])
  {
  }

  // ---------------------------------------------------------------- reading it

  lemma {:induction false} ListFrom(f: Bytes, shoff: nat, raw: seq<Section>)
    requires shoff + SECTION_LEN * |raw| <= |f|
    requires forall i {:trigger raw[i]} :: 0 <= i < |raw| ==> raw[i] == Reader(f)(shoff + SECTION_LEN * i)
    ensures SectionList(f, shoff, |raw|) == raw
  {
    if raw != [] {
      var n := |raw| - 1;
      ListFrom(f, shoff, raw[..n]);
      LastSection(f, shoff, n, raw[n]);
      assert raw == raw[..n] + [raw[n]];
    }
  }

  lemma LastSection(f: Bytes, shoff: nat, n: nat, last: Section)
    requires shoff + SECTION_LEN * (n + 1) <= |f| && last == Reader(f)(shoff + SECTION_LEN * n)
    ensures SectionList(f, shoff, n + 1) == SectionList(f, shoff, n) + [last]
  {
  }

  lemma {:induction false} EveryOk(ss: seq<Section>)
    requires forall i :: 0 <= i < |ss| ==> SectionOk(ss[i])
    ensures AllOk(ss)
  {
    if ss != [] { EveryOk(ss[1..]); }
  }

  /** A list of sections with its name table, the same list with names, and every check in order. */
  predicate Ready(f: Bytes, raw: seq<Section>, index: nat, ss: seq<Section>, shstr: Bytes) {
    && (forall i :: 0 <= i < |raw| ==> raw[i].raw + SECTION_LEN <= |f|)
    && NameTableOk(raw, index, |f|) && Holds(f, raw[index].offset, shstr) && raw[index].size == |shstr|
    && shstr != [] && shstr[0] == 0 && NamedAs(raw, ss, shstr)
    && (forall i :: 0 <= i < |ss| ==> |ss[i].name| < 64 && SectionOk(ss[i]))
  }

  lemma NamesParsed(f: Bytes, raw: seq<Section>, index: nat, ss: seq<Section>, shstr: Bytes, names: nat)
    requires Ready(f, raw, index, ss, shstr) && 64 * |raw| <= names
    ensures NameSections(f, raw, index, names) == Good((ss, shstr)) && AllOk(ss)
  {
    NamesFound(raw, ss, shstr, names);
    EveryOk(ss);
  }

  /** A section table whose headers, names and checks are in order is parsed. */
  lemma SectionsParsed(f: Bytes, shoff: nat, raw: seq<Section>, index: nat, ss: seq<Section>, shstr: Bytes)
    requires HEADER_LEN <= |f| && 0 < |raw| < 1000 && index < |raw| && 0 < shoff && shoff + SECTION_LEN * |raw| <= |f|
    requires SectionList(f, shoff, |raw|) == raw && Ready(f, raw, index, ss, shstr)
    ensures SectionsFrom(f, DEFAULT_LIMITS, shoff, SECTION_LEN, |raw|, index)
         == Good(SectionInfo(ss, index, shstr, Range(shoff, shoff + SECTION_LEN * |raw|)))
  {
    NamesParsed(f, raw, index, ss, shstr, DEFAULT_LIMITS.names);
  }

  /** The header fields the file has before and after it is extended. */
  predicate Fields(f: Bytes, shoff: nat, shnum: nat, index: nat) {
    && |f| >= 118 && HeaderOk(f) && Le(f, 32, 8) == 62 && Le(f, 54, 2) == PROGRAM_LEN && Le(f, 56, 2) == 1
    && Le(f, 40, 8) == shoff && Le(f, 58, 2) == SECTION_LEN && Le(f, 60, 2) == shnum && Le(f, 62, 2) == index
    && ZeroAt(f, 64, 70) && Le(f, 70, 8) == 121 && ZeroAt(f, 78, 118)
  }

  lemma HeldZeros(f: Bytes, at: nat, p: Bytes, lo: nat, hi: nat)
    requires Holds(f, at, p) && ZeroAt(p, lo, hi)
    ensures ZeroAt(f, at + lo, at + hi)
  {
    forall i | at + lo <= i < at + hi ensures f[i] == 0 {
      assert f[i] == f[at..at + |p|][i - at] == p[i - at];
    }
  }

  lemma LowRead(f: Bytes)
    requires Holds(f, 0, Low()) && |f| >= HEADER_LEN && Le(f, 52, 2) == HEADER_LEN
    ensures HeaderOk(f)
  {
    var p := Low();
    LowParts(p);
    HeldZeros(f, 0, p, 7, 16);
    HoldsPart(f, 0, p, 0, 4);
    HoldsPart(f, 0, p, 4, 7);
    assert p[0..4] == p[..4] && f[0..4] == f[..4];
    assert f[4] == f[4..7][0] == p[4..7][0] && f[5] == f[4..7][1] == p[4..7][1] && f[6] == f[4..7][2] == p[4..7][2];
    Pow256Values();
    FieldRead(f, 0, p, 16, 2, 2);
    FieldRead(f, 0, p, 20, 1, 4);
  }

  lemma HighRead(f: Bytes)
    requires Holds(f, 32, High())
    ensures Le(f, 32, 8) == 62 && Le(f, 40, 8) == 156 && Le(f, 52, 2) == 64 && Le(f, 54, 2) == 56
    ensures Le(f, 56, 2) == 1 && Le(f, 58, 2) == 64 && Le(f, 60, 2) == 3 && Le(f, 62, 2) == 2
  {
    var p := High();
    HighParts(p);
    Pow256Values();
    FieldRead(f, 32, p, 0, 62, 8);
    FieldRead(f, 32, p, 8, 156, 8);
    FieldRead(f, 32, p, 20, 64, 2);
    FieldRead(f, 32, p, 22, 56, 2);
    FieldRead(f, 32, p, 24, 1, 2);
    FieldRead(f, 32, p, 26, 64, 2);
    FieldRead(f, 32, p, 28, 3, 2);
    FieldRead(f, 32, p, 30, 2, 2);
  }

  lemma SegmentRead(f: Bytes)
    requires Holds(f, 64, Segment())
    ensures ZeroAt(f, 64, 70) && Le(f, 70, 8) == 121 && ZeroAt(f, 78, 118)
  {
    var p := Segment();
    SegmentParts(p);
    HeldZeros(f, 64, p, 0, 6);
    HeldZeros(f, 64, p, 14, 54);
    Pow256Values();
    FieldRead(f, 64, p, 6, 121, 8);
  }

  lemma FileFields(f: Bytes, man: Bytes)
    requires Built(f, man)
    ensures Fields(f, 156, 3, 2)
  {
    HighRead(f);
    LowRead(f);
    SegmentRead(f);
  }

  /** The segments of the file, by the index of its name table. */
  function SegmentsFor(index: nat): Programs {
    if index == PT_NOTE then Programs([Area(121, 0, FromProgram(0))], []) else Programs([], [])
  }

  /** The type of the segment is the index of the name table. */
  lemma SegmentParsed(f: Bytes, shoff: nat, shnum: nat, index: nat)
    requires Fields(f, shoff, shnum, index) && |f| >= 121 && index != PT_LOAD
    ensures ParseProgramTable(f, DEFAULT_LIMITS) == Good((SegmentsFor(index), Some(Range(62, 118))))
  {
    LeWord(f, 62);
    LeShort(f, 62);
    ZeroLong(f, 94);
    ZeroLong(f, 110);
    assert Le(f, 62, 4) == index && ProgramOk(f, 62);
    assert ParsePrograms(f, 62, 0) == Good(Programs([], []));
    OneProgram(index);
  }

  lemma OneProgram(index: nat)
    requires index != PT_LOAD
    ensures WithProgram(Programs([], []), 0, index, 121, 0) == SegmentsFor(index)
  {
  }

  // ---------------------------------------------------------------- the file, parsed

  function RawSections(t: nat): seq<Section> {
    [Section(0, [], 0, 0, 0, 0, 0, t), Section(1, [], SHT_PROGBITS, 120, 17, 4, 0, t + 64),
     Section(0, [], SHT_STRTAB, 137, 19, 0, 0, t + 128)]
  }

  function FileSections(man: Bytes, t: nat): seq<Section> {
    [Section(0, [], 0, 0, 0, 0, 0, t), Section(1, man, SHT_PROGBITS, 120, 17, 4, 0, t + 64),
     Section(0, [], SHT_STRTAB, 137, 19, 0, 0, t + 128)]
  }

  predicate ManifestName(man: Bytes) {
    |man| == 17 && 0 !in man
  }

  lemma {:induction false} Fourths(x: nat)
    requires x % 4 == 0
    ensures Remainder(x, 4) == 0
  {
    if x >= 4 { Fourths(x - 4); }
  }

  lemma FileSectionsOk(man: Bytes, t: nat)
    ensures forall i :: 0 <= i < 3 ==> SectionOk(FileSections(man, t)[i])
  {
    Fourths(120);
    assert PowerOfTwo(2);
  }

  lemma OwnNames(man: Bytes, shstr: Bytes)
    requires ManifestName(man) && Names(man) <= shstr
    ensures NameIn(shstr, 0, []) && NameIn(shstr, 1, man) && shstr[0] == 0
  {
    var n := Names(man);
    assert n[0] == 0 && n[18] == 0 && n[1..18] == man;
    assert shstr[0] == n[0] && shstr[18] == n[18] && shstr[1..18] == n[1..18];
  }

  lemma FileNamed(man: Bytes, t: nat, shstr: Bytes)
    requires ManifestName(man) && Names(man) <= shstr
    ensures NamedAs(RawSections(t), FileSections(man, t), shstr)
  {
    OwnNames(man, shstr);
  }

  lemma FileTable(t: nat, limit: nat)
    requires t + 192 <= limit && 156 <= limit
    ensures NameTableOk(RawSections(t), 2, limit)
    ensures forall i :: 0 <= i < 3 ==> RawSections(t)[i].raw + SECTION_LEN <= limit
  {
  }

  lemma FileReady(f: Bytes, man: Bytes)
    requires |f| == 348 && Holds(f, 137, Names(man)) && ManifestName(man)
    ensures Ready(f, RawSections(156), 2, FileSections(man, 156), Names(man))
  {
    FileNamed(man, 156, Names(man));
    FileSectionsOk(man, 156);
    OwnNames(man, Names(man));
    FileTable(156, 348);
    ReadyFrom(f, RawSections(156), 2, FileSections(man, 156), Names(man), 137);
  }

  lemma ReadyFrom(f: Bytes, raw: seq<Section>, index: nat, ss: seq<Section>, shstr: Bytes, at: nat)
    requires forall i :: 0 <= i < |raw| ==> raw[i].raw + SECTION_LEN <= |f|
    requires NameTableOk(raw, index, |f|) && raw[index].offset == at && raw[index].size == |shstr|
    requires Holds(f, at, shstr) && shstr != [] && shstr[0] == 0 && NamedAs(raw, ss, shstr)
    requires forall i :: 0 <= i < |ss| ==> |ss[i].name| < 64
    requires forall i :: 0 <= i < |ss| ==> SectionOk(ss[i])
    ensures Ready(f, raw, index, ss, shstr)
  {
  }

  lemma FileHeaders(f: Bytes)
    requires Holds(f, 156, HeaderBytes(0, 0, 0, 0, 0)) && Holds(f, 220, HeaderBytes(1, SHT_PROGBITS, 120, 17, 4))
    requires Holds(f, 284, HeaderBytes(0, SHT_STRTAB, 137, 19, 0))
    ensures HeadersAt(Reader(f), 156)
  {
    HeaderRead(f, 156, 0, 0, 0, 0, 0);
    HeaderRead(f, 220, 1, SHT_PROGBITS, 120, 17, 4);
    HeaderRead(f, 284, 0, SHT_STRTAB, 137, 19, 0);
  }

  /** The three headers of the file, read from a table. */
  predicate HeadersAt(read: nat -> Section, t: nat) {
    && read(t) == RawSections(t)[0] && read(t + 64) == RawSections(t)[1] && read(t + 128) == RawSections(t)[2]
  }

  lemma FileList(f: Bytes, t: nat)
    requires t + 192 <= |f| && HeadersAt(Reader(f), t)
    ensures SectionList(f, t, 3) == RawSections(t)
  {
    ListFrom(f, t, RawSections(t));
  }

  /** A parse, from the parse of its tables. */
  lemma ParseFrom(f: Bytes, p: Programs, table: Option<Range>, s: SectionInfo)
    requires HEADER_LEN <= |f| <= MAX_ELF_LEN && HeaderOk(f)
    requires ParseProgramTable(f, DEFAULT_LIMITS) == Good((p, table)) && ParseSectionTable(f, DEFAULT_LIMITS) == Good(s)
    ensures ParseElf(f, DEFAULT_LIMITS)
         == Good(Elf(f, s.sections, s.index, s.shstr, p, table, s.table, DEFAULT_LIMITS.notes))
  {
  }

  lemma TableParsed(f: Bytes, shoff: nat, raw: seq<Section>, index: nat, ss: seq<Section>, shstr: Bytes)
    requires Fields(f, shoff, |raw|, index) && 0 < |raw| < 1000 && index < |raw|
    requires 0 < shoff && shoff + SECTION_LEN * |raw| <= |f|
    requires SectionList(f, shoff, |raw|) == raw && Ready(f, raw, index, ss, shstr)
    ensures ParseSectionTable(f, DEFAULT_LIMITS)
         == Good(SectionInfo(ss, index, shstr, Range(shoff, shoff + SECTION_LEN * |raw|)))
  {
    SectionsParsed(f, shoff, raw, index, ss, shstr);
  }

  /** The file, or its extension, parsed: its segment is a note segment when its name table has index 4. */
  function ParsedAs(f: Bytes, shoff: nat, index: nat, ss: seq<Section>, shstr: Bytes): Elf {
    Elf(f, ss, index, shstr, SegmentsFor(index), Some(Range(62, 118)), Range(shoff, shoff + SECTION_LEN * |ss|),
        DEFAULT_LIMITS.notes)
  }

  lemma ParsedFrom(f: Bytes, shoff: nat, index: nat, ss: seq<Section>, shstr: Bytes)
    requires Fields(f, shoff, |ss|, index) && index != PT_LOAD && 121 <= |f| <= MAX_ELF_LEN
    requires ParseSectionTable(f, DEFAULT_LIMITS)
          == Good(SectionInfo(ss, index, shstr, Range(shoff, shoff + SECTION_LEN * |ss|)))
    ensures ParseElf(f, DEFAULT_LIMITS) == Good(ParsedAs(f, shoff, index, ss, shstr))
  {
    SegmentParsed(f, shoff, |ss|, index);
    ParseFrom(f, SegmentsFor(index), Some(Range(62, 118)),
              SectionInfo(ss, index, shstr, Range(shoff, shoff + SECTION_LEN * |ss|)));
  }

  function Before(f: Bytes, man: Bytes): Elf {
    ParsedAs(f, 156, 2, FileSections(man, 156), Names(man))
  }

  lemma BeforeFrom(f: Bytes, man: Bytes)
    requires |f| == 348 && Fields(f, 156, 3, 2) && HeadersAt(Reader(f), 156)
    requires Holds(f, 137, Names(man)) && ManifestName(man)
    ensures ParseElf(f, DEFAULT_LIMITS) == Good(Before(f, man))
  {
    FileList(f, 156);
    FileReady(f, man);
    TableParsed(f, 156, RawSections(156), 2, FileSections(man, 156), Names(man));
    ParsedFrom(f, 156, 2, FileSections(man, 156), Names(man));
  }

  lemma FileParsed(f: Bytes, man: Bytes)
    requires Built(f, man) && ManifestName(man)
    ensures ParseElf(f, DEFAULT_LIMITS) == Good(Before(f, man))
  {
    FileFields(f, man);
    FileHeaders(f);
    BeforeFrom(f, man);
  }

  // ---------------------------------------------------------------- before signing

  lemma NamedAmong(ss: seq<Section>, man: Bytes, t: nat, wanted: Bytes)
    requires ss == FileSections(man, t) && |man| == 17 && wanted != []
    ensures Named(ss, wanted, 3) == if wanted == man then [1] else []
  {
    assert Named(ss, wanted, 0) == [] && Named(ss, wanted, 1) == [];
    assert Named(ss, wanted, 2) == if wanted == man then [1] else [];
  }

  lemma NoAreas(ss: seq<Section>, man: Bytes, t: nat)
    requires ss == FileSections(man, t)
    ensures SectionAreas(ss, 3) == []
  {
    assert SectionAreas(ss, 0) == [] && SectionAreas(ss, 1) == [] && SectionAreas(ss, 2) == [];
  }

  lemma Unsigned(f: Bytes, man: Bytes, sig: Bytes)
    requires |man| == 17 && |sig| == 23
    ensures LocateRecordAs(Before(f, man), sig) == Good(None)
    ensures Named(FileSections(man, 156), sig, 3) == []
  {
    NamedAmong(FileSections(man, 156), man, 156, sig);
    NoAreas(FileSections(man, 156), man, 156);
    assert AllAreas(Before(f, man)) == [];
  }

  lemma ManifestZeros(f: Bytes)
    requires Holds(f, 220, HeaderBytes(1, SHT_PROGBITS, 120, 17, 4))
    ensures 284 <= |f| && Le(f, 228, 8) == 0 && Le(f, 236, 8) == 0 && Le(f, 260, 8) == 0
  {
    var h := HeaderBytes(1, SHT_PROGBITS, 120, 17, 4);
    HeaderParts(1, SHT_PROGBITS, 120, 17, 4, h);
    assert ZeroAt(h, 8, 24) by { assert forall i :: 8 <= i < 24 ==> h[i] == h[8..24][i - 8]; }
    assert ZeroAt(h, 40, 48) by { assert forall i :: 40 <= i < 48 ==> h[i] == h[40..48][i - 40]; }
    HeldZeros(f, 220, h, 8, 24);
    HeldZeros(f, 220, h, 40, 48);
    ZeroLong(f, 228);
    ZeroLong(f, 236);
    ZeroLong(f, 260);
  }

  lemma ManifestApart(f: Bytes, man: Bytes)
    ensures ManifestClear(Before(f, man), 1)
  {
  }

  lemma ManifestThere(f: Bytes, man: Bytes)
    requires |f| == 348 && Holds(f, 120, ManifestHeader()) && Holds(f, 136, [109])
    requires Le(f, 228, 8) == 0 && Le(f, 236, 8) == 0 && Le(f, 260, 8) == 0
    ensures ManifestAt(Before(f, man), 1) == Good([109])
  {
    ManifestApart(f, man);
    AsciiIsUtf8([109]);
    var data := f[120..137];
    assert data[..16] == f[120..136] && data[16..] == f[136..137];
  }

  lemma HasManifest(f: Bytes, man: Bytes)
    requires Built(f, man) && ManifestName(man)
    ensures LocateManifestAs(Before(f, man), man) == Good(Some([109]))
  {
    ManifestZeros(f);
    ManifestThere(f, man);
    NamedAmong(FileSections(man, 156), man, 156, man);
  }

  // ---------------------------------------------------------------- the extension

  function NewNames(man: Bytes, sig: Bytes): Bytes {
    Names(man) + sig + [0]
  }

  function NewLayout(man: Bytes, sig: Bytes): Layout {
    Layout(19, 348, 516, 560, 5, NewNames(man, sig))
  }

  lemma LayoutIs(f: Bytes, man: Bytes, sig: Bytes, data: Bytes)
    requires |f| == 348 && |man| == 17 && |sig| == 23 && |data| == 168
    ensures LayoutOf(Before(f, man), sig, data) == NewLayout(man, sig)
  {
    assert Terminated(Names(man)) == Names(man);
  }

  /** What the extended file holds and where. */
  predicate Grown(f: Bytes, man: Bytes, sig: Bytes, data: Bytes, out: Bytes) {
    && |out| == 880 && BytesKept(f, out) && Le(out, 40, 8) == 560 && Le(out, 60, 2) == 5 && Le(out, 62, 2) == 4
    && HeadersCopied(f, FileSections(man, 156), out, 560, 3)
    && Holds(out, 348, data) && Holds(out, 516, NewNames(man, sig))
    && Reader(out)(752) == NewSections([])[0] && Reader(out)(816) == NewSections([])[1]
  }

  /** The two sections of the extension, the first with a name. */
  function NewSections(name: Bytes): seq<Section> {
    [Section(19, name, SHT_NOTE, 348, 168, 4, 0, 752), Section(0, [], SHT_STRTAB, 516, 43, 1, 0, 816)]
  }

  lemma FileExtends(f: Bytes, man: Bytes, sig: Bytes, data: Bytes) returns (out: Bytes)
    requires |f| == 348 && |man| == 17 && |sig| == 23 && |data| == 168
    ensures AppendSection(Before(f, man), sig, SHT_NOTE, data) == Good(out)
    ensures Grown(f, man, sig, data, out)
  {
    var e := Before(f, man);
    LayoutIs(f, man, sig, data);
    out := AppendSection(e, sig, SHT_NOTE, data).value;
    AppendHolds(e, sig, SHT_NOTE, data, out);
    GrownFrom(e, f, man, sig, data, out, NewLayout(man, sig));
  }

  lemma GrownFrom(e: Elf, f: Bytes, man: Bytes, sig: Bytes, data: Bytes, out: Bytes, l: Layout)
    requires |man| == 17 && |sig| == 23 && |data| == 168 && l == NewLayout(man, sig)
    requires Retabled(l, out) && BytesKept(f, out) && HeadersCopied(f, FileSections(man, 156), out, l.table, 3)
    requires Holds(out, l.dataAt, data) && Holds(out, l.shstrAt, l.shstr)
    requires NewHeaders(l, 3, 0, SHT_NOTE, 168, Reader(out))
    ensures Grown(f, man, sig, data, out)
  {
  }

  lemma KeptFields(f: Bytes, out: Bytes)
    requires Fields(f, 156, 3, 2) && BytesKept(f, out) && |f| == 348 && |out| == 880
    requires Le(out, 40, 8) == 560 && Le(out, 60, 2) == 5 && Le(out, 62, 2) == 4
    ensures Fields(out, 560, 5, 4)
  {
    HeaderSame(f, out);
    SameLe(f, out, 0, 40, 32, 8);
    SameLe(f, out, 48, 60, 54, 2);
    SameLe(f, out, 48, 60, 56, 2);
    SameLe(f, out, 48, 60, 58, 2);
    SameLe(f, out, HEADER_LEN, 348, 70, 8);
  }

  lemma KeptHeaders(f: Bytes, man: Bytes, out: Bytes)
    requires |f| == 348 && |out| == 880 && HeadersAt(Reader(f), 156)
    requires HeadersCopied(f, FileSections(man, 156), out, 560, 3)
    ensures HeadersAt(Reader(out), 560)
  {
    HeaderCopied(f, FileSections(man, 156), out, 560, 3, 0);
    HeaderCopied(f, FileSections(man, 156), out, 560, 3, 1);
    HeaderCopied(f, FileSections(man, 156), out, 560, 3, 2);
    SectionMoved(f, out, 156, 560);
    SectionMoved(f, out, 220, 624);
    SectionMoved(f, out, 284, 688);
  }

  lemma GrownList(out: Bytes)
    requires |out| == 880 && HeadersAt(Reader(out), 560)
    requires Reader(out)(752) == NewSections([])[0] && Reader(out)(816) == NewSections([])[1]
    ensures SectionList(out, 560, 5) == RawSections(560) + NewSections([])
  {
    FileList(out, 560);
    LastSection(out, 560, 3, NewSections([])[0]);
    LastSection(out, 560, 4, NewSections([])[1]);
  }

  lemma NewNamesIn(man: Bytes, sig: Bytes)
    requires ManifestName(man) && |sig| == 23 && 0 !in sig
    ensures NameIn(NewNames(man, sig), 19, sig) && Names(man) <= NewNames(man, sig) && |NewNames(man, sig)| == 43
  {
    var n := NewNames(man, sig);
    assert n[19..42] == sig && n[42] == 0;
  }

  lemma ExtensionNamed(man: Bytes, sig: Bytes)
    requires ManifestName(man) && |sig| == 23 && 0 !in sig
    ensures NamedAs(RawSections(560) + NewSections([]), FileSections(man, 560) + NewSections(sig), NewNames(man, sig))
  {
    NewNamesIn(man, sig);
    FileNamed(man, 560, NewNames(man, sig));
    OwnNames(man, NewNames(man, sig));
  }

  lemma ExtensionOk(man: Bytes, sig: Bytes)
    ensures forall i :: 0 <= i < 5 ==> SectionOk((FileSections(man, 560) + NewSections(sig))[i])
  {
    FileSectionsOk(man, 560);
    Fourths(348);
    assert PowerOfTwo(2);
  }

  lemma ExtensionReady(out: Bytes, man: Bytes, sig: Bytes)
    requires |out| == 880 && Holds(out, 516, NewNames(man, sig)) && ManifestName(man) && |sig| == 23 && 0 !in sig
    ensures Ready(out, RawSections(560) + NewSections([]), 4, FileSections(man, 560) + NewSections(sig),
                  NewNames(man, sig))
  {
    ExtensionNamed(man, sig);
    ExtensionOk(man, sig);
  }

  function After(out: Bytes, man: Bytes, sig: Bytes): Elf {
    ParsedAs(out, 560, 4, FileSections(man, 560) + NewSections(sig), NewNames(man, sig))
  }

  lemma ExtensionParsed(f: Bytes, man: Bytes, sig: Bytes, data: Bytes, out: Bytes)
    requires |f| == 348 && Fields(f, 156, 3, 2) && HeadersAt(Reader(f), 156) && Grown(f, man, sig, data, out)
    requires ManifestName(man) && |sig| == 23 && 0 !in sig
    ensures ParseElf(out, DEFAULT_LIMITS) == Good(After(out, man, sig))
  {
    var raw, ss := RawSections(560) + NewSections([]), FileSections(man, 560) + NewSections(sig);
    KeptFields(f, out);
    KeptHeaders(f, man, out);
    GrownList(out);
    ExtensionReady(out, man, sig);
    TableParsed(out, 560, raw, 4, ss, NewNames(man, sig));
    ParsedFrom(out, 560, 4, ss, NewNames(man, sig));
  }

  // ---------------------------------------------------------------- signing it

  lemma AfterNamed(man: Bytes, sig: Bytes)
    requires |man| == 17 && |sig| == 23
    ensures Named(FileSections(man, 560) + NewSections(sig), sig, 5) == [3]
  {
    var ss := FileSections(man, 560) + NewSections(sig);
    NamedAmong(FileSections(man, 560), man, 560, sig);
    NamedPrefix(FileSections(man, 560), ss, sig, 3);
    assert Named(ss, sig, 4) == [3];
  }

  lemma AfterAreas(out: Bytes, man: Bytes, sig: Bytes)
    ensures AllAreas(After(out, man, sig)) == [Area(348, 168, FromSection(3)), Area(121, 0, FromProgram(0))]
  {
    var ss := FileSections(man, 560) + NewSections(sig);
    assert SectionAreas(ss, 0) == [] && SectionAreas(ss, 1) == [] && SectionAreas(ss, 2) == [];
    assert SectionAreas(ss, 3) == [] && SectionAreas(ss, 4) == [Area(348, 168, FromSection(3))];
    assert SectionAreas(ss, 5) == SectionAreas(ss, 4);
  }

  lemma ScanStep(out: Bytes, a: Area, rest: seq<Area>, ds: seq<nat>, os: seq<Occurrence>)
    requires a.offset + a.size <= |out| && Notes(out, a.offset, a.offset + a.size) == Good(ds)
    requires ScanAreas(out, rest) == Good(os)
    ensures ScanAreas(out, [a] + rest) == Good(Occurrences(ds, a) + os)
  {
    var areas := [a] + rest;
    assert areas[0] == a && areas[1..] == rest;
    ScanFront(out, areas, Good(ds), Good(os));
  }

  lemma ScanFront(out: Bytes, areas: seq<Area>, here: Parse<seq<nat>>, there: Parse<seq<Occurrence>>)
    requires areas != [] && areas[0].offset + areas[0].size <= |out|
    requires Notes(out, areas[0].offset, areas[0].offset + areas[0].size) == here && ScanAreas(out, areas[1..]) == there
    ensures ScanAreas(out, areas) == AddOccurrences(here, areas[0], there)
  {
  }

  lemma AfterScan(out: Bytes, a: Area, p: Area)
    requires a == Area(348, 168, FromSection(3)) && p == Area(121, 0, FromProgram(0)) && |out| == 880
    requires Notes(out, 348, 516) == Good([368])
    ensures ScanAreas(out, [a, p]) == Good([Occurrence(368, a)]) && TotalSize([a, p]) == 168
  {
    var none: seq<Occurrence> := Occurrences([], p) + [];
    ScanStep(out, p, [], [], []);
    assert [p] + [] == [p] && none == [];
    ScanStep(out, a, [p], [368], []);
    assert [a] + [p] == [a, p] && Occurrences([368], a) + [] == [Occurrence(368, a)];
    assert [a, p][1..] == [p] && TotalSize([p]) == 0 + TotalSize([p][1..]);
  }

  lemma AfterLocation(out: Bytes, man: Bytes, sig: Bytes)
    requires |out| == 880
    ensures LocationOk(After(out, man, sig), Occurrence(368, Area(348, 168, FromSection(3))))
  {
  }

  /** The extension's record is found: nothing crosses it. */
  lemma RecordThere(out: Bytes, man: Bytes, sig: Bytes)
    requires |out| == 880 && |man| == 17 && |sig| == 23 && Holds(out, 348, NoteBytes(AdHoc, Zeros(32)))
    ensures LocateRecordAs(After(out, man, sig), sig) == Good(Some(BlankRecord(368)))
  {
    WrittenNote(out, 348);
    AfterNamed(man, sig);
    AfterAreas(out, man, sig);
    AfterScan(out, Area(348, 168, FromSection(3)), Area(121, 0, FromProgram(0)));
    AfterLocation(out, man, sig);
    LocatedFrom(After(out, man, sig), sig, Occurrence(368, Area(348, 168, FromSection(3))), BlankRecord(368));
  }

  lemma LocatedFrom(e: Elf, sig: Bytes, o: Occurrence, r: Record)
    requires |e.sections| == 5 && Named(e.sections, sig, 5) == [3] && e.sections[3].kind == SHT_NOTE
    requires ScanAreas(e.bytes, AllAreas(e)) == Good([o]) && TotalSize(AllAreas(e)) <= e.noteLimit
    requires e.sections[3].offset <= o.descriptor
    requires o.descriptor + DESCRIPTOR_LEN <= e.sections[3].offset + e.sections[3].size
    requires LocationOk(e, o) && ParseRecord(e.bytes, o.descriptor) == Good(r)
    ensures LocateRecordAs(e, sig) == Good(Some(r))
  {
  }

  lemma EmbeddedFrom(b: Bytes, e: Elf, out: Bytes, e1: Elf, r: Record)
    requires ParseElf(b, DEFAULT_LIMITS) == Good(e) && LocateRecord(e) == Good(None)
    requires Named(e.sections, SIGNATURE_SECTION, |e.sections|) == [] && LocateManifest(e).Good?
    requires AppendSection(e, SIGNATURE_SECTION, SHT_NOTE, NoteBytes(AdHoc, Zeros(32))) == Good(out)
    requires ParseElf(out, DEFAULT_LIMITS) == Good(e1) && LocateRecord(e1) == Good(Some(r))
    ensures EmbedEmptyRecord(b, AdHoc, Zeros(32)) == Good(out)
  {
  }

  lemma SignedFrom(sha: Hash, b: Bytes, out: Bytes, e1: Elf, r: Record)
    requires EmbedEmptyRecord(b, AdHoc, Zeros(32)) == Good(out)
    requires ParseElf(out, DEFAULT_LIMITS) == Good(e1) && LocateRecord(e1) == Good(Some(r))
    ensures SignAdHoc(sha, b).Good?
  {
  }

  /** The note segment at byte 121 is inside the manifest. */
  lemma SegmentCrosses(f: Bytes, man: Bytes)
    requires |man| == 17
    ensures !ManifestMissed(Before(f, man), man, SegmentsFor(PT_NOTE))
  {
    NamedAmong(FileSections(man, 156), man, 156, man);
    var p := SegmentsFor(PT_NOTE);
    assert p.notes[0] == Area(121, 0, FromProgram(0));
    assert !ProgramsMiss(p, Range(120, 137));
  }

  lemma ManifestCrossed(f: Bytes, man: Bytes, sig: Bytes, data: Bytes, out: Bytes, e: Elf, e1: Elf)
    requires Extending(f, e, sig, SHT_NOTE, data, out, e1) && |man| == 17
    requires e == Before(f, man) && e1.programs == SegmentsFor(PT_NOTE)
    ensures !SurvivesAs(e, sig, data, man)
  {
    SurvivesIsMissed(f, e, sig, SHT_NOTE, data, out, e1, man);
    SegmentCrosses(f, man);
  }

  /** The pieces of the example, with the two reserved names as parameters. */
  lemma Example(man: Bytes, sig: Bytes, data: Bytes) returns (b: Bytes, e: Elf, out: Bytes, e1: Elf)
    requires ManifestName(man) && |sig| == 23 && 0 !in sig && data == NoteBytes(AdHoc, Zeros(32))
    ensures Extending(b, e, sig, SHT_NOTE, data, out, e1) && LocateRecordAs(e, sig) == Good(None)
    ensures Named(e.sections, sig, |e.sections|) == [] && LocateManifestAs(e, man).Good?
    ensures LocateRecordAs(e1, sig) == Good(Some(BlankRecord(368))) && !SurvivesAs(e, sig, data, man)
  {
    b := File(man);
    e := Before(b, man);
    FileBuilt(man);
    FileParsed(b, man);
    FileFields(b, man);
    FileHeaders(b);
    Unsigned(b, man, sig);
    HasManifest(b, man);
    out := FileExtends(b, man, sig, data);
    e1 := After(out, man, sig);
    ExtensionParsed(b, man, sig, data, out);
    RecordThere(out, man, sig);
    ManifestCrossed(b, man, sig, data, out, e, e1);
  }

  /** Signing can succeed on a file that then does not verify. */
  lemma SignedButRefused(sha: Hash, keyed: Record -> bool) returns (b: Bytes, c: Bytes)
    ensures SignAdHoc(sha, b) == Good(c) && Verify(sha, keyed, c) == Bad
  {
    SectionNames();
    assert |SIGNATURE_SECTION| == 23 && |MANIFEST_SECTION| == 17;
    var e, out, e1;
    b, e, out, e1 := Example(MANIFEST_SECTION, SIGNATURE_SECTION, NoteBytes(AdHoc, Zeros(32)));
    EmbeddedFrom(b, e, out, e1, BlankRecord(368));
    SignedFrom(sha, b, out, e1, BlankRecord(368));
    c := SignAdHoc(sha, b).value;
    var offset := SignThenVerifyExactly(sha, keyed, b, e, c);
  }
}
