/** Exactly which files parse, and what a parsed file says about the bytes it came from. */
module ElfAccepted {
  import opened Machine
  import opened ElfSpec
  import opened ElfNames

  // ---------------------------------------------------------------- arithmetic

  lemma {:induction false} RemainderIs(x: nat, m: nat)
    requires m > 0
    ensures Remainder(x, m) == x % m
  {
    if x >= m {
      RemainderIs(x - m, m);
      assert x % m == (x - m) % m by { ModStep(x - m, m); }
    }
  }

  lemma AtLeastOnce(m: int, k: int)
    requires m > 0 && k >= 1
    ensures m * k >= m
  {
  }

  lemma NoMultipleBetween(m: int, k: int, d: int)
    requires m > 0 && d == m * k && 0 - m < d < m
    ensures k == 0
  {
    if k >= 1 { AtLeastOnce(m, k); }
    if k <= -1 { AtLeastOnce(m, -k); }
  }

  lemma ModStep(x: nat, m: nat)
    requires m > 0
    ensures (x + m) % m == x % m
  {
    var q, r, q', r' := x / m, x % m, (x + m) / m, (x + m) % m;
    assert x == m * q + r && x + m == m * q' + r';
    assert m * (q' - q - 1) == r - r' by { Distributes(m, q', q); }
    NoMultipleBetween(m, q' - q - 1, r - r');
  }

  lemma Distributes(m: int, a: int, b: int)
    ensures m * (a - b - 1) == m * a - m * b - m
  {
  }

  /** A power of two. */
  ghost predicate IsPower(x: nat) {
    exists k: nat :: x == Pow2(k)
  }

  lemma {:induction false} PowerOfTwoIs(x: nat)
    ensures PowerOfTwo(x) <==> IsPower(x)
  {
    if x == 1 {
      assert x == Pow2(0);
    } else if x > 1 {
      if PowerOfTwo(x) {
        PowerOfTwoIs(x / 2);
        var k: nat :| x / 2 == Pow2(k);
        assert x == Pow2(k + 1);
      }
      if IsPower(x) {
        var k: nat :| x == Pow2(k);
        assert x == 2 * Pow2(k - 1);
        PowerOfTwoIs(x / 2);
      }
    } else {
      assert forall k: nat :: Pow2(k) >= 1;
    }
  }

  // ---------------------------------------------------------------- program headers

  /** The fields of the program header at an offset. */
  datatype Program = Program(kind: nat, offset: nat, address: nat, fileSize: nat, memorySize: nat, align: nat)

  function ProgramAt(b: Bytes, raw: nat): Program
    requires raw + 56 <= |b|
  {
    Program(Le(b, raw, 4), Le(b, raw + 8, 8), Le(b, raw + 16, 8), Le(b, raw + 32, 8), Le(b, raw + 40, 8),
            Le(b, raw + 48, 8))
  }

  /** Its bytes are in the file, and a loaded segment fits its memory and is congruent to its address. */
  ghost predicate ProgramFine(p: Program, limit: nat) {
    && p.offset + p.fileSize <= limit && (p.align > 1 ==> IsPower(p.align))
    && (p.kind == 1 ==> p.fileSize <= p.memorySize && (p.align > 1 ==> p.address % p.align == p.offset % p.align))
  }

  lemma ProgramExactly(b: Bytes, raw: nat)
    requires raw + 56 <= |b|
    ensures ProgramOk(b, raw) <==> ProgramFine(ProgramAt(b, raw), |b|)
  {
    var p := ProgramAt(b, raw);
    PowerOfTwoIs(p.align);
    if p.align > 1 {
      RemainderIs(p.address, p.align);
      RemainderIs(p.offset, p.align);
    }
  }

  /** The note areas and the loaded ranges are those of the note and the non-empty load headers, notes in order. */
  ghost predicate Collects(b: Bytes, phoff: nat, n: nat, p: Programs)
    requires phoff + 56 * n <= |b|
  {
    && (forall a :: a in p.notes <==> exists i :: 0 <= i < n && NoteArea(b, phoff, i, a))
    && (forall i, j :: 0 <= i < j < |p.notes| ==> Before(p.notes[i].origin, p.notes[j].origin))
    && (forall r :: r in p.loads <==> exists i :: 0 <= i < n && LoadRange(b, phoff, i, r))
  }

  predicate Before(x: Origin, y: Origin) {
    x.FromProgram? && y.FromProgram? && x.index < y.index
  }

  predicate NoteArea(b: Bytes, phoff: nat, i: nat, a: Area) {
    && phoff + 56 * i + 56 <= |b|
    && var p := ProgramAt(b, phoff + 56 * i); p.kind == 4 && a == Area(p.offset, p.fileSize, FromProgram(i))
  }

  predicate LoadRange(b: Bytes, phoff: nat, i: nat, r: Range) {
    && phoff + 56 * i + 56 <= |b|
    && var p := ProgramAt(b, phoff + 56 * i);
       p.kind == 1 && p.fileSize > 0 && r == Range(p.offset, p.offset + p.fileSize)
  }

  lemma CollectsMore(b: Bytes, phoff: nat, n: nat, before: Programs)
    requires phoff + 56 * n <= |b| && n > 0 && Collects(b, phoff, n - 1, before)
    ensures var p := ProgramAt(b, phoff + 56 * (n - 1));
      Collects(b, phoff, n, WithProgram(before, n - 1, p.kind, p.offset, p.fileSize))
  {
    var p := ProgramAt(b, phoff + 56 * (n - 1));
    var after := WithProgram(before, n - 1, p.kind, p.offset, p.fileSize);
    forall a ensures a in after.notes <==> exists i :: 0 <= i < n && NoteArea(b, phoff, i, a) {
      if NoteArea(b, phoff, n - 1, a) { assert a in after.notes; }
    }
    forall r ensures r in after.loads <==> exists i :: 0 <= i < n && LoadRange(b, phoff, i, r) {
      if LoadRange(b, phoff, n - 1, r) { assert r in after.loads; }
    }
    forall i, j | 0 <= i < j < |after.notes| ensures Before(after.notes[i].origin, after.notes[j].origin) {
      assert before.notes[i] in before.notes;
    }
  }

  ghost predicate FineAt(b: Bytes, phoff: nat, i: nat) {
    phoff + 56 * i + 56 <= |b| && ProgramFine(ProgramAt(b, phoff + 56 * i), |b|)
  }

  ghost predicate AllFine(b: Bytes, phoff: nat, n: nat) {
    forall i :: 0 <= i < n ==> FineAt(b, phoff, i)
  }

  lemma {:induction false} ProgramsAccepted(b: Bytes, phoff: nat, n: nat)
    requires phoff + 56 * n <= |b|
    ensures ParsePrograms(b, phoff, n).Good? <==> AllFine(b, phoff, n)
    decreases n
  {
    if n > 0 {
      ProgramsAccepted(b, phoff, n - 1);
      ProgramExactly(b, phoff + 56 * (n - 1));
      assert ProgramOk(b, phoff + 56 * (n - 1)) <==> FineAt(b, phoff, n - 1);
    }
  }

  lemma {:induction false} ProgramsCollected(b: Bytes, phoff: nat, n: nat)
    requires phoff + 56 * n <= |b| && ParsePrograms(b, phoff, n).Good?
    ensures Collects(b, phoff, n, ParsePrograms(b, phoff, n).value)
    decreases n
  {
    if n > 0 {
      ProgramsCollected(b, phoff, n - 1);
      CollectsMore(b, phoff, n, ParsePrograms(b, phoff, n - 1).value);
    }
  }

  /** No program headers and no place for them, or a table of them inside the file, each fine. */
  ghost predicate ProgramTableFine(b: Bytes, limit: nat, at: nat, size: nat, count: nat) {
    && count <= limit && (count == 0 <==> at == 0)
    && (count > 0 ==> count != 0xFFFF && size == 56 && at + 56 * count <= |b| && AllFine(b, at, count))
  }

  lemma ProgramTableExactly(b: Bytes, limits: Limits)
    requires |b| >= 64
    ensures ParseProgramTable(b, limits).Good?
       <==> ProgramTableFine(b, limits.programs, Le(b, 32, 8), Le(b, 54, 2), Le(b, 56, 2))
  {
    var at, count := Le(b, 32, 8), Le(b, 56, 2);
    if at + 56 * count <= |b| { ProgramsAccepted(b, at, count); }
  }

  lemma ProgramTableCollects(b: Bytes, limits: Limits, at: nat, count: nat)
    requires |b| >= 64 && ParseProgramTable(b, limits).Good? && at == Le(b, 32, 8) && count == Le(b, 56, 2)
    ensures at + 56 * count <= |b| && Collects(b, at, count, ParseProgramTable(b, limits).value.0)
    ensures ParseProgramTable(b, limits).value.1 == if count == 0 then None else Some(Range(at, at + 56 * count))
  {
    assert ParsePrograms(b, at, 0) == Good(Programs([], []));
    if count > 0 { ProgramsCollected(b, at, count); } else { ProgramsCollected(b, at, 0); }
  }

  // ---------------------------------------------------------------- names

  /** What the names cost: their bytes and a NUL each. */
  function NameCost(ss: seq<Section>): nat {
    if ss == [] then 0 else |ss[0].name| + 1 + NameCost(ss[1..])
  }

  lemma {:induction false} FirstZeroAfter(name: Bytes, rest: Bytes)
    requires 0 !in name && rest != [] && rest[0] == 0
    ensures FirstZero(name + rest) == Some(|name|)
  {
    if name == [] {
      assert name + rest == rest;
    } else {
      assert (name + rest)[1..] == name[1..] + rest;
      FirstZeroAfter(name[1..], rest);
    }
  }

  lemma NameFits(shstr: Bytes, at: nat, name: Bytes, budget: nat)
    requires NameIn(shstr, at, name) && |name| < budget
    ensures NameAt(shstr, at, budget) == Some(name)
  {
    var scan := shstr[at..][..Min(|shstr| - at, budget)];
    var rest := scan[|name|..];
    assert scan[..|name|] == shstr[at..at + |name|] && rest[0] == shstr[at + |name|];
    assert scan == name + rest;
    FirstZeroAfter(name, rest);
  }

  lemma {:induction false} NamesCost(ss: seq<Section>, shstr: Bytes, budget: nat, named: seq<Section>)
    requires WithNames(ss, shstr, budget) == Good(named)
    ensures NameCost(named) <= budget
    decreases |ss|
  {
    if ss != [] {
      var name := NameAt(shstr, ss[0].nameAt, budget).value;
      var rest := WithNames(ss[1..], shstr, budget - (|name| + 1)).value;
      NamesCost(ss[1..], shstr, budget - (|name| + 1), rest);
      assert named[1..] == rest;
    }
  }

  lemma NamedTail(ss: seq<Section>, named: seq<Section>, shstr: Bytes)
    requires ss != [] && NamedAs(ss, named, shstr)
    ensures NamedAs(ss[1..], named[1..], shstr) && named == [ss[0].(name := named[0].name)] + named[1..]
    ensures NameIn(shstr, ss[0].nameAt, named[0].name)
  {
  }

  lemma {:induction false} NamesFit(ss: seq<Section>, shstr: Bytes, budget: nat, named: seq<Section>)
    requires NamedAs(ss, named, shstr) && NameCost(named) <= budget
    ensures WithNames(ss, shstr, budget) == Good(named)
    decreases |ss|
  {
    if ss != [] {
      var name := named[0].name;
      NamedTail(ss, named, shstr);
      NameFits(shstr, ss[0].nameAt, name, budget);
      NamesFit(ss[1..], shstr, budget - (|name| + 1), named[1..]);
    }
  }

  /** Names are resolved exactly when each stands in the table and all together fit the budget. */
  lemma NamesExactly(ss: seq<Section>, shstr: Bytes, budget: nat, named: seq<Section>)
    ensures WithNames(ss, shstr, budget) == Good(named) <==> NamedAs(ss, named, shstr) && NameCost(named) <= budget
  {
    if WithNames(ss, shstr, budget) == Good(named) {
      WithNamesIs(ss, shstr, budget, named);
      NamesCost(ss, shstr, budget, named);
    }
    if NamedAs(ss, named, shstr) && NameCost(named) <= budget { NamesFit(ss, shstr, budget, named); }
  }

  // ---------------------------------------------------------------- section headers

  /** A section without its name, as its header spells it. */
  predicate SectionIs(b: Bytes, raw: nat, s: Section) {
    && raw + 64 <= |b| && s.raw == raw && s.nameAt == Le(b, raw, 4) && s.kind == Le(b, raw + 4, 4)
    && s.offset == Le(b, raw + 24, 8) && s.size == Le(b, raw + 32, 8) && s.align == Le(b, raw + 48, 8)
    && s.entrySize == Le(b, raw + 56, 8)
  }

  /** Aligned to a power of two, and made of whole entries. */
  ghost predicate SectionFine(s: Section) {
    && (s.align != 0 ==> IsPower(s.align))
    && (s.kind != 8 && s.size > 0 && s.align > 1 ==> s.offset % s.align == 0)
    && (s.entrySize != 0 ==> s.size % s.entrySize == 0)
  }

  lemma SectionExactly(s: Section)
    ensures SectionOk(s) <==> SectionFine(s)
  {
    PowerOfTwoIs(s.align);
    if s.align > 1 { RemainderIs(s.offset, s.align); }
    if s.entrySize != 0 { RemainderIs(s.size, s.entrySize); }
  }

  ghost predicate EachFine(ss: seq<Section>) {
    forall i :: 0 <= i < |ss| ==> SectionFine(ss[i])
  }

  lemma {:induction false} AllOkExactly(ss: seq<Section>)
    ensures AllOk(ss) <==> EachFine(ss)
  {
    if ss != [] {
      SectionExactly(ss[0]);
      AllOkExactly(ss[1..]);
      if EachFine(ss[1..]) && SectionFine(ss[0]) {
        forall i | 0 <= i < |ss| ensures SectionFine(ss[i]) { if i > 0 { assert ss[i] == ss[1..][i - 1]; } }
      }
    }
  }

  predicate SectionsAre(b: Bytes, at: nat, ss: seq<Section>) {
    forall i :: 0 <= i < |ss| ==> SectionIs(b, at + 64 * i, ss[i])
  }

  lemma {:induction false} ListIs(b: Bytes, at: nat, n: nat)
    requires at + 64 * n <= |b|
    ensures SectionsAre(b, at, SectionList(b, at, n))
    decreases n
  {
    if n > 0 { ListIs(b, at, n - 1); }
  }

  /** Sections that spell the headers and have their names are the list with names. */
  lemma NamedIsList(b: Bytes, at: nat, n: nat, named: seq<Section>, shstr: Bytes)
    requires at + 64 * n <= |b|
    ensures NamedAs(SectionList(b, at, n), named, shstr)
       <==> && |named| == n && SectionsAre(b, at, named)
            && forall i :: 0 <= i < n ==> NameIn(shstr, named[i].nameAt, named[i].name)
  {
    var ss := SectionList(b, at, n);
    ListIs(b, at, n);
    if |named| == n && SectionsAre(b, at, named) {
      forall i | 0 <= i < n ensures named[i] == ss[i].(name := named[i].name) {
        assert SectionIs(b, at + 64 * i, named[i]) && SectionIs(b, at + 64 * i, ss[i]);
      }
    }
    if NamedAs(ss, named, shstr) {
      forall i | 0 <= i < n ensures SectionIs(b, at + 64 * i, named[i]) { assert SectionIs(b, at + 64 * i, ss[i]); }
    }
  }

  /** Stored sections lie inside the file, the first one is null, and the name table is a string table with a NUL first. */
  predicate TableFine(b: Bytes, ss: seq<Section>, index: nat, shstr: Bytes) {
    && |ss| > 0 && index < |ss|
    && (forall i :: 0 <= i < |ss| && ss[i].kind != 8 ==> ss[i].offset + ss[i].size <= |b|)
    && ss[0].nameAt == 0 && ss[0].kind == 0 && ss[0].offset == 0 && ss[0].size == 0 && ss[index].kind == 3
    && ss[index].offset + ss[index].size <= |b|
    && shstr == b[ss[index].offset..ss[index].offset + ss[index].size] && shstr != [] && shstr[0] == 0
  }

  lemma NameTableSame(ss: seq<Section>, named: seq<Section>, shstr: Bytes, b: Bytes, index: nat)
    requires NamedAs(ss, named, shstr)
    ensures TableFine(b, named, index, shstr) <==> TableFine(b, ss, index, shstr)
  {
    if |ss| > 0 && index < |ss| {
      assert named[0] == ss[0].(name := named[0].name) && named[index] == ss[index].(name := named[index].name);
      assert forall i :: 0 <= i < |ss| ==> named[i].kind == ss[i].kind && named[i].offset == ss[i].offset
                                           && named[i].size == ss[i].size;
    }
  }

  lemma NamedSectionsExactly(b: Bytes, ss: seq<Section>, index: nat, names: nat, named: seq<Section>, shstr: Bytes)
    requires forall i :: 0 <= i < |ss| ==> ss[i].raw + SECTION_LEN <= |b|
    ensures NameSections(b, ss, index, names) == Good((named, shstr))
       <==> TableFine(b, named, index, shstr) && NamedAs(ss, named, shstr) && NameCost(named) <= names
  {
    if NamedAs(ss, named, shstr) { NameTableSame(ss, named, shstr, b, index); }
    NamesExactly(ss, shstr, names, named);
    if NameTableOk(ss, index, |b|) {
      assert FileBacked(ss[index]);
      NamesExactly(ss, b[ss[index].offset..ss[index].offset + ss[index].size], names, named);
    }
  }

  /** The section table of a file: its sections, each as its header and the name table spell it, all fine. */
  ghost predicate SectionTableFine(b: Bytes, limits: Limits, at: nat, size: nat, count: nat, index: nat,
                                   ss: seq<Section>, shstr: Bytes)
  {
    && 1 <= count <= limits.sections && at != 0 && size == 64 && at + 64 * count <= |b| && index != 0xFFFF
    && |ss| == count && SectionsAre(b, at, ss) && TableFine(b, ss, index, shstr)
    && (forall i :: 0 <= i < count ==> NameIn(shstr, ss[i].nameAt, ss[i].name)) && NameCost(ss) <= limits.names
    && EachFine(ss)
  }

  lemma SectionsFromExactly(b: Bytes, limits: Limits, at: nat, size: nat, count: nat, index: nat, info: SectionInfo)
    requires |b| >= 64
    ensures SectionsFrom(b, limits, at, size, count, index) == Good(info)
       <==> && info == SectionInfo(info.sections, index, info.shstr, Range(at, at + 64 * count))
            && SectionTableFine(b, limits, at, size, count, index, info.sections, info.shstr)
  {
    if at + 64 * count <= |b| {
      NamedSectionsExactly(b, SectionList(b, at, count), index, limits.names, info.sections, info.shstr);
      NamedIsList(b, at, count, info.sections, info.shstr);
      AllOkExactly(info.sections);
    }
  }

  // ---------------------------------------------------------------- whole files

  /** A 64-bit little-endian ELF of version 1: an executable or a shared object. */
  predicate HeaderFine(b: Bytes) {
    && |b| >= 64 && b[..16] == [0x7f, 69, 76, 70, 2, 1, 1, 0, 0, 0, 0, 0, 0, 0, 0, 0]
    && 2 <= Le(b, 16, 2) <= 3 && Le(b, 20, 4) == 1 && Le(b, 52, 2) == 64
  }

  lemma HeaderExactly(b: Bytes)
    ensures HeaderOk(b) <==> HeaderFine(b)
  {
    if |b| >= 64 {
      var start: Bytes := [0x7f, 69, 76, 70, 2, 1, 1, 0, 0, 0, 0, 0, 0, 0, 0, 0];
      if HeaderOk(b) {
        assert forall i :: 0 <= i < 4 ==> b[i] == b[..4][i] == ELF_MAGIC[i];
        assert forall i :: 0 <= i < 16 ==> b[..16][i] == start[i];
      }
      if b[..16] == start {
        assert forall i :: 0 <= i < 16 ==> b[i] == b[..16][i] == start[i];
        assert b[..4] == ELF_MAGIC;
      }
    }
  }

  /** A file whose header, program headers and section headers are all fine. */
  ghost predicate FileFine(b: Bytes, limits: Limits, ss: seq<Section>, shstr: Bytes) {
    && |b| <= 0x4000_0000 && |b| <= limits.image && HeaderFine(b)
    && ProgramTableFine(b, limits.programs, Le(b, 32, 8), Le(b, 54, 2), Le(b, 56, 2))
    && SectionTableFine(b, limits, Le(b, 40, 8), Le(b, 58, 2), Le(b, 60, 2), Le(b, 62, 2), ss, shstr)
  }

  /** What a parsed file says: its sections and name table, and its note and load segments. */
  ghost predicate Describes(e: Elf, b: Bytes, limits: Limits, ss: seq<Section>, shstr: Bytes) {
    && |b| >= 64 && Le(b, 32, 8) + 56 * Le(b, 56, 2) <= |b|
    && e == Elf(b, ss, Le(b, 62, 2), shstr, e.programs, e.programTable,
                Range(Le(b, 40, 8), Le(b, 40, 8) + 64 * Le(b, 60, 2)), limits.notes)
    && e.programTable == (if Le(b, 56, 2) == 0 then None else Some(Range(Le(b, 32, 8), Le(b, 32, 8) + 56 * Le(b, 56, 2))))
    && Collects(b, Le(b, 32, 8), Le(b, 56, 2), e.programs)
  }

  lemma SectionTableExactly(b: Bytes, limits: Limits, info: SectionInfo)
    requires |b| >= 64
    ensures ParseSectionTable(b, limits) == Good(info)
       <==> && info == SectionInfo(info.sections, Le(b, 62, 2), info.shstr,
                                   Range(Le(b, 40, 8), Le(b, 40, 8) + 64 * Le(b, 60, 2)))
            && SectionTableFine(b, limits, Le(b, 40, 8), Le(b, 58, 2), Le(b, 60, 2), Le(b, 62, 2), info.sections,
                                info.shstr)
  {
    SectionsFromExactly(b, limits, Le(b, 40, 8), Le(b, 58, 2), Le(b, 60, 2), Le(b, 62, 2), info);
  }

  /** What a parsed file says is what its bytes say, and these are all fine. */
  lemma ParsedSays(b: Bytes, limits: Limits, e: Elf)
    requires ParseElf(b, limits) == Good(e)
    ensures FileFine(b, limits, e.sections, e.shstr) && Describes(e, b, limits, e.sections, e.shstr)
  {
    HeaderExactly(b);
    ProgramTableExactly(b, limits);
    ProgramTableCollects(b, limits, Le(b, 32, 8), Le(b, 56, 2));
    SectionTableExactly(b, limits, ParseSectionTable(b, limits).value);
  }

  /** Exactly which files parse: those with sections and a name table that make everything fine. */
  lemma ParsedExactly(b: Bytes, limits: Limits)
    ensures ParseElf(b, limits).Good? <==> exists ss: seq<Section>, shstr: Bytes :: FileFine(b, limits, ss, shstr)
  {
    if ParseElf(b, limits).Good? {
      var e := ParseElf(b, limits).value;
      ParsedSays(b, limits, e);
    }
    if exists ss: seq<Section>, shstr: Bytes :: FileFine(b, limits, ss, shstr) {
      var ss: seq<Section>, shstr: Bytes :| FileFine(b, limits, ss, shstr);
      HeaderExactly(b);
      ProgramTableExactly(b, limits);
      SectionTableExactly(b, limits, SectionInfo(ss, Le(b, 62, 2), shstr,
                                                 Range(Le(b, 40, 8), Le(b, 40, 8) + 64 * Le(b, 60, 2))));
    }
  }
}
