/** An extended file parses to the input's sections and names, the new section and the new name table. */
module ElfReparse {
  import opened Machine
  import opened Pieces
  import opened ElfSpec
  import opened ElfNames
  import opened ElfAgree
  import opened ElfAppend

  // ---------------------------------------------------------------- what a parse says about its bytes

  /** The first n sections are what a table holds. */
  predicate AllRead(read: nat -> Section, ss: seq<Section>, table: nat, n: nat)
    requires n <= |ss|
  {
    n == 0 || (AllRead(read, ss, table, n - 1) && ss[n - 1].(name := []) == read(table + SECTION_LEN * (n - 1)))
  }

  lemma {:induction false} ReadAt(read: nat -> Section, ss: seq<Section>, table: nat, n: nat, i: nat)
    requires i < n <= |ss| && AllRead(read, ss, table, n)
    ensures ss[i].(name := []) == read(table + SECTION_LEN * i)
  {
    if i < n - 1 { ReadAt(read, ss, table, n - 1, i); }
  }

  lemma {:induction false} ReadPrefix(read: nat -> Section, ss: seq<Section>, t: Section, table: nat, n: nat)
    requires n <= |ss| && AllRead(read, ss, table, n)
    ensures AllRead(read, ss + [t], table, n)
  {
    if n > 0 { ReadPrefix(read, ss, t, table, n - 1); }
  }

  lemma {:induction false} ListRead(b: Bytes, shoff: nat, n: nat)
    requires shoff + SECTION_LEN * n <= |b|
    ensures AllRead(Reader(b), SectionList(b, shoff, n), shoff, n)
  {
    if n > 0 {
      ListRead(b, shoff, n - 1);
      ReadPrefix(Reader(b), SectionList(b, shoff, n - 1), SectionAt(b, shoff + SECTION_LEN * (n - 1)), shoff, n - 1);
    }
  }

  lemma {:induction false} ReadNamed(
    read: nat -> Section, ss: seq<Section>, named: seq<Section>, shstr: Bytes, table: nat, n: nat)
    requires NamedAs(ss, named, shstr) && n <= |ss| && AllRead(read, ss, table, n)
    ensures AllRead(read, named, table, n)
  {
    if n > 0 { ReadNamed(read, ss, named, shstr, table, n - 1); }
  }

  /** Where the name table of a file is, and that every name is in it. */
  predicate NamesRead(b: Bytes, ss: seq<Section>, index: nat, shstr: Bytes) {
    && index < |ss| && ss[index].kind == SHT_STRTAB && ss[index].offset + ss[index].size <= |b|
    && shstr == b[ss[index].offset..ss[index].offset + ss[index].size] && shstr != []
    && (forall i :: 0 <= i < |ss| ==> NameIn(shstr, ss[i].nameAt, ss[i].name))
    && (forall i :: 0 <= i < |ss| && FileBacked(ss[i]) ==> ss[i].offset + ss[i].size <= |b|)
  }

  lemma NamedTable(b: Bytes, ss: seq<Section>, index: nat, named: seq<Section>, shstr: Bytes)
    requires NamedAs(ss, named, shstr) && NameTableOk(ss, index, |b|) && shstr != []
    requires shstr == b[ss[index].offset..ss[index].offset + ss[index].size]
    ensures NamesRead(b, named, index, shstr)
  {
  }

  lemma NameSectionsIs(b: Bytes, ss: seq<Section>, index: nat, names: nat, named: seq<Section>, shstr: Bytes)
    requires forall i :: 0 <= i < |ss| ==> ss[i].raw + SECTION_LEN <= |b|
    requires NameSections(b, ss, index, names) == Good((named, shstr))
    ensures NamedAs(ss, named, shstr) && NamesRead(b, named, index, shstr)
  {
    WithNamesIs(ss, shstr, names, named);
    NamedTable(b, ss, index, named, shstr);
  }

  lemma ListIs(b: Bytes, shoff: nat, n: nat, index: nat, names: nat, named: seq<Section>, shstr: Bytes)
    requires shoff + SECTION_LEN * n <= |b|
    requires NameSections(b, SectionList(b, shoff, n), index, names) == Good((named, shstr))
    ensures |named| == n && AllRead(Reader(b), named, shoff, n) && NamesRead(b, named, index, shstr)
  {
    var ss := SectionList(b, shoff, n);
    NameSectionsIs(b, ss, index, names, named, shstr);
    ListRead(b, shoff, n);
    ReadNamed(Reader(b), ss, named, shstr, shoff, n);
  }

  lemma ParseRead(b: Bytes, limits: Limits, e: Elf)
    requires ParseElf(b, limits) == Good(e)
    ensures HEADER_LEN <= |b| <= MAX_ELF_LEN && NamesRead(b, e.sections, e.shstrIndex, e.shstr)
    ensures |e.sections| == Le(b, 60, 2) && e.shstrIndex == Le(b, 62, 2)
    ensures e.sectionTable.lo == Le(b, 40, 8) && e.sectionTable.hi == e.sectionTable.lo + SECTION_LEN * |e.sections|
    ensures AllRead(Reader(b), e.sections, e.sectionTable.lo, |e.sections|)
  {
    var s := ParseSectionTable(b, limits).value;
    SectionsFromShape(b, limits, Le(b, 40, 8), Le(b, 58, 2), Le(b, 60, 2), Le(b, 62, 2), s);
    ListIs(b, Le(b, 40, 8), Le(b, 60, 2), s.index, limits.names, s.sections, s.shstr);
  }

  lemma ParsedPrograms(b: Bytes, limits: Limits, e: Elf)
    requires ParseElf(b, limits) == Good(e)
    ensures HeaderOk(b) && ParseProgramTable(b, limits) == Good((e.programs, e.programTable))
    ensures NotesOk(e.programs.notes, |b|)
  {
    if Le(b, 56, 2) != 0 { ProgramsOk(b, Le(b, 32, 8), Le(b, 56, 2)); }
  }

  // ---------------------------------------------------------------- the extended file, parsed

  /** The first n headers of a table, copied in order into another table. */
  predicate SectionsCopied(read: nat -> Section, read': nat -> Section, table: nat, table': nat, n: nat) {
    n == 0 || (SectionsCopied(read, read', table, table', n - 1)
               && (var at := table' + SECTION_LEN * (n - 1);
                   read'(at) == read(table + SECTION_LEN * (n - 1)).(raw := at)))
  }

  lemma {:induction false} CopiesRead(b: Bytes, out: Bytes, ss: seq<Section>, table: nat, table': nat, n: nat)
    requires n <= |ss| && HeadersCopied(b, ss, out, table', n) && AllRead(Reader(b), ss, table, n)
    ensures SectionsCopied(Reader(b), Reader(out), table, table', n)
  {
    if n > 0 {
      CopiesRead(b, out, ss, table, table', n - 1);
      SectionMoved(b, out, ss[n - 1].raw, table' + SECTION_LEN * (n - 1));
    }
  }

  lemma {:induction false} KeptSection(
    read: nat -> Section, ss: seq<Section>, read': nat -> Section, ss': seq<Section>, table: nat, table': nat,
    n: nat, i: nat)
    requires i < n <= |ss| <= |ss'| && SectionsCopied(read, read', table, table', n)
    requires AllRead(read, ss, table, |ss|) && AllRead(read', ss', table', |ss'|)
    ensures ss'[i] == ss[i].(raw := ss'[i].raw, name := ss'[i].name)
  {
    if i < n - 1 {
      KeptSection(read, ss, read', ss', table, table', n - 1, i);
    } else {
      ReadAt(read, ss, table, |ss|, i);
      ReadAt(read', ss', table', |ss'|, i);
    }
  }

  /** The sections of an extension, before their names are compared. */
  predicate Listed(ss: seq<Section>, ss': seq<Section>, index: nat, l: Layout, kind: nat, size: nat)
    requires index < |ss|
  {
    var n := |ss|;
    && |ss'| == n + 2
    && (forall i :: 0 <= i < n ==> ss'[i] == ss[i].(raw := ss'[i].raw, name := ss'[i].name))
    && ss'[n] == Section(l.name, ss'[n].name, kind, l.dataAt, size, 4, 0, ss'[n].raw)
    && ss'[n + 1].nameAt == ss[index].nameAt && ss'[n + 1].kind == SHT_STRTAB
    && ss'[n + 1].offset == l.shstrAt && ss'[n + 1].size == |l.shstr|
  }

  lemma SectionsListed(read: nat -> Section, ss: seq<Section>, table: nat, index: nat,
                       read': nat -> Section, ss': seq<Section>, l: Layout, kind: nat, size: nat)
    requires index < |ss| && AllRead(read, ss, table, |ss|) && |ss'| == |ss| + 2
    requires AllRead(read', ss', l.table, |ss'|) && SectionsCopied(read, read', table, l.table, |ss|)
    requires NewHeaders(l, |ss|, ss[index].nameAt, kind, size, read')
    ensures Listed(ss, ss', index, l, kind, size)
  {
    forall i | 0 <= i < |ss| ensures ss'[i] == ss[i].(raw := ss'[i].raw, name := ss'[i].name) {
      KeptSection(read, ss, read', ss', table, l.table, |ss|, i);
    }
    ReadAt(read', ss', l.table, |ss'|, |ss|);
    ReadAt(read', ss', l.table, |ss'|, |ss| + 1);
  }

  /** Equal in everything but where the header is. */
  predicate SameSection(s: Section, s': Section) {
    s' == s.(raw := s'.raw)
  }

  /** The input's sections with their names, then the new section, then the name table. */
  predicate Extension(ss: seq<Section>, ss': seq<Section>, index: nat, l: Layout, name: Bytes, kind: nat, size: nat)
    requires index < |ss|
  {
    var n := |ss|;
    && |ss'| == n + 2
    && (forall i :: 0 <= i < n ==> SameSection(ss[i], ss'[i]))
    && ss'[n] == Section(l.name, name, kind, l.dataAt, size, 4, 0, ss'[n].raw)
    && ss'[n + 1].name == ss[index].name && ss'[n + 1].kind == SHT_STRTAB
    && ss'[n + 1].offset == l.shstrAt && ss'[n + 1].size == |l.shstr|
  }

  lemma NewName(front: Bytes, name: Bytes, t: Bytes)
    requires t == front + name + [0] && 0 !in name
    ensures NameIn(t, |front|, name)
  {
  }

  lemma ListedNames(ss: seq<Section>, ss': seq<Section>, index: nat, l: Layout, front: Bytes, name: Bytes,
                    kind: nat, size: nat, shstr: Bytes)
    requires index < |ss| && Listed(ss, ss', index, l, kind, size) && 0 !in name
    requires l.shstr == front + name + [0] && l.name == |front| && shstr <= front
    requires forall i :: 0 <= i < |ss| ==> NameIn(shstr, ss[i].nameAt, ss[i].name)
    requires forall i :: 0 <= i < |ss'| ==> NameIn(l.shstr, ss'[i].nameAt, ss'[i].name)
    ensures Extension(ss, ss', index, l, name, kind, size)
  {
    assert l.shstr[..|shstr|] == shstr;
    forall i | 0 <= i < |ss| ensures SameSection(ss[i], ss'[i]) {
      NameGrows(shstr, l.shstr, ss[i].nameAt, ss[i].name);
      NameUnique(l.shstr, ss[i].nameAt, ss[i].name, ss'[i].name);
    }
    NewName(front, name, l.shstr);
    NameUnique(l.shstr, l.name, name, ss'[|ss|].name);
    NameGrows(shstr, l.shstr, ss[index].nameAt, ss[index].name);
    NameUnique(l.shstr, ss[index].nameAt, ss[index].name, ss'[|ss| + 1].name);
  }

  lemma TablesListed(b: Bytes, ss: seq<Section>, table: nat, index: nat, out: Bytes, ss': seq<Section>, l: Layout,
                     kind: nat, size: nat)
    requires index < |ss| && AllRead(Reader(b), ss, table, |ss|) && HeadersCopied(b, ss, out, l.table, |ss|)
    requires |ss'| == |ss| + 2 && AllRead(Reader(out), ss', l.table, |ss'|)
    requires NewHeaders(l, |ss|, ss[index].nameAt, kind, size, Reader(out))
    ensures Listed(ss, ss', index, l, kind, size)
  {
    CopiesRead(b, out, ss, table, l.table, |ss|);
    SectionsListed(Reader(b), ss, table, index, Reader(out), ss', l, kind, size);
  }

  lemma NameTableIs(out: Bytes, ss': seq<Section>, index: nat, shstr': Bytes, at: nat, shstr: Bytes)
    requires NamesRead(out, ss', index, shstr') && Holds(out, at, shstr)
    requires ss'[index].offset == at && ss'[index].size == |shstr|
    ensures shstr' == shstr
  {
  }

  /** The parsed extension of a parsed file. */
  predicate Extends(e: Elf, e': Elf, l: Layout, name: Bytes, kind: nat, size: nat)
    requires e.shstrIndex < |e.sections|
  {
    && e'.shstrIndex == |e.sections| + 1 && e'.shstr == l.shstr
    && e'.sectionTable == Range(l.table, |e'.bytes|)
    && Extension(e.sections, e'.sections, e.shstrIndex, l, name, kind, size)
  }

  lemma OldNameFits(b: Bytes, ss: seq<Section>, table: nat, i: nat)
    requires i < |ss| && AllRead(Reader(b), ss, table, |ss|)
    ensures ss[i].nameAt < 0x1_0000_0000
  {
    var raw := table + SECTION_LEN * i;
    ReadAt(Reader(b), ss, table, |ss|, i);
    Pow256Values();
    if raw + SECTION_LEN <= |b| { LeBound(b, raw, 4); }
  }

  /** A parsed file extended by a section. */
  lemma ParsedAppended(b: Bytes, e: Elf, name: Bytes, kind: nat, data: Bytes, out: Bytes)
    requires ParseElf(b, DEFAULT_LIMITS) == Good(e) && AppendSection(e, name, kind, data) == Good(out)
    requires kind < 0x1_0000_0000
    ensures Appended(e, name, kind, data, out)
  {
    ParseRead(b, DEFAULT_LIMITS, e);
    OldNameFits(b, e.sections, e.sectionTable.lo, e.shstrIndex);
    AppendHolds(e, name, kind, data, out);
  }

  lemma AppendedListed(e: Elf, name: Bytes, kind: nat, data: Bytes, out: Bytes, ss': seq<Section>, l: Layout)
    requires Framed(e.sections, e.shstrIndex, |e.bytes|) && Appended(e, name, kind, data, out)
    requires l == LayoutOf(e, name, data) && AllRead(Reader(e.bytes), e.sections, e.sectionTable.lo, |e.sections|)
    requires |ss'| == |e.sections| + 2 && AllRead(Reader(out), ss', l.table, |ss'|)
    ensures Listed(e.sections, ss', e.shstrIndex, l, kind, |data|)
  {
    TablesListed(e.bytes, e.sections, e.sectionTable.lo, e.shstrIndex, out, ss', l, kind, |data|);
  }

  lemma LayoutNames(e: Elf, name: Bytes, data: Bytes, l: Layout)
    requires l == LayoutOf(e, name, data)
    ensures l.shstr == Terminated(e.shstr) + name + [0] && l.name == |Terminated(e.shstr)|
    ensures e.shstr <= Terminated(e.shstr) && l.count == |e.sections| + 2
  {
  }

  /** The header fields of an extended file, and the new name table. */
  lemma AppendedFields(e: Elf, name: Bytes, kind: nat, data: Bytes, out: Bytes, l: Layout)
    requires Framed(e.sections, e.shstrIndex, |e.bytes|) && Appended(e, name, kind, data, out)
    requires l == LayoutOf(e, name, data)
    ensures Holds(out, l.shstrAt, l.shstr) && HEADER_LEN <= |out| == l.table + SECTION_LEN * (|e.sections| + 2)
    ensures Le(out, 40, 8) == l.table && Le(out, 60, 2) == |e.sections| + 2 && Le(out, 62, 2) == |e.sections| + 1
  {
  }

  lemma ReadExtends(e: Elf, e': Elf, l: Layout, front: Bytes, name: Bytes, kind: nat, size: nat)
    requires e.shstrIndex < |e.sections| && Listed(e.sections, e'.sections, e.shstrIndex, l, kind, size)
    requires NamesRead(e'.bytes, e'.sections, |e.sections| + 1, e'.shstr) && Holds(e'.bytes, l.shstrAt, l.shstr)
    requires forall i :: 0 <= i < |e.sections| ==> NameIn(e.shstr, e.sections[i].nameAt, e.sections[i].name)
    requires l.shstr == front + name + [0] && l.name == |front| && e.shstr <= front && 0 !in name
    ensures e'.shstr == l.shstr && Extension(e.sections, e'.sections, e.shstrIndex, l, name, kind, size)
  {
    NameTableIs(e'.bytes, e'.sections, |e.sections| + 1, e'.shstr, l.shstrAt, l.shstr);
    ListedNames(e.sections, e'.sections, e.shstrIndex, l, front, name, kind, size, e.shstr);
  }

  lemma ReparsedListed(b: Bytes, e: Elf, name: Bytes, kind: nat, data: Bytes, out: Bytes, e': Elf, l: Layout)
    requires ParseElf(b, DEFAULT_LIMITS) == Good(e) && Appended(e, name, kind, data, out)
    requires ParseElf(out, DEFAULT_LIMITS) == Good(e') && l == LayoutOf(e, name, data)
    ensures Listed(e.sections, e'.sections, e.shstrIndex, l, kind, |data|)
    ensures e'.sectionTable == Range(l.table, |out|) && e'.shstrIndex == |e.sections| + 1
  {
    ParseRead(b, DEFAULT_LIMITS, e);
    ParseRead(out, DEFAULT_LIMITS, e');
    AppendedFields(e, name, kind, data, out, l);
    AppendedListed(e, name, kind, data, out, e'.sections, l);
  }

  lemma ParsedNames(b: Bytes, limits: Limits, e: Elf)
    requires ParseElf(b, limits) == Good(e)
    ensures NamesRead(b, e.sections, e.shstrIndex, e.shstr)
  {
    ParseRead(b, limits, e);
  }

  /** Appending keeps every input section and name, and adds exactly the two new sections. */
  lemma AppendReparses(b: Bytes, e: Elf, name: Bytes, kind: nat, data: Bytes, out: Bytes, e': Elf, l: Layout)
    requires ParseElf(b, DEFAULT_LIMITS) == Good(e) && Appended(e, name, kind, data, out)
    requires ParseElf(out, DEFAULT_LIMITS) == Good(e') && 0 !in name && l == LayoutOf(e, name, data)
    ensures Extends(e, e', l, name, kind, |data|)
  {
    ReparsedListed(b, e, name, kind, data, out, e', l);
    ParsedNames(b, DEFAULT_LIMITS, e);
    ParsedNames(out, DEFAULT_LIMITS, e');
    LayoutNames(e, name, data, l);
    ReadExtends(e, e', l, Terminated(e.shstr), name, kind, |data|);
  }
}
