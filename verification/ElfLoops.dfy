/** The parser, the note scanner and the section writer as the loops they are, tied to `ElfSpec`. */
module ElfLoops {
  import opened Machine
  import opened ElfSpec
  import opened ElfAgree

  // ---------------------------------------------------------------- program headers

  lemma {:induction false} ProgramsBad(b: Bytes, phoff: nat, i: nat, n: nat)
    requires i <= n && phoff + PROGRAM_LEN * n <= |b| && ParsePrograms(b, phoff, i).Bad?
    ensures ParsePrograms(b, phoff, n).Bad?
  {
    if i < n { ProgramsBad(b, phoff, i, n - 1); }
  }

  method ParseProgramHeaders(b: Bytes, phoff: nat, n: nat) returns (r: Parse<Programs>)
    requires phoff + PROGRAM_LEN * n <= |b|
    ensures r == ParsePrograms(b, phoff, n)
  {
    var p := Programs([], []);
    for i := 0 to n
      invariant ParsePrograms(b, phoff, i) == Good(p)
    {
      var raw := phoff + PROGRAM_LEN * i;
      if !ProgramOk(b, raw) {
        ProgramsBad(b, phoff, i + 1, n);
        return Bad;
      }
      p := WithProgram(p, i, Le(b, raw, 4), Le(b, raw + 8, 8), Le(b, raw + 32, 8));
    }
    r := Good(p);
  }

  // ---------------------------------------------------------------- sections and their names

  /** The first n sections of a table that have bytes lie inside the file. */
  predicate Fit(b: Bytes, shoff: nat, n: nat)
    requires shoff + SECTION_LEN * n <= |b|
  {
    n == 0 || (Fit(b, shoff, n - 1) && FitsIn(SectionAt(b, shoff + SECTION_LEN * (n - 1)), |b|))
  }

  predicate FitsIn(s: Section, limit: nat) {
    FileBacked(s) ==> s.offset + s.size <= limit
  }

  predicate AllFit(ss: seq<Section>, limit: nat) {
    forall i :: 0 <= i < |ss| ==> FitsIn(ss[i], limit)
  }

  lemma {:induction false} FitAll(b: Bytes, shoff: nat, n: nat)
    requires shoff + SECTION_LEN * n <= |b|
    ensures Fit(b, shoff, n) <==> AllFit(SectionList(b, shoff, n), |b|)
  {
    if n > 0 {
      FitAll(b, shoff, n - 1);
      SnocAll(SectionList(b, shoff, n - 1), SectionAt(b, shoff + SECTION_LEN * (n - 1)), |b|);
    }
  }

  lemma SnocAll(ss: seq<Section>, s: Section, limit: nat)
    ensures AllFit(ss + [s], limit) <==> AllFit(ss, limit) && FitsIn(s, limit)
  {
    var all := ss + [s];
    if AllFit(all, limit) {
      assert FitsIn(all[|ss|], limit);
      forall i | 0 <= i < |ss| ensures FitsIn(ss[i], limit) {
        assert FitsIn(all[i], limit);
      }
    }
  }

  lemma {:induction false} Unfit(b: Bytes, shoff: nat, i: nat, n: nat)
    requires i <= n && shoff + SECTION_LEN * n <= |b| && !Fit(b, shoff, i)
    ensures !Fit(b, shoff, n)
  {
    if i < n { Unfit(b, shoff, i, n - 1); }
  }

  method ReadSections(b: Bytes, shoff: nat, n: nat) returns (r: Parse<seq<Section>>)
    requires shoff + SECTION_LEN * n <= |b|
    ensures r == if Fit(b, shoff, n) then Good(SectionList(b, shoff, n)) else Bad
  {
    var ss := [];
    for i := 0 to n
      invariant ss == SectionList(b, shoff, i) && Fit(b, shoff, i)
    {
      var s := SectionAt(b, shoff + SECTION_LEN * i);
      if FileBacked(s) && s.offset + s.size > |b| {
        Unfit(b, shoff, i + 1, n);
        return Bad;
      }
      ss := ss + [s];
    }
    r := Good(ss);
  }

  /** What is left to name, after the sections already named. */
  function Resume(done: seq<Section>, rest: Parse<seq<Section>>): Parse<seq<Section>> {
    if rest.Bad? then Bad else Good(done + rest.value)
  }

  lemma ResumeNone(rest: Parse<seq<Section>>)
    ensures Resume([], rest) == rest
  {
    if rest.Good? { assert [] + rest.value == rest.value; }
  }

  lemma NameStep(done: seq<Section>, ss: seq<Section>, shstr: Bytes, remaining: nat, name: Bytes)
    requires ss != [] && NameAt(shstr, ss[0].nameAt, remaining) == Some(name) && |name| < remaining
    ensures Resume(done, WithNames(ss, shstr, remaining))
         == Resume(done + [ss[0].(name := name)], WithNames(ss[1..], shstr, remaining - (|name| + 1)))
  {
    var rest := WithNames(ss[1..], shstr, remaining - (|name| + 1));
    if rest.Good? {
      assert done + ([ss[0].(name := name)] + rest.value) == done + [ss[0].(name := name)] + rest.value;
    }
  }

  method FirstZeroIn(s: Bytes) returns (r: Option<nat>)
    ensures r == FirstZero(s)
    ensures r.Some? ==> r.value < |s|
  {
    var i := 0;
    while i < |s| && s[i] != 0
      invariant i <= |s|
      invariant FirstZero(s) == if FirstZero(s[i..]).None? then None else Some(FirstZero(s[i..]).value + i)
    {
      assert s[i..][1..] == s[i + 1..];
      i := i + 1;
    }
    r := if i < |s| then Some(i) else None;
  }

  method NameAll(ss: seq<Section>, shstr: Bytes, names: nat) returns (r: Parse<seq<Section>>)
    ensures r == WithNames(ss, shstr, names)
  {
    var done: seq<Section>, remaining: nat := [], names;
    ResumeNone(WithNames(ss, shstr, names));
    assert ss[0..] == ss;
    for i := 0 to |ss|
      invariant WithNames(ss, shstr, names) == Resume(done, WithNames(ss[i..], shstr, remaining))
    {
      assert ss[i..][1..] == ss[i + 1..];
      if ss[i].nameAt > |shstr| { return Bad; }
      var scan := shstr[ss[i].nameAt..][..Min(|shstr| - ss[i].nameAt, remaining)];
      var n := FirstZeroIn(scan);
      if n.None? { return Bad; }
      NameStep(done, ss[i..], shstr, remaining, scan[..n.value]);
      done := done + [ss[i].(name := scan[..n.value])];
      remaining := remaining - (n.value + 1);
    }
    assert done + [] == done;
    r := Good(done);
  }

  // ---------------------------------------------------------------- notes

  function ResumeNotes(done: seq<nat>, rest: Parse<seq<nat>>): Parse<seq<nat>> {
    if rest.Bad? then Bad else Good(done + rest.value)
  }

  lemma ResumeNotesNone(rest: Parse<seq<nat>>)
    ensures ResumeNotes([], rest) == rest
  {
    if rest.Good? { assert [] + rest.value == rest.value; }
  }

  lemma NotesStep(done: seq<nat>, b: Bytes, cursor: nat, end: nat, n: Note)
    requires cursor < end <= |b| && NoteAt(b, cursor, end) == Good(n)
    ensures ResumeNotes(done, Notes(b, cursor, end))
         == ResumeNotes(if n.ours then done + [n.descriptor] else done, Notes(b, n.next, end))
  {
    var rest := Notes(b, n.next, end);
    if rest.Good? {
      assert done + ([n.descriptor] + rest.value) == done + [n.descriptor] + rest.value;
      assert [] + rest.value == rest.value;
    }
  }

  /** The occurrences found so far and those of one more area; three are refused. */
  function Capped(found: seq<Occurrence>, here: Parse<seq<nat>>, area: Area): Parse<seq<Occurrence>> {
    if here.Bad? || |found| + |here.value| > 2 then Bad else Good(found + Occurrences(here.value, area))
  }

  lemma OccurrencesSnoc(ds: seq<nat>, d: nat, area: Area)
    ensures Occurrences(ds + [d], area) == Occurrences(ds, area) + [Occurrence(d, area)]
  {
  }

  method ParseNoteArea(b: Bytes, area: Area, found: seq<Occurrence>) returns (r: Parse<seq<Occurrence>>)
    requires |found| <= 2
    ensures area.offset + area.size > |b| ==> r == Bad
    ensures area.offset + area.size <= |b| ==> r == Capped(found, Notes(b, area.offset, area.offset + area.size), area)
  {
    var end := area.offset + area.size;
    if end > |b| { return Bad; }
    var cursor, out := area.offset, found;
    ghost var ds: seq<nat> := [];
    ResumeNotesNone(Notes(b, area.offset, end));
    while cursor < end
      invariant cursor <= end
      invariant |out| <= 2 && out == found + Occurrences(ds, area) && |out| == |found| + |ds|
      invariant Notes(b, area.offset, end) == ResumeNotes(ds, Notes(b, cursor, end))
      decreases end - cursor
    {
      var note := NoteAt(b, cursor, end);
      if note.Bad? { return Bad; }
      NotesStep(ds, b, cursor, end, note.value);
      if note.value.ours {
        if |out| == 2 { return Bad; }
        out := out + [Occurrence(note.value.descriptor, area)];
        OccurrencesSnoc(ds, note.value.descriptor, area);
        ds := ds + [note.value.descriptor];
      }
      cursor := note.value.next;
    }
    assert ds + [] == ds;
    r := Good(out);
  }

  // ---------------------------------------------------------------- writing a section

  method CopyHeaders(b: Bytes, ss: seq<Section>, prefix: Bytes) returns (out: Bytes)
    requires forall i :: 0 <= i < |ss| ==> ss[i].raw + SECTION_LEN <= |b|
    ensures out == prefix + CopiedHeaders(b, ss, |ss|)
  {
    out := prefix;
    for i := 0 to |ss|
      invariant out == prefix + CopiedHeaders(b, ss, i)
    {
      out := out + b[ss[i].raw..ss[i].raw + SECTION_LEN];
    }
  }

  /** One section appended: data, new name table, copied headers, two new ones, patched header. */
  method AppendSectionTo(e: Elf, name: Bytes, kind: nat, data: Bytes) returns (r: Parse<Bytes>)
    requires Framed(e.sections, e.shstrIndex, |e.bytes|)
    ensures r == AppendSection(e, name, kind, data)
  {
    var l := LayoutOf(e, name, data);
    if l.count > 0xFFFF || l.name >= 0x1_0000_0000
       || |e.bytes| + |data| + |l.shstr| + SECTION_LEN * l.count + 16 > MAX_ELF_LEN { return Bad; }
    var out := Padded(Padded(e.bytes, 4) + data + l.shstr, 8);
    out := CopyHeaders(e.bytes, e.sections, out);
    out := out + HeaderBytes(l.name, kind, l.dataAt, |data|, 4);
    out := out + HeaderBytes(e.sections[e.shstrIndex].nameAt, SHT_STRTAB, l.shstrAt, |l.shstr|, 1);
    r := Good(Patched(out, l.table, l.count));
  }

  /** The digest written over the digest field, in place. */
  method FillDigest(a: array<byte>, offset: nat, digest: Bytes)
    requires offset + DESCRIPTOR_LEN <= a.Length && |digest| == 32
    modifies a
    ensures a[..] == FilledDigest(old(a[..]), offset, digest)
  {
    var at := offset + DIGEST_OFFSET;
    for i := 0 to 32
      invariant a[..] == old(a[..at]) + digest[..i] + old(a[at + i..])
    {
      a[at + i] := digest[i];
    }
  }

  // ---------------------------------------------------------------- finding the record

  function ResumeScan(done: seq<Occurrence>, rest: Parse<seq<Occurrence>>): Parse<seq<Occurrence>> {
    if rest.Bad? then Bad else Good(done + rest.value)
  }

  /** At most two occurrences are kept. */
  function AtMostTwo(scan: Parse<seq<Occurrence>>): Parse<seq<Occurrence>> {
    if scan.Good? && |scan.value| > 2 then Bad else scan
  }

  lemma ScanStep(b: Bytes, areas: seq<Area>, found: seq<Occurrence>, r: Parse<seq<Occurrence>>)
    requires areas != [] && areas[0].offset + areas[0].size <= |b|
    requires r == Capped(found, Notes(b, areas[0].offset, areas[0].offset + areas[0].size), areas[0])
    ensures AtMostTwo(ResumeScan(found, ScanAreas(b, areas)))
         == if r.Bad? then Bad else AtMostTwo(ResumeScan(r.value, ScanAreas(b, areas[1..])))
    ensures r.Good? ==> |r.value| <= 2
  {
    CappedStep(found, Notes(b, areas[0].offset, areas[0].offset + areas[0].size), areas[0],
               ScanAreas(b, areas[1..]));
  }

  lemma CappedStep(found: seq<Occurrence>, here: Parse<seq<nat>>, a: Area, rest: Parse<seq<Occurrence>>)
    ensures AtMostTwo(ResumeScan(found, AddOccurrences(here, a, rest)))
         == if Capped(found, here, a).Bad? then Bad else AtMostTwo(ResumeScan(Capped(found, here, a).value, rest))
  {
    if here.Good? && rest.Good? {
      var os := Occurrences(here.value, a);
      assert found + (os + rest.value) == found + os + rest.value;
    }
  }

  /** One more area scanned. */
  method ScanOne(b: Bytes, areas: seq<Area>, found: seq<Occurrence>) returns (r: Parse<seq<Occurrence>>)
    requires areas != [] && |found| <= 2
    ensures r.Good? ==> |r.value| <= 2
    ensures AtMostTwo(ResumeScan(found, ScanAreas(b, areas)))
         == if r.Bad? then Bad else AtMostTwo(ResumeScan(r.value, ScanAreas(b, areas[1..])))
  {
    r := ParseNoteArea(b, areas[0], found);
    if areas[0].offset + areas[0].size <= |b| { ScanStep(b, areas, found, r); }
  }

  /** Every area scanned, within the byte budget and the limit of two. */
  method ScanAll(b: Bytes, areas: seq<Area>, limit: nat) returns (r: Parse<seq<Occurrence>>)
    ensures TotalSize(areas) > limit ==> r == Bad
    ensures TotalSize(areas) <= limit ==> r == AtMostTwo(ScanAreas(b, areas))
  {
    var found: seq<Occurrence>, remaining: nat := [], limit;
    ghost var all := AtMostTwo(ScanAreas(b, areas));
    assert areas[0..] == areas;
    NothingFound(ScanAreas(b, areas));
    for i := 0 to |areas|
      invariant |found| <= 2 && limit - TotalSize(areas) == remaining - TotalSize(areas[i..])
      invariant all == AtMostTwo(ResumeScan(found, ScanAreas(b, areas[i..])))
    {
      assert areas[i..][1..] == areas[i + 1..];
      if areas[i].size > remaining { return Bad; }
      remaining := remaining - areas[i].size;
      var here := ScanOne(b, areas[i..], found);
      if here.Bad? { return Bad; }
      found := here.value;
    }
    assert found + [] == found;
    r := Good(found);
  }

  lemma NothingFound(rest: Parse<seq<Occurrence>>)
    ensures ResumeScan([], rest) == rest
  {
    if rest.Good? { assert [] + rest.value == rest.value; }
  }

  // ---------------------------------------------------------------- the record and the whole parse

  lemma {:induction false} NamedGrows(ss: seq<Section>, name: Bytes, i: nat, n: nat)
    requires i <= n <= |ss|
    ensures |Named(ss, name, i)| <= |Named(ss, name, n)|
  {
    if i < n { NamedGrows(ss, name, i, n - 1); }
  }

  /** The one note section with a name: Bad when there are two or it is not a note section. */
  method FindSection(ss: seq<Section>, name: Bytes) returns (r: Parse<Option<nat>>)
    ensures var named := Named(ss, name, |ss|);
      r == if |named| > 1 || (exists i :: i in named && i < |ss| && ss[i].kind != SHT_NOTE) then Bad
           else if named == [] then Good(None) else Good(Some(named[0]))
  {
    var found: Option<nat> := None;
    NamedShape(ss, name, |ss|);
    for i := 0 to |ss|
      invariant Named(ss, name, i) == if found.None? then [] else [found.value]
      invariant found.Some? ==> found.value < |ss| && ss[found.value].kind == SHT_NOTE
    {
      if ss[i].name == name {
        if ss[i].kind != SHT_NOTE {
          assert i in Named(ss, name, |ss|);
          return Bad;
        }
        if found.Some? {
          NamedGrows(ss, name, i + 1, |ss|);
          return Bad;
        }
        found := Some(i);
      }
    }
    r := Good(found);
  }

  method LocateRecordIn(e: Elf, sig: Bytes) returns (r: Parse<Option<Record>>)
    ensures r == LocateRecordAs(e, sig)
  {
    var index := FindSection(e.sections, sig);
    if index.Bad? { return Bad; }
    var scan := ScanAll(e.bytes, AllAreas(e), e.noteLimit);
    if scan.Bad? { return Bad; }
    if scan.value == [] { return if index.value.None? then Good(None) else Bad; }
    var chosen := Chosen(scan.value);
    if chosen.Bad? || index.value.None? || index.value.value >= |e.sections| { return Bad; }
    var s, o := e.sections[index.value.value], chosen.value;
    if o.descriptor < s.offset || o.descriptor + DESCRIPTOR_LEN > s.offset + s.size || !LocationOk(e, o) { return Bad; }
    var record := ParseRecord(e.bytes, o.descriptor);
    r := if record.Bad? then Bad else Good(Some(record.value));
  }

  method ParseSections(b: Bytes, limits: Limits) returns (r: Parse<SectionInfo>)
    requires |b| >= HEADER_LEN
    ensures r == ParseSectionTable(b, limits)
  {
    r := SectionsOf(b, limits, Le(b, 40, 8), Le(b, 58, 2), Le(b, 60, 2), Le(b, 62, 2));
  }

  method SectionsOf(b: Bytes, limits: Limits, shoff: nat, shentsize: nat, shnum: nat, index: nat)
    returns (r: Parse<SectionInfo>)
    requires |b| >= HEADER_LEN
    ensures r == SectionsFrom(b, limits, shoff, shentsize, shnum, index)
  {
    if shnum > limits.sections || shnum == 0 || shoff == 0 || shentsize != SECTION_LEN
       || shoff + SECTION_LEN * shnum > |b| || index == 0xFFFF || index >= shnum { return Bad; }
    var named := NamedSections(b, shoff, shnum, index, limits.names);
    r := CheckSections(named, index, Range(shoff, shoff + SECTION_LEN * shnum));
  }

  method NamedSections(b: Bytes, shoff: nat, n: nat, index: nat, names: nat)
    returns (r: Parse<(seq<Section>, Bytes)>)
    requires index < n && shoff + SECTION_LEN * n <= |b|
    ensures r == NameSections(b, SectionList(b, shoff, n), index, names)
  {
    var ss := ReadSections(b, shoff, n);
    FitAll(b, shoff, n);
    if ss.Bad? {
      NameTableFits(b, SectionList(b, shoff, n), index);
      return Bad;
    }
    r := NameFrom(b, ss.value, index, names);
  }

  lemma NameTableFits(b: Bytes, ss: seq<Section>, index: nat)
    requires index < |ss|
    ensures NameTableOk(ss, index, |b|) ==> AllFit(ss, |b|)
  {
  }

  method NameFrom(b: Bytes, ss: seq<Section>, index: nat, names: nat) returns (r: Parse<(seq<Section>, Bytes)>)
    requires index < |ss| && AllFit(ss, |b|) && forall i :: 0 <= i < |ss| ==> ss[i].raw + SECTION_LEN <= |b|
    ensures r == NameSections(b, ss, index, names)
  {
    if ss[0].nameAt != 0 || ss[0].kind != 0 || ss[0].offset != 0 || ss[0].size != 0 || ss[index].kind != SHT_STRTAB {
      return Bad;
    }
    assert FitsIn(ss[index], |b|);
    var shstr := b[ss[index].offset..ss[index].offset + ss[index].size];
    if shstr == [] || shstr[0] != 0 { return Bad; }
    var named := NameAll(ss, shstr, names);
    FitsTable(ss, index, |b|);
    r := if named.Bad? then Bad else Good((named.value, shstr));
  }

  lemma FitsTable(ss: seq<Section>, index: nat, limit: nat)
    requires index < |ss| && AllFit(ss, limit) && ss[index].kind == SHT_STRTAB
    requires ss[0].nameAt == 0 && ss[0].kind == 0 && ss[0].offset == 0 && ss[0].size == 0
    ensures NameTableOk(ss, index, limit)
  {
    forall i | 0 <= i < |ss| && FileBacked(ss[i]) ensures ss[i].offset + ss[i].size <= limit {
      assert FitsIn(ss[i], limit);
    }
  }

  method ParseImage(b: Bytes, limits: Limits) returns (r: Parse<Elf>)
    ensures r == ParseElf(b, limits)
  {
    if |b| > MAX_ELF_LEN || |b| > limits.image || !HeaderOk(b) { return Bad; }
    var p := ParseProgramsOf(b, limits);
    if p.Bad? { return Bad; }
    var s := ParseSections(b, limits);
    if s.Bad? { return Bad; }
    r := Good(Elf(b, s.value.sections, s.value.index, s.value.shstr, p.value.0, p.value.1, s.value.table,
                  limits.notes));
  }

  method ParseProgramsOf(b: Bytes, limits: Limits) returns (r: Parse<(Programs, Option<Range>)>)
    requires |b| >= HEADER_LEN
    ensures r == ParseProgramTable(b, limits)
  {
    var phoff, phentsize, phnum := Le(b, 32, 8), Le(b, 54, 2), Le(b, 56, 2);
    if phnum > limits.programs { return Bad; }
    if phnum == 0 { return if phoff != 0 then Bad else Good((Programs([], []), None)); }
    if phoff == 0 || phnum == 0xFFFF || phentsize != PROGRAM_LEN || phoff + PROGRAM_LEN * phnum > |b| { return Bad; }
    var p := ParseProgramHeaders(b, phoff, phnum);
    r := if p.Bad? then Bad else Good((p.value, Some(Range(phoff, phoff + PROGRAM_LEN * phnum))));
  }
}
