/**
 * What patching the file header can do to program headers that overlap it. A note segment of
 * the extended file still lies inside the input, wherever the program header table starts.
 */
module ElfPatch {
  import opened Machine
  import opened ElfSpec
  import opened ElfAgree
  import opened ElfAppend
  import opened ElfReparse

  // ---------------------------------------------------------------- the bytes of small integers

  lemma LeTail(b: Bytes, o: nat, n: nat)
    requires n > 0 && o + n <= |b|
    ensures Le(b, o, n) == b[o] + 256 * Le(b, o + 1, n - 1)
  {
    LeIs(b, o, n);
    LeIs(b, o + 1, n - 1);
    assert b[o..o + n][1..] == b[o + 1..o + n];
  }

  lemma LeWord(b: Bytes, o: nat)
    requires o + 4 <= |b|
    ensures Le(b, o, 4) == b[o] as int + 256 * (b[o + 1] as int) + 65536 * (b[o + 2] as int) + 16777216 * (b[o + 3] as int)
  {
    LeTail(b, o, 4);
    LeTail(b, o + 1, 3);
    LeTail(b, o + 2, 2);
    LeTail(b, o + 3, 1);
    LeIs(b, o + 4, 0);
  }

  lemma LeShort(b: Bytes, o: nat)
    requires o + 2 <= |b|
    ensures Le(b, o, 2) == b[o] as int + 256 * (b[o + 1] as int)
  {
    LeTail(b, o, 2);
    LeTail(b, o + 1, 1);
    LeIs(b, o + 2, 0);
  }

  lemma LeHalves(b: Bytes, o: nat)
    requires o + 8 <= |b|
    ensures Le(b, o, 8) == Le(b, o, 4) + 0x1_0000_0000 * Le(b, o + 4, 4)
  {
    LeTail(b, o, 8);
    LeTail(b, o + 1, 7);
    LeTail(b, o + 2, 6);
    LeTail(b, o + 3, 5);
    LeWord(b, o);
  }

  predicate ZeroAt(b: Bytes, lo: nat, hi: nat) {
    hi <= |b| && forall i :: lo <= i < hi ==> b[i] == 0
  }

  /** A word below 256 is its first byte. */
  lemma SmallWord(b: Bytes, o: nat)
    requires o + 4 <= |b| && Le(b, o, 4) < 256
    ensures b[o] == Le(b, o, 4) && ZeroAt(b, o + 1, o + 4)
  {
    LeWord(b, o);
  }

  /** A long integer below 2^32 has four zero bytes at its end. */
  lemma SmallLong(b: Bytes, o: nat)
    requires o + 8 <= |b| && Le(b, o, 8) < 0x1_0000_0000
    ensures Le(b, o, 8) == Le(b, o, 4) && ZeroAt(b, o + 4, o + 8)
  {
    LeHalves(b, o);
    assert Le(b, o + 4, 4) == 0;
    SmallWord(b, o + 4);
  }

  lemma ZeroLong(b: Bytes, o: nat)
    requires o + 8 <= |b| && ZeroAt(b, o, o + 8)
    ensures Le(b, o, 8) == 0
  {
    LeHalves(b, o);
    LeWord(b, o);
    LeWord(b, o + 4);
  }

  // ---------------------------------------------------------------- where a note segment's header can be

  /** The header bytes of an extended file with its program headers at phoff, below byte 64. */
  predicate KnownBytes(w: Bytes, phoff: nat) {
    && |w| >= HEADER_LEN && w[0] == 0x7f && w[1] == 69 && w[2] == 76 && w[3] == 70 && w[4] == 2 && w[5] == 1
    && w[6] == 1 && ZeroAt(w, 7, 16) && ZeroAt(w, 21, 24) && w[32] == phoff && ZeroAt(w, 33, 40)
    && !ZeroAt(w, 40, 44) && ZeroAt(w, 44, 48) && w[52] == 64 && w[53] == 0 && w[54] == 56 && w[55] == 0
    && !ZeroAt(w, 62, 64)
  }

  /** The bytes of a program header of a note segment that ends before 2^32. */
  predicate NoteHeader(w: Bytes, raw: nat) {
    && raw + PROGRAM_LEN <= |w| && w[raw] == PT_NOTE && ZeroAt(w, raw + 1, raw + 4)
    && ZeroAt(w, raw + 12, raw + 16) && ZeroAt(w, raw + 36, raw + 40)
  }

  /** Where the offset and the size of a program header avoid the patched fields. */
  predicate FieldsClear(raw: nat) {
    16 <= raw <= 20 || 40 <= raw <= 44 || 56 <= raw
  }

  /** A note segment's header either keeps its range, or says that it starts at zero. */
  lemma NoteWhere(w: Bytes, raw: nat, phoff: nat)
    requires KnownBytes(w, phoff) && NoteHeader(w, raw) && 1 <= raw < 56 && raw == phoff
    ensures FieldsClear(raw) || (raw == 27 && ZeroAt(w, 35, 43))
  {
  }

  lemma HeaderKnown(w: Bytes, phoff: nat)
    requires |w| >= HEADER_LEN && HeaderOk(w) && Le(w, 32, 8) == phoff < HEADER_LEN
    ensures w[0] == 0x7f && w[1] == 69 && w[2] == 76 && w[3] == 70 && w[4] == 2 && w[5] == 1 && w[6] == 1
    ensures ZeroAt(w, 7, 16) && ZeroAt(w, 21, 24) && w[32] == phoff && ZeroAt(w, 33, 40) && w[52] == 64 && w[53] == 0
  {
    assert w[..4][0] == 0x7f && w[..4][1] == 69 && w[..4][2] == 76 && w[..4][3] == 70;
    SmallWord(w, 20);
    SmallLong(w, 32);
    SmallWord(w, 32);
    LeShort(w, 52);
  }

  /** The header fields an extended file has. */
  predicate Tabled(w: Bytes) {
    && HEADER_LEN <= |w| <= MAX_ELF_LEN && HeaderOk(w) && 0 < Le(w, 40, 8) <= |w| && 0 < Le(w, 62, 2)
    && Le(w, 54, 2) == PROGRAM_LEN
  }

  lemma FieldsKnown(w: Bytes)
    requires Tabled(w)
    ensures !ZeroAt(w, 40, 44) && ZeroAt(w, 44, 48) && w[54] == 56 && w[55] == 0 && !ZeroAt(w, 62, 64)
  {
    SmallLong(w, 40);
    LeWord(w, 40);
    LeShort(w, 54);
    LeShort(w, 62);
  }

  lemma NoteBytesAt(w: Bytes, raw: nat)
    requires raw + PROGRAM_LEN <= |w| <= MAX_ELF_LEN && ProgramOk(w, raw) && Le(w, raw, 4) == PT_NOTE
    ensures NoteHeader(w, raw)
  {
    SmallWord(w, raw);
    SmallLong(w, raw + 8);
    SmallLong(w, raw + 32);
  }

  /** Patching keeps the range of every note segment, unless it says that it starts at zero. */
  lemma NoteKept(b: Bytes, out: Bytes, raw: nat)
    requires BytesKept(b, out) && Tabled(out) && 0 < raw && raw + PROGRAM_LEN <= |b| <= |out|
    requires ProgramOk(out, raw) && Le(out, raw, 4) == PT_NOTE && (raw < 56 ==> Le(out, 32, 8) == raw)
    ensures Le(out, raw + 8, 8) == 0
         || (Le(out, raw + 8, 8) == Le(b, raw + 8, 8) && Le(out, raw + 32, 8) == Le(b, raw + 32, 8))
  {
    if raw < 56 {
      HeaderKnown(out, raw);
      FieldsKnown(out);
      NoteBytesAt(out, raw);
      NoteWhere(out, raw, raw);
    }
    if FieldsClear(raw) {
      ClearFields(b, out, raw);
    } else {
      ZeroLong(out, 35);
    }
  }

  lemma ClearFields(b: Bytes, out: Bytes, raw: nat)
    requires BytesKept(b, out) && raw + PROGRAM_LEN <= |b| <= |out| && FieldsClear(raw)
    ensures Le(out, raw + 8, 8) == Le(b, raw + 8, 8) && Le(out, raw + 32, 8) == Le(b, raw + 32, 8)
  {
    if raw <= 20 {
      SameLe(b, out, 0, 40, raw + 8, 8);
      SameLe(b, out, 48, 60, raw + 32, 8);
    } else {
      if raw <= 44 {
        SameLe(b, out, 48, 60, raw + 8, 8);
      } else {
        SameLe(b, out, HEADER_LEN, |b|, raw + 8, 8);
      }
      SameLe(b, out, HEADER_LEN, |b|, raw + 32, 8);
    }
  }

  /** The file header is not a note: no note area of a scanned file starts at zero. */
  lemma HeaderIsNoNote(w: Bytes, size: nat)
    requires HEADER_LEN <= |w| <= MAX_ELF_LEN && HeaderOk(w) && 0 < size <= |w|
    ensures Notes(w, 0, size).Bad?
  {
    assert w[..4][0] == 0x7f && w[..4][1] == 69 && w[..4][2] == 76 && w[..4][3] == 70;
    LeWord(w, 0);
    assert NoteAt(w, 0, size).Bad?;
  }

  lemma NoteInside(b: Bytes, out: Bytes, raw: nat, a: Area)
    requires BytesKept(b, out) && Tabled(out) && 0 < raw && raw + PROGRAM_LEN <= |b| <= |out|
    requires ProgramOk(b, raw) && ProgramOk(out, raw) && Le(out, raw, 4) == PT_NOTE
    requires raw < 56 ==> Le(out, 32, 8) == raw
    requires a.offset == Le(out, raw + 8, 8) && a.size == Le(out, raw + 32, 8) && Scanned(out, a)
    ensures a.offset + a.size <= |b|
  {
    NoteKept(b, out, raw);
    if a.offset == 0 && a.size > 0 { HeaderIsNoNote(out, a.size); }
  }

  lemma {:induction false} NotesInside(b: Bytes, out: Bytes, phoff: nat, n: nat)
    requires BytesKept(b, out) && Tabled(out) && Le(out, 32, 8) == phoff && 0 < phoff
    requires phoff + PROGRAM_LEN * n <= |b| <= |out|
    requires ParsePrograms(b, phoff, n).Good? && ParsePrograms(out, phoff, n).Good?
    requires forall a :: a in ParsePrograms(out, phoff, n).value.notes ==> Scanned(out, a)
    ensures NotesOk(ParsePrograms(out, phoff, n).value.notes, |b|)
  {
    if n > 0 {
      var raw := phoff + PROGRAM_LEN * (n - 1);
      var before, all := ParsePrograms(out, phoff, n - 1).value.notes, ParsePrograms(out, phoff, n).value.notes;
      assert forall a :: a in before ==> a in all;
      NotesInside(b, out, phoff, n - 1);
      if Le(out, raw, 4) == PT_NOTE {
        var a := Area(Le(out, raw + 8, 8), Le(out, raw + 32, 8), FromProgram(n - 1));
        assert a in all && all == before + [a];
        NoteInside(b, out, raw, a);
      }
    }
  }

  lemma SameTable(b: Bytes, out: Bytes)
    requires BytesKept(b, out) && HEADER_LEN <= |b| <= |out|
    ensures Le(out, 32, 8) == Le(b, 32, 8) && Le(out, 54, 2) == Le(b, 54, 2) && Le(out, 56, 2) == Le(b, 56, 2)
  {
    SameLe(b, out, 0, 40, 32, 8);
    SameLe(b, out, 48, 60, 54, 2);
    SameLe(b, out, 48, 60, 56, 2);
  }

  lemma ParsedTabled(out: Bytes, e: Elf)
    requires ParseElf(out, DEFAULT_LIMITS) == Good(e) && Le(out, 56, 2) != 0 && 0 < Le(out, 62, 2)
    ensures Tabled(out)
  {
    ParsedPrograms(out, DEFAULT_LIMITS, e);
    ParseRead(out, DEFAULT_LIMITS, e);
    SectionsFromShape(out, DEFAULT_LIMITS, Le(out, 40, 8), Le(out, 58, 2), Le(out, 60, 2), Le(out, 62, 2),
                      ParseSectionTable(out, DEFAULT_LIMITS).value);
  }

  lemma AreasScanned(e: Elf)
    requires ScanAreas(e.bytes, AllAreas(e)).Good?
    ensures forall a :: a in e.programs.notes ==> Scanned(e.bytes, a)
  {
    ScanShape(e.bytes, AllAreas(e));
  }

  /** The program headers of a parsed file: none, or a table inside it. */
  predicate TableRead(w: Bytes, phoff: nat, n: nat, p: Programs, table: Option<Range>) {
    if n == 0 then p == Programs([], []) && table == None
    else
      && 0 < phoff && phoff + PROGRAM_LEN * n <= |w| && ParsePrograms(w, phoff, n) == Good(p)
      && table == Some(Range(phoff, phoff + PROGRAM_LEN * n))
  }

  lemma ParsedTable(w: Bytes, e: Elf)
    requires ParseElf(w, DEFAULT_LIMITS) == Good(e)
    ensures |w| >= HEADER_LEN && TableRead(w, Le(w, 32, 8), Le(w, 56, 2), e.programs, e.programTable)
  {
    ParsedPrograms(w, DEFAULT_LIMITS, e);
    TableFrom(w, e.programs, e.programTable);
  }

  lemma TableFrom(w: Bytes, p: Programs, table: Option<Range>)
    requires |w| >= HEADER_LEN && ParseProgramTable(w, DEFAULT_LIMITS) == Good((p, table))
    ensures TableRead(w, Le(w, 32, 8), Le(w, 56, 2), p, table)
  {
  }

  lemma ParsedTables(b: Bytes, e: Elf, out: Bytes, e1: Elf)
    requires ParseElf(b, DEFAULT_LIMITS) == Good(e) && ParseElf(out, DEFAULT_LIMITS) == Good(e1)
    requires BytesKept(b, out) && |b| <= |out|
    ensures HEADER_LEN <= |b| && e1.programTable == e.programTable
    ensures TableRead(b, Le(b, 32, 8), Le(b, 56, 2), e.programs, e.programTable)
    ensures TableRead(out, Le(b, 32, 8), Le(b, 56, 2), e1.programs, e1.programTable)
  {
    ParsedTable(b, e);
    ParsedTable(out, e1);
    SameTable(b, out);
  }

  /** The note segments of a scanned extension lie inside the input. */
  lemma ParsedNotesInside(b: Bytes, e: Elf, out: Bytes, e1: Elf)
    requires ParseElf(b, DEFAULT_LIMITS) == Good(e) && ParseElf(out, DEFAULT_LIMITS) == Good(e1)
    requires BytesKept(b, out) && |b| <= |out| && 0 < Le(out, 62, 2) && ScanAreas(out, AllAreas(e1)).Good?
    ensures NotesOk(e1.programs.notes, |b|) && e1.programTable == e.programTable
  {
    ParsedTables(b, e, out, e1);
    SameTable(b, out);
    if Le(b, 56, 2) != 0 {
      ParsedTabled(out, e1);
      AreasScanned(e1);
      NotesInside(b, out, Le(b, 32, 8), Le(b, 56, 2));
    }
  }

  // ---------------------------------------------------------------- segments that cross a range

  /** No note segment and no loaded bytes overlap the range. */
  predicate ProgramsMiss(p: Programs, r: Range) {
    && (forall i :: 0 <= i < |p.loads| ==> !Overlaps(r, p.loads[i]))
    && (forall i :: 0 <= i < |p.notes| ==>
          !Overlaps(r, Range(p.notes[i].offset, p.notes[i].offset + p.notes[i].size)))
  }

  /** Whether a segment has notes or loaded bytes over the range. */
  predicate Crosses(kind: nat, offset: nat, size: nat, r: Range) {
    (kind == PT_NOTE || (kind == PT_LOAD && size != 0)) && Overlaps(r, Range(offset, offset + size))
  }

  predicate Crossed(w: Bytes, raw: nat, r: Range)
    requires raw + PROGRAM_LEN <= |w|
  {
    Crosses(Le(w, raw, 4), Le(w, raw + 8, 8), Le(w, raw + 32, 8), r)
  }

  predicate Uncrossed(w: Bytes, phoff: nat, n: nat, r: Range)
    requires phoff + PROGRAM_LEN * n <= |w|
  {
    n == 0 || (Uncrossed(w, phoff, n - 1, r) && !Crossed(w, phoff + PROGRAM_LEN * (n - 1), r))
  }

  lemma LastProgram(w: Bytes, phoff: nat, n: nat)
    requires 0 < n && phoff + PROGRAM_LEN * n <= |w| && ParsePrograms(w, phoff, n).Good?
    ensures var raw := phoff + PROGRAM_LEN * (n - 1); var before := ParsePrograms(w, phoff, n - 1);
      && before.Good?
      && ParsePrograms(w, phoff, n).value
           == WithProgram(before.value, n - 1, Le(w, raw, 4), Le(w, raw + 8, 8), Le(w, raw + 32, 8))
  {
  }

  lemma {:induction false} MissIsUncrossed(w: Bytes, phoff: nat, n: nat, r: Range)
    requires phoff + PROGRAM_LEN * n <= |w| && ParsePrograms(w, phoff, n).Good?
    ensures ProgramsMiss(ParsePrograms(w, phoff, n).value, r) <==> Uncrossed(w, phoff, n, r)
  {
    if n > 0 {
      var raw := phoff + PROGRAM_LEN * (n - 1);
      MissIsUncrossed(w, phoff, n - 1, r);
      LastProgram(w, phoff, n);
      MissStep(ParsePrograms(w, phoff, n - 1).value, ParsePrograms(w, phoff, n).value, w, n - 1, raw, r);
    }
  }

  lemma MissStep(p: Programs, q: Programs, w: Bytes, index: nat, raw: nat, r: Range)
    requires raw + PROGRAM_LEN <= |w|
    requires q == WithProgram(p, index, Le(w, raw, 4), Le(w, raw + 8, 8), Le(w, raw + 32, 8))
    ensures ProgramsMiss(q, r) <==> ProgramsMiss(p, r) && !Crossed(w, raw, r)
  {
    MissOneMore(p, index, Le(w, raw, 4), Le(w, raw + 8, 8), Le(w, raw + 32, 8), r);
  }

  lemma MissOneMore(p: Programs, index: nat, kind: nat, offset: nat, size: nat, r: Range)
    ensures ProgramsMiss(WithProgram(p, index, kind, offset, size), r)
       <==> ProgramsMiss(p, r) && !Crosses(kind, offset, size, r)
  {
    var q := WithProgram(p, index, kind, offset, size);
    if ProgramsMiss(q, r) {
      assert forall i :: 0 <= i < |p.loads| ==> q.loads[i] == p.loads[i];
      assert forall i :: 0 <= i < |p.notes| ==> q.notes[i] == p.notes[i];
      if kind == PT_NOTE { assert q.notes[|p.notes|] == Area(offset, size, FromProgram(index)); }
      if kind == PT_LOAD && size != 0 { assert q.loads[|p.loads|] == Range(offset, offset + size); }
    }
  }

  lemma {:induction false} UncrossedSame(w: Bytes, w': Bytes, phoff: nat, n: nat, r: Range)
    requires Same(w, w', 0, |w|) && phoff + PROGRAM_LEN * n <= |w|
    ensures Uncrossed(w', phoff, n, r) <==> Uncrossed(w, phoff, n, r)
  {
    if n > 0 {
      var raw := phoff + PROGRAM_LEN * (n - 1);
      UncrossedSame(w, w', phoff, n - 1, r);
      SameLe(w, w', 0, |w|, raw, 4);
      SameLe(w, w', 0, |w|, raw + 8, 8);
      SameLe(w, w', 0, |w|, raw + 32, 8);
    }
  }
}
