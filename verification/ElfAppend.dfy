/** What appending a section keeps of the input file, and what the result parses to. */
module ElfAppend {
  import opened Machine
  import opened Pieces
  import opened ElfSpec
  import opened ElfAgree

  // ---------------------------------------------------------------- integers in byte strings

  lemma {:induction false} ZeroBytes(n: nat)
    ensures LeBytes(0, n) == Zeros(n)
  {
    if n > 0 { ZeroBytes(n - 1); }
  }

  // ---------------------------------------------------------------- pieces at their places

  lemma PatchedPieces(b: Bytes, table: nat, count: nat, p: Bytes)
    requires |b| >= HEADER_LEN && 0 < count && p == Patched(b, table, count)
    ensures |p| == |b| && Same(b, p, 0, 40) && Same(b, p, 48, 60) && Same(b, p, HEADER_LEN, |b|)
    ensures p[40..48] == LeBytes(table, 8) && p[60..62] == LeBytes(count, 2) && p[62..64] == LeBytes(count - 1, 2)
  {
  }

  lemma PatchedReads(b: Bytes, table: nat, count: nat, p: Bytes)
    requires |b| >= HEADER_LEN && 0 < count < 0x1_0000 && table < 0x1_0000_0000 && p == Patched(b, table, count)
    ensures |p| == |b| && Same(b, p, 0, 40) && Same(b, p, 48, 60) && Same(b, p, HEADER_LEN, |b|)
    ensures Le(p, 40, 8) == table && Le(p, 60, 2) == count && Le(p, 62, 2) == count - 1
  {
    PatchedPieces(b, table, count, p);
    TableField(b, table, count, p);
    CountFields(b, table, count, p);
  }

  lemma TableField(b: Bytes, table: nat, count: nat, p: Bytes)
    requires |b| >= HEADER_LEN && 0 < count && table < 0x1_0000_0000 && p == Patched(b, table, count)
    ensures Le(p, 40, 8) == table
  {
    PatchedPieces(b, table, count, p);
    LongWritten(p, 40, table);
  }

  lemma CountFields(b: Bytes, table: nat, count: nat, p: Bytes)
    requires |b| >= HEADER_LEN && 0 < count < 0x1_0000 && p == Patched(b, table, count)
    ensures Le(p, 60, 2) == count && Le(p, 62, 2) == count - 1
  {
    PatchedPieces(b, table, count, p);
    ShortAt(p, 60, LeBytes(count, 2), count);
    ShortAt(p, 62, LeBytes(count - 1, 2), count - 1);
  }

  lemma ShortAt(p: Bytes, at: nat, piece: Bytes, v: nat)
    requires at + 2 <= |p| && p[at..at + 2] == piece == LeBytes(v, 2) && v < 0x1_0000
    ensures Le(p, at, 2) == v
  {
    ShortWritten(p, at, v);
  }

  lemma HoldsSame(b: Bytes, c: Bytes, lo: nat, hi: nat, at: nat, piece: Bytes)
    requires Same(b, c, lo, hi) && Holds(b, at, piece) && lo <= at && at + |piece| <= hi
    ensures Holds(c, at, piece)
  {
    SameSlice(b, c, lo, hi, at, at + |piece|);
  }

  lemma {:induction false} CopiedAt(b: Bytes, ss: seq<Section>, n: nat, i: nat)
    requires i < n <= |ss| && forall j :: 0 <= j < |ss| ==> ss[j].raw + SECTION_LEN <= |b|
    ensures |CopiedHeaders(b, ss, n)| == SECTION_LEN * n
    ensures Holds(CopiedHeaders(b, ss, n), SECTION_LEN * i, b[ss[i].raw..ss[i].raw + SECTION_LEN])
  {
    CopiedLength(b, ss, n - 1);
    var before, last := CopiedHeaders(b, ss, n - 1), b[ss[n - 1].raw..ss[n - 1].raw + SECTION_LEN];
    if i == n - 1 {
      HoldsLast(before, last);
    } else {
      CopiedAt(b, ss, n - 1, i);
      HoldsGrows(before, SECTION_LEN * i, b[ss[i].raw..ss[i].raw + SECTION_LEN], last);
    }
  }

  lemma {:induction false} CopiedLength(b: Bytes, ss: seq<Section>, n: nat)
    requires n <= |ss| && forall j :: 0 <= j < |ss| ==> ss[j].raw + SECTION_LEN <= |b|
    ensures |CopiedHeaders(b, ss, n)| == SECTION_LEN * n
  {
    if n > 0 { CopiedLength(b, ss, n - 1); }
  }

  /** The three pieces after a prefix. */
  lemma TailPieces(front: Bytes, x: Bytes, y: Bytes, z: Bytes, body: Bytes)
    requires body == front + x + y + z
    ensures |body| == |front| + |x| + |y| + |z| && Holds(body, 0, front)
    ensures Holds(body, |front|, x) && Holds(body, |front| + |x|, y) && Holds(body, |front| + |x| + |y|, z)
  {
    HoldsLast(front, x);
    HoldsLast(front + x, y);
    HoldsLast(front + x + y, z);
    HoldsGrows(front + x, |front|, x, y);
    HoldsGrows(front + x + y, |front|, x, z);
    HoldsGrows(front + x + y, |front| + |x|, y, z);
    assert body == front + (x + y + z);
  }

  lemma HoldsTrans(c: Bytes, d: Bytes, at: nat, piece: Bytes)
    requires Holds(d, 0, c) && Holds(c, at, piece)
    ensures Holds(d, at, piece)
  {
    SliceSlice(d, 0, |c|, at, at + |piece|);
  }

  /** The pieces of an extended file before its header is patched. */
  lemma BodyPieces(b: Bytes, pad: Bytes, data: Bytes, shstr: Bytes, pad8: Bytes, copied: Bytes, h: Bytes, g: Bytes,
                   front: Bytes, body: Bytes)
    requires front == b + pad + data + shstr + pad8 && body == front + copied + h + g
    ensures |front| == |b| + |pad| + |data| + |shstr| + |pad8| && Holds(body, 0, b)
    ensures |body| == |front| + |copied| + |h| + |g|
    ensures Holds(body, |b| + |pad|, data) && Holds(body, |b| + |pad| + |data|, shstr)
    ensures Holds(body, |front|, copied) && Holds(body, |front| + |copied|, h)
    ensures Holds(body, |front| + |copied| + |h|, g)
  {
    TailPieces(b + pad, data, shstr, pad8, front);
    HoldsGrows(b, 0, b, pad);
    HoldsTrans(b + pad, front, 0, b);
    TailPieces(front, copied, h, g, body);
    HoldsTrans(front, body, 0, b);
    HoldsTrans(front, body, |b| + |pad|, data);
    HoldsTrans(front, body, |b| + |pad| + |data|, shstr);
  }

  // ---------------------------------------------------------------- written headers

  lemma JoinedParts(a: Bytes, b: Bytes, x: Bytes, c: Bytes, d: Bytes, y: Bytes, e: Bytes, z: Bytes, h: Bytes)
    requires h == a + b + x + c + d + y + e + z
    requires |a| == 4 && |b| == 4 && |x| == 16 && |c| == 8 && |d| == 8 && |y| == 8 && |e| == 8 && |z| == 8
    ensures |h| == 64 && h[0..4] == a && h[4..8] == b && h[8..24] == x && h[24..32] == c && h[32..40] == d
    ensures h[40..48] == y && h[48..56] == e && h[56..64] == z
  {
  }

  lemma HeaderParts(name: nat, kind: nat, offset: nat, size: nat, align: nat, h: Bytes)
    requires h == HeaderBytes(name, kind, offset, size, align)
    ensures |h| == SECTION_LEN && h[0..4] == LeBytes(name, 4) && h[4..8] == LeBytes(kind, 4)
    ensures h[24..32] == LeBytes(offset, 8) && h[32..40] == LeBytes(size, 8) && h[48..56] == LeBytes(align, 8)
    ensures h[8..24] == Zeros(16) && h[40..48] == Zeros(8) && h[56..64] == Zeros(8)
  {
    JoinedParts(LeBytes(name, 4), LeBytes(kind, 4), Zeros(16), LeBytes(offset, 8), LeBytes(size, 8), Zeros(8),
                LeBytes(align, 8), Zeros(8), h);
  }

  /** Reading a section header at any place of a file. */
  function Reader(b: Bytes): nat -> Section {
    (raw: nat) => if raw + SECTION_LEN <= |b| then SectionAt(b, raw) else Section(0, [], 0, 0, 0, 0, 0, raw)
  }

  /** A written section header reads back field by field. */
  lemma HeaderRead(c: Bytes, at: nat, name: nat, kind: nat, offset: nat, size: nat, align: nat)
    requires Holds(c, at, HeaderBytes(name, kind, offset, size, align))
    requires name < 0x1_0000_0000 && kind < 0x1_0000_0000 && offset < 0x1_0000_0000 && size < 0x1_0000_0000
    requires align < 0x1_0000
    ensures Reader(c)(at) == Section(name, [], kind, offset, size, align, 0, at)
  {
    var h := HeaderBytes(name, kind, offset, size, align);
    HeaderParts(name, kind, offset, size, align, h);
    Pow256Values();
    FieldRead(c, at, h, 0, name, 4);
    FieldRead(c, at, h, 4, kind, 4);
    FieldRead(c, at, h, 24, offset, 8);
    FieldRead(c, at, h, 32, size, 8);
    FieldRead(c, at, h, 48, align, 8);
    ZeroBytes(8);
    FieldRead(c, at, h, 56, 0, 8);
  }

  // ---------------------------------------------------------------- the extended file

  /** The headers of the new section and of the new name table. */
  predicate NewHeaders(l: Layout, n: nat, oldName: nat, kind: nat, size: nat, read: nat -> Section) {
    var at, next := l.table + SECTION_LEN * n, l.table + SECTION_LEN * (n + 1);
    && read(at) == Section(l.name, [], kind, l.dataAt, size, 4, 0, at)
    && read(next) == Section(oldName, [], SHT_STRTAB, l.shstrAt, |l.shstr|, 1, 0, next)
  }

  predicate NewPieces(l: Layout, n: nat, oldName: nat, kind: nat, data: Bytes, out: Bytes) {
    && Holds(out, l.dataAt, data) && Holds(out, l.shstrAt, l.shstr)
    && Holds(out, l.table + SECTION_LEN * n, HeaderBytes(l.name, kind, l.dataAt, |data|, 4))
    && Holds(out, l.table + SECTION_LEN * (n + 1), HeaderBytes(oldName, SHT_STRTAB, l.shstrAt, |l.shstr|, 1))
  }

  /** The headers of the first n sections, copied in order into a table. */
  predicate HeadersCopied(b: Bytes, ss: seq<Section>, out: Bytes, table: nat, n: nat)
    requires n <= |ss|
  {
    n == 0 || (HeadersCopied(b, ss, out, table, n - 1)
               && Moved(b, ss[n - 1].raw, out, table + SECTION_LEN * (n - 1), SECTION_LEN))
  }

  lemma {:induction false} HeaderCopied(b: Bytes, ss: seq<Section>, out: Bytes, table: nat, n: nat, i: nat)
    requires i < n <= |ss| && HeadersCopied(b, ss, out, table, n)
    ensures Moved(b, ss[i].raw, out, table + SECTION_LEN * i, SECTION_LEN)
  {
    if i < n - 1 { HeaderCopied(b, ss, out, table, n - 1, i); }
  }

  /** Every input byte is kept, except the three header fields that find the section table. */
  predicate BytesKept(b: Bytes, out: Bytes) {
    Same(b, out, 0, 40) && Same(b, out, 48, 60) && Same(b, out, HEADER_LEN, |b|)
  }

  predicate Retabled(l: Layout, out: Bytes) {
    && 0 < l.count <= 0xFFFF && HEADER_LEN <= |out| == l.table + SECTION_LEN * l.count <= MAX_ELF_LEN
    && Le(out, 40, 8) == l.table && Le(out, 60, 2) == l.count && Le(out, 62, 2) == l.count - 1
  }

  /** What an extended file holds and where. */
  predicate Appended(e: Elf, name: Bytes, kind: nat, data: Bytes, out: Bytes)
    requires Framed(e.sections, e.shstrIndex, |e.bytes|)
  {
    var l := LayoutOf(e, name, data);
    && Retabled(l, out) && BytesKept(e.bytes, out) && HeadersCopied(e.bytes, e.sections, out, l.table, |e.sections|)
    && Holds(out, l.dataAt, data) && Holds(out, l.shstrAt, l.shstr)
    && NewHeaders(l, |e.sections|, e.sections[e.shstrIndex].nameAt, kind, |data|, Reader(out))
  }

  lemma KeptPrefix(b: Bytes, body: Bytes, out: Bytes)
    requires Holds(body, 0, b) && HEADER_LEN <= |b| && |body| == |out|
    requires BytesKept(body, out)
    ensures BytesKept(b, out)
  {
    assert forall i :: 0 <= i < |b| ==> b[i] == body[0..|b|][i] == body[i];
  }

  lemma HeaderMoved(b: Bytes, raw: nat, copied: Bytes, out: Bytes, table: nat, at: nat)
    requires raw + SECTION_LEN <= |b| && Holds(copied, at, b[raw..raw + SECTION_LEN]) && Holds(out, table, copied)
    ensures Moved(b, raw, out, table + at, SECTION_LEN)
  {
    HoldsPart(out, table, copied, at, at + SECTION_LEN);
  }

  lemma {:induction false} CopiedMoved(b: Bytes, ss: seq<Section>, copied: Bytes, out: Bytes, table: nat, n: nat)
    requires n <= |ss| && forall j :: 0 <= j < |ss| ==> ss[j].raw + SECTION_LEN <= |b|
    requires copied == CopiedHeaders(b, ss, |ss|) && Holds(out, table, copied)
    ensures HeadersCopied(b, ss, out, table, n)
  {
    if n > 0 {
      CopiedAt(b, ss, |ss|, n - 1);
      HeaderMoved(b, ss[n - 1].raw, copied, out, table, SECTION_LEN * (n - 1));
      CopiedMoved(b, ss, copied, out, table, n - 1);
    }
  }

  lemma PatchedNew(l: Layout, n: nat, oldName: nat, kind: nat, data: Bytes, copied: Bytes, body: Bytes, out: Bytes)
    requires NewPieces(l, n, oldName, kind, data, body) && Holds(body, l.table, copied)
    requires Same(body, out, HEADER_LEN, |body|)
    requires HEADER_LEN <= l.dataAt <= l.shstrAt && HEADER_LEN <= l.table
    ensures NewPieces(l, n, oldName, kind, data, out) && Holds(out, l.table, copied)
  {
    HoldsSame(body, out, HEADER_LEN, |body|, l.dataAt, data);
    HoldsSame(body, out, HEADER_LEN, |body|, l.shstrAt, l.shstr);
    HoldsSame(body, out, HEADER_LEN, |body|, l.table, copied);
    HoldsSame(body, out, HEADER_LEN, |body|, l.table + SECTION_LEN * n,
              HeaderBytes(l.name, kind, l.dataAt, |data|, 4));
    HoldsSame(body, out, HEADER_LEN, |body|, l.table + SECTION_LEN * (n + 1),
              HeaderBytes(oldName, SHT_STRTAB, l.shstrAt, |l.shstr|, 1));
  }

  /** The pieces of an extended file, whatever its two new headers are. */
  lemma BodyPlaced(l: Layout, n: nat, b: Bytes, data: Bytes, copied: Bytes, h: Bytes, g: Bytes) returns (body: Bytes)
    requires |copied| == SECTION_LEN * n && |h| == |g| == SECTION_LEN
    requires l.dataAt == |b| + Padding(|b|, 4) && l.shstrAt == l.dataAt + |data|
    requires l.table == l.shstrAt + |l.shstr| + Padding(l.shstrAt + |l.shstr|, 8)
    ensures body == Padded(Padded(b, 4) + data + l.shstr, 8) + copied + h + g
    ensures |body| == l.table + SECTION_LEN * (n + 2) && Holds(body, 0, b) && Holds(body, l.table, copied)
    ensures Holds(body, l.dataAt, data) && Holds(body, l.shstrAt, l.shstr)
    ensures Holds(body, l.table + SECTION_LEN * n, h) && Holds(body, l.table + SECTION_LEN * (n + 1), g)
  {
    var pad, pad8 := Zeros(Padding(|b|, 4)), Zeros(Padding(l.shstrAt + |l.shstr|, 8));
    var front := b + pad + data + l.shstr + pad8;
    body := front + copied + h + g;
    BodyPieces(b, pad, data, l.shstr, pad8, copied, h, g, front, body);
    FrontIs(b, pad, data, l.shstr, pad8, front, l.shstrAt + |l.shstr|);
  }

  lemma AppendBody(l: Layout, n: nat, oldName: nat, kind: nat, b: Bytes, data: Bytes, copied: Bytes, out: Bytes)
    returns (body: Bytes)
    requires |copied| == SECTION_LEN * n && |b| >= HEADER_LEN && l.count == n + 2
    requires l.dataAt == |b| + Padding(|b|, 4) && l.shstrAt == l.dataAt + |data|
    requires l.table == l.shstrAt + |l.shstr| + Padding(l.shstrAt + |l.shstr|, 8)
    requires out == Extended(l, oldName, kind, b, data, copied)
    ensures |body| == l.table + SECTION_LEN * l.count && out == Patched(body, l.table, l.count)
    ensures Holds(body, 0, b) && Holds(body, l.table, copied) && NewPieces(l, n, oldName, kind, data, body)
  {
    body := BodyPlaced(l, n, b, data, copied, HeaderBytes(l.name, kind, l.dataAt, |data|, 4),
                       HeaderBytes(oldName, SHT_STRTAB, l.shstrAt, |l.shstr|, 1));
  }

  /** The padded front of an extended file, piece by piece. */
  lemma FrontIs(b: Bytes, pad: Bytes, data: Bytes, shstr: Bytes, pad8: Bytes, front: Bytes, end: nat)
    requires pad == Zeros(Padding(|b|, 4)) && end == |b| + |pad| + |data| + |shstr| && pad8 == Zeros(Padding(end, 8))
    requires front == b + pad + data + shstr + pad8
    ensures front == Padded(Padded(b, 4) + data + shstr, 8)
  {
    assert |b + pad + data + shstr| == end;
  }

  lemma PiecesRead(l: Layout, n: nat, oldName: nat, kind: nat, data: Bytes, out: Bytes)
    requires NewPieces(l, n, oldName, kind, data, out) && |out| <= MAX_ELF_LEN
    requires kind < 0x1_0000_0000 && l.name < 0x1_0000_0000 && oldName < 0x1_0000_0000
    ensures Holds(out, l.dataAt, data) && Holds(out, l.shstrAt, l.shstr)
    ensures NewHeaders(l, n, oldName, kind, |data|, Reader(out))
  {
    HeaderRead(out, l.table + SECTION_LEN * n, l.name, kind, l.dataAt, |data|, 4);
    HeaderRead(out, l.table + SECTION_LEN * (n + 1), oldName, SHT_STRTAB, l.shstrAt, |l.shstr|, 1);
  }

  lemma AppendValues(
    l: Layout, ss: seq<Section>, oldName: nat, kind: nat, b: Bytes, data: Bytes, copied: Bytes, out: Bytes)
    requires forall j :: 0 <= j < |ss| ==> ss[j].raw + SECTION_LEN <= |b|
    requires copied == CopiedHeaders(b, ss, |ss|) && |b| >= HEADER_LEN && l.count == |ss| + 2 <= 0xFFFF
    requires l.dataAt == |b| + Padding(|b|, 4) && l.shstrAt == l.dataAt + |data|
    requires l.table == l.shstrAt + |l.shstr| + Padding(l.shstrAt + |l.shstr|, 8)
    requires l.table + SECTION_LEN * l.count <= MAX_ELF_LEN
    requires kind < 0x1_0000_0000 && l.name < 0x1_0000_0000 && oldName < 0x1_0000_0000
    requires out == Extended(l, oldName, kind, b, data, copied)
    ensures Retabled(l, out) && BytesKept(b, out) && HeadersCopied(b, ss, out, l.table, |ss|)
    ensures Holds(out, l.dataAt, data) && Holds(out, l.shstrAt, l.shstr)
    ensures NewHeaders(l, |ss|, oldName, kind, |data|, Reader(out))
  {
    CopiedLength(b, ss, |ss|);
    var body := AppendBody(l, |ss|, oldName, kind, b, data, copied, out);
    PatchedReads(body, l.table, l.count, out);
    KeptPrefix(b, body, out);
    PatchedNew(l, |ss|, oldName, kind, data, copied, body, out);
    PiecesRead(l, |ss|, oldName, kind, data, out);
    CopiedMoved(b, ss, copied, out, l.table, |ss|);
  }

  lemma LayoutFits(e: Elf, name: Bytes, data: Bytes, l: Layout)
    requires l == LayoutOf(e, name, data)
    ensures l.count == |e.sections| + 2
    ensures l.dataAt == |e.bytes| + Padding(|e.bytes|, 4) && l.shstrAt == l.dataAt + |data|
    ensures l.table == l.shstrAt + |l.shstr| + Padding(l.shstrAt + |l.shstr|, 8)
    ensures l.table <= |e.bytes| + |data| + |l.shstr| + 16
  {
  }

  lemma AppendHolds(e: Elf, name: Bytes, kind: nat, data: Bytes, out: Bytes)
    requires Framed(e.sections, e.shstrIndex, |e.bytes|) && AppendSection(e, name, kind, data) == Good(out)
    requires kind < 0x1_0000_0000 && e.sections[e.shstrIndex].nameAt < 0x1_0000_0000
    ensures Appended(e, name, kind, data, out)
  {
    var l, copied := LayoutOf(e, name, data), CopiedHeaders(e.bytes, e.sections, |e.sections|);
    LayoutFits(e, name, data, l);
    AppendValues(l, e.sections, e.sections[e.shstrIndex].nameAt, kind, e.bytes, data, copied, out);
  }
}
