/** Framing: an accepted response has no accepted strict prefix or extension, and chunks round-trip. */
module HttpFraming {
  import opened Machine
  import opened Text
  import opened HttpSpec

  // ---------------------------------------------------------------- searching

  lemma {:induction false} FindExtends(s: Bytes, t: Bytes, needle: Bytes)
    requires Find(s, needle).Some?
    ensures Find(s + t, needle) == Find(s, needle)
  {
    assert (s + t)[..|needle|] == s[..|needle|];
    if s[..|needle|] != needle {
      assert (s + t)[1..] == s[1..] + t;
      FindExtends(s[1..], t, needle);
    }
  }

  /** A found place holds what was looked for. */
  lemma {:induction false} FindHolds(s: Bytes, needle: Bytes)
    requires Find(s, needle).Some?
    ensures var p := Find(s, needle).value; p + |needle| <= |s| && s[p..p + |needle|] == needle
  {
    if s[..|needle|] != needle {
      FindHolds(s[1..], needle);
      var p := Find(s[1..], needle).value;
      assert s[p + 1..p + 1 + |needle|] == s[1..][p..p + |needle|];
    }
  }

  // ---------------------------------------------------------------- prefix-freedom

  /** A trailer section that starts with a line end has an empty first line. */
  lemma EmptyTrailerLine(content: Bytes)
    requires content == [] || (|content| >= 2 && content[..2] == CRLF)
    ensures CheckTrailers(content).Some?
  {
    if ValidUtf8(content) {
      var lines := Lines(content);
      if content == [] {
        assert Find(content, CRLF).None?;
        assert lines[0] == [];
      } else {
        assert Find(content, CRLF) == Some(0);
        assert lines[0] == [];
      }
      assert ParseHeader(lines[0]).Err?;
    }
  }

  /** Every trailer section that is empty or starts with a line end is refused. */
  ghost predicate RefusesEmptyLine(rules: ChunkRules) {
    forall c: Bytes :: (c == [] || (|c| >= 2 && c[..2] == CRLF)) ==> rules.trailers(c).Some?
  }

  /** A blank line found in text that starts with a line end leaves text that is empty or starts so too. */
  lemma BlankAfterLineEnd(rest: Bytes, p: nat)
    requires |rest| >= 2 && rest[0] == CR && rest[1] == LF && p + 4 <= |rest| && rest[p..p + 4] == BLANK
    ensures rest[..p] == [] || (p >= 2 && rest[..p][..2] == CRLF)
  {
    assert rest[p] == rest[p..p + 4][0] == CR;
    if p >= 2 { assert rest[..p][..2] == [rest[0], rest[1]]; }
  }

  lemma BareLineEnd(rules: ChunkRules, x: Bytes)
    requires x != [] && RefusesEmptyLine(rules)
    ensures Trailers(rules, CRLF + x, false).Some?
  {
    var rest := CRLF + x;
    assert rest[..2] == CRLF;
    if Find(rest, BLANK).Some? {
      FindHolds(rest, BLANK);
      BlankAfterLineEnd(rest, Find(rest, BLANK).value);
    }
  }

  lemma TrailersExtended(rules: ChunkRules, rest: Bytes, x: Bytes)
    requires Trailers(rules, rest, false).None? && x != [] && RefusesEmptyLine(rules)
    ensures Trailers(rules, rest + x, false).Some?
  {
    if Find(rest, BLANK).Some? {
      FindExtends(rest, x, BLANK);
      var p := Find(rest, BLANK).value;
      assert (rest + x)[..p] == rest[..p];
    } else {
      assert rest == CRLF by { assert rest == rest[..2]; }
      BareLineEnd(rules, x);
    }
  }

  lemma ExtendedSlices(s: Bytes, x: Bytes, i: nat, j: nat)
    requires i <= j <= |s|
    ensures (s + x)[..i] == s[..i] && (s + x)[i..j] == s[i..j] && (s + x)[j..] == s[j..] + x
  {
  }

  lemma TakeExtended(rules: ChunkRules, rest: Bytes, x: Bytes, data: Bytes, after: Bytes)
    requires TakeChunk(rules, rest, false) == Ok((data, after))
    ensures TakeChunk(rules, rest + x, false) == Ok((data, after + x))
  {
    FindExtends(rest, x, CRLF);
    var p := Find(rest, CRLF).value;
    ExtendedSlices(rest, x, p, p + 2);
    var size, tail := rules.size(rest[..p]).value, rest[p + 2..];
    if size != 0 { ExtendedSlices(tail, x, size, size + 2); }
  }

  lemma {:induction false} ChunksExtended(rules: ChunkRules, rest: Bytes, body: Bytes, x: Bytes)
    requires Chunks(rules, rest, body, false).Ok? && x != [] && RefusesEmptyLine(rules)
    ensures Chunks(rules, rest + x, body, false).Err?
    decreases |rest|
  {
    var (data, after) := TakeChunk(rules, rest, false).value;
    TakeExtended(rules, rest, x, data, after);
    if data == [] { TrailersExtended(rules, after, x); } else { ChunksExtended(rules, after, body + data, x); }
  }

  lemma RulesRefuse()
    ensures RefusesEmptyLine(CHUNK_RULES)
  {
    forall c: Bytes | c == [] || (|c| >= 2 && c[..2] == CRLF) ensures CHUNK_RULES.trailers(c).Some? {
      EmptyTrailerLine(c);
    }
  }

  lemma BodyExtended(status: nat, h: Head, payload: Bytes, x: Bytes)
    requires Body(status, h, payload, false).Ok? && x != []
    ensures Body(status, h, payload + x, false).Err?
  {
    RulesRefuse();
    if !NoBody(status) && h.chunked { ChunksExtended(CHUNK_RULES, payload, [], x); }
  }

  lemma WithBodyExtended(head: Result<(nat, Bytes, Head), HttpError>, payload: Bytes, x: Bytes)
    requires WithBody(head, payload, false).Ok? && x != []
    ensures WithBody(head, payload + x, false).Err?
  {
    BodyExtended(head.value.0, head.value.2, payload, x);
  }

  /** No strict extension of an accepted response is accepted. */
  lemma NoAcceptedExtension(m: Bytes, x: Bytes)
    requires Decode(m, false).Ok? && x != []
    ensures Decode(m + x, false).Err?
  {
    FindExtends(m, x, BLANK);
    var end := Find(m, BLANK).value;
    ExtendedSlices(m, x, end, end + 4);
    WithBodyExtended(ParseHead(m[..end]), m[end + 4..], x);
  }

  /** Accepted responses are prefix-free. */
  lemma PrefixFree(m: Bytes, n: Bytes)
    requires Decode(m, false).Ok? && Decode(n, false).Ok? && m <= n
    ensures m == n
  {
    var x := n[|m|..];
    assert n == m + x;
    if x != [] { NoAcceptedExtension(m, x); }
  }

  // ---------------------------------------------------------------- chunks round-trip

  function HexChar(d: nat): byte
    requires d < 16
  {
    if d < 10 then 48 + d else 87 + d
  }

  /** Lower-case hexadecimal without leading zeros. */
  function HexOf(n: nat): (h: Bytes)
    ensures h != []
  {
    if n < 16 then [HexChar(n)] else HexOf(n / 16) + [HexChar(n % 16)]
  }

  predicate HexText(s: Bytes) {
    forall i :: 0 <= i < |s| ==> 48 <= s[i] <= 102 && s[i] != 59
  }

  lemma {:induction false} HexReads(n: nat)
    ensures HexDigits(HexOf(n)) == Some(n) && HexText(HexOf(n))
  {
    var h := HexOf(n);
    if n >= 16 {
      HexReads(n / 16);
      assert h[..|h| - 1] == HexOf(n / 16);
    } else {
      assert h[..0] == [];
      assert HexDigits(h[..0]) == Some(0);
    }
  }

  lemma {:induction false} HexLength(n: nat, k: nat)
    requires k > 0 && n < Power16(k)
    ensures |HexOf(n)| <= k
  {
    if n >= 16 { HexLength(n / 16, k - 1); }
  }

  function Power16(k: nat): nat {
    if k == 0 then 1 else 16 * Power16(k - 1)
  }

  lemma ChunkSizeFits(n: nat)
    requires n <= MAX_CHUNK_BYTES
    ensures |HexOf(n)| <= 5
  {
    assert Power16(3) == 4096 && Power16(4) == 65536 && Power16(5) == 1048576;
    HexLength(n, 5);
  }

  // ---------------------------------------------------------------- where things are found

  /** The byte string stands at a place. */
  predicate At(s: Bytes, p: nat, needle: Bytes) {
    p + |needle| <= |s| && s[p..p + |needle|] == needle
  }

  lemma {:induction false} FindFirst(s: Bytes, needle: Bytes, q: nat)
    requires At(s, q, needle)
    ensures Find(s, needle).Some? && Find(s, needle).value <= q
  {
    if s[..|needle|] != needle {
      assert q > 0 && s[1..][q - 1..q - 1 + |needle|] == s[q..q + |needle|];
      FindFirst(s[1..], needle, q - 1);
    }
  }

  lemma FindIs(s: Bytes, needle: Bytes, p: nat)
    requires At(s, p, needle) && forall q :: 0 <= q < p ==> !At(s, q, needle)
    ensures Find(s, needle) == Some(p)
  {
    FindFirst(s, needle, p);
    FindHolds(s, needle);
    assert At(s, Find(s, needle).value, needle);
  }

  lemma LineEndAt(s: Bytes, q: nat)
    ensures At(s, q, CRLF) <==> q + 2 <= |s| && s[q] == CR && s[q + 1] == LF
  {
    if q + 2 <= |s| { assert s[q..q + 2] == [s[q], s[q + 1]]; }
  }

  lemma BlankAt(s: Bytes, q: nat)
    ensures At(s, q, BLANK) <==> At(s, q, CRLF) && At(s, q + 2, CRLF)
  {
    LineEndAt(s, q);
    LineEndAt(s, q + 2);
    if q + 4 <= |s| { assert s[q..q + 4] == [s[q], s[q + 1], s[q + 2], s[q + 3]]; }
  }

  /** Text without a line end has its first one right behind it. */
  lemma FindAfter(line: Bytes, tail: Bytes)
    requires Find(line, CRLF).None?
    ensures Find(line + CRLF + tail, CRLF) == Some(|line|)
  {
    var s := line + CRLF + tail;
    assert s[|line|..|line| + 2] == CRLF;
    forall q | 0 <= q < |line| ensures !At(s, q, CRLF) {
      LineEndAt(s, q);
      LineEndAt(line, q);
      if At(line, q, CRLF) { FindFirst(line, CRLF, q); }
    }
    FindIs(s, CRLF, |line|);
  }

  predicate NoEmpty(lines: seq<Bytes>) {
    forall i :: 0 <= i < |lines| ==> lines[i] != []
  }

  /** The only line of text without a line end is not followed by a blank line too early. */
  lemma OneLineBlank(line: Bytes, q: nat)
    requires Find(line, CRLF).None? && line != [] && q < |line|
    ensures !At(line + BLANK, q, BLANK)
  {
    var s := line + BLANK;
    BlankAt(s, q);
    LineEndAt(s, q);
    LineEndAt(line, q);
    if At(line, q, CRLF) { FindFirst(line, CRLF, q); }
  }

  /** The first line of text that starts with a line end, or of no text, is empty. */
  lemma EmptyFirst(rest: Bytes)
    requires NoEmpty(Lines(rest))
    ensures !At(rest + BLANK, 0, CRLF)
  {
    LineEndAt(rest + BLANK, 0);
    LineEndAt(rest, 0);
    var lines := Lines(rest);
    assert lines[0] != [];
    assert rest == [] ==> lines == [rest];
    assert At(rest, 0, CRLF) ==> Find(rest, CRLF) == Some(0);
  }

  lemma BlankLater(content: Bytes, p: nat, q: nat)
    requires Find(content, CRLF) == Some(p) && NoEmpty(Lines(content[p + 2..])) && q < p + 2
    ensures !At(content + BLANK, q, BLANK)
  {
    var s, rest := content + BLANK, content[p + 2..];
    FindHolds(content, CRLF);
    LineEndAt(content, p);
    BlankAt(s, q);
    LineEndAt(s, q);
    LineEndAt(s, q + 2);
    if q < p {
      LineEndAt(content, q);
      if At(content, q, CRLF) { FindFirst(content, CRLF, q); }
    } else if q == p {
      EmptyFirst(rest);
      LineEndAt(rest + BLANK, 0);
      assert s[p + 2] == (rest + BLANK)[0] && s[p + 3] == (rest + BLANK)[1];
    }
  }

  /** Lines that are not empty end at the blank line behind them, not before. */
  lemma {:induction false} FirstBlank(content: Bytes, q: nat)
    requires NoEmpty(Lines(content)) && q < |content|
    ensures !At(content + BLANK, q, BLANK)
    decreases |content|
  {
    var p := Find(content, CRLF);
    if p.None? {
      OneLineBlank(content, q);
    } else {
      var rest := content[p.value + 2..];
      var lines := Lines(content);
      assert lines == [content[..p.value]] + Lines(rest);
      assert NoEmpty(Lines(rest)) by {
        forall i | 0 <= i < |Lines(rest)| ensures Lines(rest)[i] != [] { assert lines[i + 1] == Lines(rest)[i]; }
      }
      if q < p.value + 2 {
        BlankLater(content, p.value, q);
      } else {
        FirstBlank(rest, q - (p.value + 2));
        ShiftedAt(content, rest, p.value + 2, q);
      }
    }
  }

  lemma BlankBehind(t: Bytes)
    requires NoEmpty(Lines(t))
    ensures Find(t + BLANK, BLANK) == Some(|t|)
  {
    NoneBefore(t);
    FindEnd(t, BLANK);
  }

  /** Text followed by a byte string that does not stand earlier. */
  predicate Ends(t: Bytes, needle: Bytes) {
    forall q :: 0 <= q < |t| ==> !At(t + needle, q, needle)
  }

  lemma FindEnd(t: Bytes, needle: Bytes)
    requires Ends(t, needle)
    ensures Find(t + needle, needle) == Some(|t|)
  {
    assert At(t + needle, |t|, needle);
    FindIs(t + needle, needle, |t|);
  }

  lemma NoneBefore(t: Bytes)
    requires NoEmpty(Lines(t))
    ensures Ends(t, BLANK)
  {
    forall q | 0 <= q < |t| ensures !At(t + BLANK, q, BLANK) { FirstBlank(t, q); }
  }

  lemma ShiftedAt(content: Bytes, rest: Bytes, k: nat, q: nat)
    requires k <= |content| && rest == content[k..] && k <= q
    ensures At(content + BLANK, q, BLANK) ==> At(rest + BLANK, q - k, BLANK)
  {
    assert (content + BLANK)[k..] == rest + BLANK;
    if At(content + BLANK, q, BLANK) {
      assert (content + BLANK)[k..][q - k..q - k + 4] == (content + BLANK)[q..q + 4];
    }
  }

  // ---------------------------------------------------------------- chunked bodies

  /** A chunk: an extension (nothing, or a semicolon and text on one line) and data. */
  datatype Chunk = Chunk(ext: Bytes, data: Bytes)

  /** The end of a chunked body: the extension of the last chunk, and the trailers if there are any. */
  datatype Ending = Ending(ext: Bytes, trailers: Option<Bytes>)

  predicate ExtensionOk(ext: Bytes) {
    ValidUtf8(ext) && Find(ext, CRLF).None? && (ext != [] ==> ext[0] == 59)
  }

  predicate ChunkOk(c: Chunk) {
    1 <= |c.data| <= MAX_CHUNK_BYTES && ExtensionOk(c.ext) && |SizeLine(c)| <= MAX_HEADER_LINE_LEN
  }

  predicate EndingOk(e: Ending) {
    && ExtensionOk(e.ext) && 1 + |e.ext| <= MAX_HEADER_LINE_LEN
    && (e.trailers.Some? ==> CheckTrailers(e.trailers.value).None? && |e.trailers.value| + 4 <= MAX_TRAILER_BYTES)
  }

  function SizeLine(c: Chunk): Bytes {
    HexOf(|c.data|) + c.ext
  }

  function EndLine(e: Ending): Bytes {
    [48] + e.ext
  }

  function TrailerBytes(e: Ending): Bytes {
    if e.trailers.None? then CRLF else e.trailers.value + BLANK
  }

  /** RFC 9112 section 7.1: the chunks, then the last chunk and the trailer section. */
  function Encode(cs: seq<Chunk>, e: Ending): Bytes {
    if cs == [] then EndLine(e) + CRLF + TrailerBytes(e)
    else SizeLine(cs[0]) + CRLF + (cs[0].data + CRLF + Encode(cs[1..], e))
  }

  function Data(cs: seq<Chunk>): Bytes {
    if cs == [] then [] else cs[0].data + Data(cs[1..])
  }

  lemma {:induction false} IndexAfter(s: Bytes, t: Bytes, b: byte)
    requires b !in s && (t != [] ==> t[0] == b)
    ensures IndexOf(s + t, b) == |s|
  {
    if s == [] {
      assert s + t == t;
    } else {
      assert (s + t)[1..] == s[1..] + t;
      IndexAfter(s[1..], t, b);
    }
  }

  /** ASCII before valid text is valid text. */
  lemma {:induction false} AsciiBefore(s: Bytes, t: Bytes)
    requires Ascii(s) && ValidUtf8(t)
    ensures ValidUtf8(s + t)
  {
    if s == [] {
      assert s + t == t;
    } else {
      assert (s + t)[1..] == s[1..] + t && LeadLength(s + t) == 1;
      AsciiBefore(s[1..], t);
    }
  }

  /** Text with no line end stays so behind text without carriage returns. */
  lemma NoLineEnd(s: Bytes, t: Bytes)
    requires CR !in s && Find(t, CRLF).None?
    ensures Find(s + t, CRLF).None?
  {
    forall q | 0 <= q ensures !At(s + t, q, CRLF) {
      LineEndAt(s + t, q);
      if q >= |s| {
        LineEndAt(t, q - |s|);
        if At(t, q - |s|, CRLF) { FindFirst(t, CRLF, q - |s|); }
      }
    }
    FindNone(s + t, CRLF);
  }

  lemma FindNone(s: Bytes, needle: Bytes)
    requires forall q :: 0 <= q ==> !At(s, q, needle)
    ensures Find(s, needle).None?
  {
    if Find(s, needle).Some? {
      FindHolds(s, needle);
      assert At(s, Find(s, needle).value, needle);
    }
  }

  /** A line of hexadecimal and an extension announces the number, and is one line. */
  lemma HexLineReads(n: nat, ext: Bytes)
    requires n <= MAX_CHUNK_BYTES && ExtensionOk(ext) && |HexOf(n) + ext| <= MAX_HEADER_LINE_LEN
    ensures ChunkSize(HexOf(n) + ext) == Ok(n) && Find(HexOf(n) + ext, CRLF).None?
  {
    var hex, line := HexOf(n), HexOf(n) + ext;
    HexReads(n);
    ChunkSizeFits(n);
    assert 59 !in hex && hex[0] != 43 && CR !in hex;
    IndexAfter(hex, ext, 59);
    assert line[..|hex|] == hex;
    AsciiBefore(hex, ext);
    NoLineEnd(hex, ext);
  }

  // ---------------------------------------------------------------- the ending

  lemma {:induction false} HeadersNotEmpty(lines: seq<Bytes>, count: nat)
    requires TrailerLines(lines, count).None?
    ensures NoEmpty(lines)
    decreases |lines|
  {
    if lines != [] {
      HeadersNotEmpty(lines[1..], count + 1);
      assert ParseHeader(lines[0]).Ok?;
      assert lines == [lines[0]] + lines[1..];
    }
  }

  /** Trailers the decoder accepts end at their blank line. */
  lemma TrailerBlank(t: Bytes)
    requires CheckTrailers(t).None?
    ensures Find(t + BLANK, BLANK) == Some(|t|)
  {
    HeadersNotEmpty(Lines(t), 0);
    BlankBehind(t);
  }

  /** The rules read the last line, and accept the trailer section behind it. */
  predicate ReadableEnding(rules: ChunkRules, e: Ending) {
    && Find(EndLine(e), CRLF).None? && rules.size(EndLine(e)) == Ok(0)
    && Trailers(rules, TrailerBytes(e), false).None? && Trailers(rules, TrailerBytes(e), true).None?
  }

  lemma EndingReads(e: Ending)
    requires EndingOk(e)
    ensures ReadableEnding(CHUNK_RULES, e)
  {
    assert HexOf(0) == [48];
    HexLineReads(0, e.ext);
    if e.trailers.Some? {
      TrailerBlank(e.trailers.value);
      assert TrailerBytes(e)[..|e.trailers.value|] == e.trailers.value;
    } else {
      assert Find(CRLF, BLANK).None? && CRLF[..2] == CRLF;
    }
  }

  lemma LastChunk(rules: ChunkRules, e: Ending, body: Bytes, endOfStream: bool)
    requires ReadableEnding(rules, e)
    ensures Chunks(rules, Encode([], e), body, endOfStream) == Ok(body)
  {
    var line, tail := EndLine(e), TrailerBytes(e);
    FindAfter(line, tail);
    assert (line + CRLF + tail)[..|line|] == line && (line + CRLF + tail)[|line| + 2..] == tail;
  }

  // ---------------------------------------------------------------- chunks round-trip

  lemma ChunkSlices(line: Bytes, data: Bytes, tail: Bytes)
    ensures var s := line + CRLF + (data + CRLF + tail);
      s[..|line|] == line && s[|line| + 2..] == data + CRLF + tail
    ensures var after := data + CRLF + tail;
      after[..|data|] == data && after[|data|..|data| + 2] == CRLF && after[|data| + 2..] == tail
  {
  }

  /** The chunk at the front of an encoding. */
  lemma OneChunk(rules: ChunkRules, line: Bytes, data: Bytes, tail: Bytes, endOfStream: bool)
    requires Find(line, CRLF).None? && rules.size(line) == Ok(|data|) && data != []
    ensures TakeChunk(rules, line + CRLF + (data + CRLF + tail), endOfStream) == Ok((data, tail))
  {
    FindAfter(line, data + CRLF + tail);
    ChunkSlices(line, data, tail);
  }

  /** The rules read the size line of each of these chunks. */
  predicate Readable(rules: ChunkRules, cs: seq<Chunk>) {
    cs == [] || (ReadableFirst(rules, cs[0]) && Readable(rules, cs[1..]))
  }

  predicate ReadableFirst(rules: ChunkRules, c: Chunk) {
    Find(SizeLine(c), CRLF).None? && rules.size(SizeLine(c)) == Ok(|c.data|) && c.data != []
  }

  lemma EncodedFront(rules: ChunkRules, cs: seq<Chunk>, e: Ending, endOfStream: bool)
    requires cs != [] && ReadableFirst(rules, cs[0])
    ensures TakeChunk(rules, Encode(cs, e), endOfStream) == Ok((cs[0].data, Encode(cs[1..], e)))
  {
    OneChunk(rules, SizeLine(cs[0]), cs[0].data, Encode(cs[1..], e), endOfStream);
  }

  lemma ChunkThenRest(rules: ChunkRules, s: Bytes, data: Bytes, tail: Bytes, body: Bytes, endOfStream: bool)
    requires TakeChunk(rules, s, endOfStream) == Ok((data, tail)) && data != [] && |body| + |data| <= MAX_BODY_BYTES
    ensures Chunks(rules, s, body, endOfStream) == Chunks(rules, tail, body + data, endOfStream)
  {
  }

  lemma RoundTripStep(rules: ChunkRules, cs: seq<Chunk>, e: Ending, body: Bytes, endOfStream: bool)
    requires cs != [] && ReadableFirst(rules, cs[0]) && |body| + |cs[0].data| <= MAX_BODY_BYTES
    ensures Chunks(rules, Encode(cs, e), body, endOfStream)
         == Chunks(rules, Encode(cs[1..], e), body + cs[0].data, endOfStream)
  {
    EncodedFront(rules, cs, e, endOfStream);
    ChunkThenRest(rules, Encode(cs, e), cs[0].data, Encode(cs[1..], e), body, endOfStream);
  }

  lemma DataStep(cs: seq<Chunk>, body: Bytes)
    requires cs != []
    ensures body + Data(cs) == body + cs[0].data + Data(cs[1..]) && |Data(cs)| == |cs[0].data| + |Data(cs[1..])|
  {
  }

  lemma {:induction false} EncodedRoundTrip(rules: ChunkRules, cs: seq<Chunk>, e: Ending, body: Bytes, endOfStream: bool)
    requires ReadableEnding(rules, e) && Readable(rules, cs) && |body| + |Data(cs)| <= MAX_BODY_BYTES
    ensures Chunks(rules, Encode(cs, e), body, endOfStream) == Ok(body + Data(cs))
    decreases |cs|
  {
    if cs == [] {
      LastChunk(rules, e, body, endOfStream);
      assert body + [] == body;
    } else {
      DataStep(cs, body);
      RoundTripStep(rules, cs, e, body, endOfStream);
      EncodedRoundTrip(rules, cs[1..], e, body + cs[0].data, endOfStream);
    }
  }

  lemma {:induction false} RulesRead(cs: seq<Chunk>)
    requires forall i :: 0 <= i < |cs| ==> ChunkOk(cs[i])
    ensures Readable(CHUNK_RULES, cs)
  {
    if cs != [] {
      HexLineReads(|cs[0].data|, cs[0].ext);
      RulesRead(cs[1..]);
    }
  }

  /** Any body cut into chunks, with any extensions and trailers, decodes back to itself, after any body so far. */
  lemma ChunksRoundTrip(cs: seq<Chunk>, e: Ending, body: Bytes, endOfStream: bool)
    requires (forall i :: 0 <= i < |cs| ==> ChunkOk(cs[i])) && EndingOk(e) && |body| + |Data(cs)| <= MAX_BODY_BYTES
    ensures Chunks(CHUNK_RULES, Encode(cs, e), body, endOfStream) == Ok(body + Data(cs))
  {
    EndingReads(e);
    RulesRead(cs);
    EncodedRoundTrip(CHUNK_RULES, cs, e, body, endOfStream);
  }

  lemma {:induction false} FieldsNotEmpty(rule: FieldRule, h: Head, lines: seq<Bytes>)
    requires HeaderLines(rule, h, lines).Ok?
    ensures NoEmpty(lines)
    decreases |lines|
  {
    if lines != [] {
      FieldsNotEmpty(rule, HeaderLine(rule, h, lines[0]).value, lines[1..]);
      assert ParseHeader(lines[0]).Ok?;
      assert lines == [lines[0]] + lines[1..];
    }
  }

  /** A head the decoder accepts ends at its blank line. */
  lemma HeadBlank(head: Bytes)
    requires ParseHead(head).Ok?
    ensures Find(head + BLANK, BLANK) == Some(|head|)
  {
    var lines := Lines(head);
    FieldsNotEmpty(BufferedField, EMPTY_HEAD, lines[1..]);
    StatusNotEmpty(lines[0]);
    assert lines == [lines[0]] + lines[1..];
    BlankBehind(head);
  }

  lemma StatusNotEmpty(line: Bytes)
    requires ParseStatusLine(line).Ok?
    ensures line != []
  {
  }

  /** A chunked response with any head the decoder accepts carries its body exactly. */
  lemma ChunkedResponse(
    head: Bytes, cs: seq<Chunk>, e: Ending, endOfStream: bool, status: nat, reason: Bytes, h: Head)
    requires ParseHead(head) == Ok((status, reason, h)) && |head| + 4 <= MAX_HEADER_BYTES
    requires h.chunked && !NoBody(status)
    requires (forall i :: 0 <= i < |cs| ==> ChunkOk(cs[i])) && EndingOk(e) && |Data(cs)| <= MAX_BODY_BYTES
    ensures Decode(head + BLANK + Encode(cs, e), endOfStream) == Ok(Response(status, reason, h.headers, Data(cs)))
  {
    var m := head + BLANK + Encode(cs, e);
    HeadBlank(head);
    FindExtends(head + BLANK, Encode(cs, e), BLANK);
    assert m[..|head|] == head && m[|head| + 4..] == Encode(cs, e);
    ChunksRoundTrip(cs, e, [], endOfStream);
    assert [] + Data(cs) == Data(cs);
  }
}
