/** Exactly which numbers, chunks, trailers and whole messages both decoders accept. */
module HttpBodies {
  import opened Machine
  import opened Text
  import opened HttpSpec
  import opened HttpFraming
  import opened HttpStream
  import opened HttpAgreement
  import opened HttpMessages
  import opened HttpHeads

  // ---------------------------------------------------------------- numbers

  function Zeros(k: nat): (z: Bytes)
    ensures |z| == k
  {
    seq(k, i => 48)
  }

  lemma {:induction false} ZerosRead(k: nat, s: Bytes)
    ensures Digits(Zeros(k) + s) == Digits(s) && HexDigits(Zeros(k) + s) == HexDigits(s)
    decreases k + |s|
  {
    var all := Zeros(k) + s;
    if s != [] {
      assert all[..|all| - 1] == Zeros(k) + s[..|s| - 1];
      ZerosRead(k, s[..|s| - 1]);
    } else if k > 0 {
      assert all[..|all| - 1] == Zeros(k - 1) + s;
      ZerosRead(k - 1, s);
    } else {
      assert all == s;
    }
  }

  /** Digits are the decimal form of a number, behind any number of zeros. */
  lemma {:induction false} DigitsAreDecimal(s: Bytes, n: nat) returns (k: nat)
    requires s != [] && Digits(s) == Some(n)
    ensures s == Zeros(k) + Decimal(n)
    decreases |s|
  {
    var front, last := s[..|s| - 1], s[|s| - 1];
    assert s == front + [last];
    k := 0;
    if front == [] {
      assert s == Zeros(0) + Decimal(n);
    } else {
      var before := Digits(front).value;
      k := DigitsAreDecimal(front, before);
      assert n / 10 == before && n % 10 == last as int - 48;
      if before == 0 {
        assert Zeros(k) + [48] == Zeros(k + 1);
        k := k + 1;
      } else {
        assert Zeros(k) + Decimal(before) + [last] == Zeros(k) + (Decimal(before) + [last]);
      }
    }
  }

  /** A decimal number with an optional plus sign and leading zeros. */
  ghost predicate SpellsNumber(s: Bytes, n: nat) {
    exists k: nat :: s == Zeros(k) + Decimal(n) || s == [43] + (Zeros(k) + Decimal(n))
  }

  lemma ZerosThenDecimal(k: nat, n: nat)
    ensures Digits(Zeros(k) + Decimal(n)) == Some(n) && (Zeros(k) + Decimal(n))[0] != 43
  {
    ZerosRead(k, Decimal(n));
    DecimalReads(n);
    assert IsDigit(Decimal(n)[0]);
  }

  /** Exactly which byte strings are read as which 64-bit number. */
  lemma NumberExactly(s: Bytes, n: nat)
    ensures ParseU64(s) == Some(n) <==> SpellsNumber(s, n) && n < 0x1_0000_0000_0000_0000
  {
    if ParseU64(s) == Some(n) {
      var digits := if s[0] == 43 then s[1..] else s;
      var k := DigitsAreDecimal(digits, n);
      if s[0] == 43 { assert s == [43] + digits; }
    }
    if SpellsNumber(s, n) && n < 0x1_0000_0000_0000_0000 {
      var k: nat :| s == Zeros(k) + Decimal(n) || s == [43] + (Zeros(k) + Decimal(n));
      ZerosThenDecimal(k, n);
      if s[0] == 43 { assert s[1..] == Zeros(k) + Decimal(n); }
    }
  }

  lemma {:induction false} LowerHex(s: Bytes)
    ensures HexDigits(Lower(s)) == HexDigits(s)
  {
    if s != [] {
      var n := |s| - 1;
      LowerHex(s[..n]);
      assert Lower(s)[..n] == Lower(s[..n]);
    }
  }

  lemma LowerJoin(s: Bytes, b: byte)
    ensures Lower(s + [b]) == Lower(s) + [LowerByte(b)]
  {
  }

  /** Hexadecimal digits are the lower-case form of a number in either case, behind any number of zeros. */
  lemma {:induction false} HexIsForm(s: Bytes, n: nat) returns (k: nat)
    requires s != [] && HexDigits(s) == Some(n)
    ensures Lower(s) == Zeros(k) + HexOf(n)
    decreases |s|
  {
    var front, last := s[..|s| - 1], s[|s| - 1];
    assert s == front + [last];
    LowerJoin(front, last);
    var d := HexDigit(last).value;
    assert LowerByte(last) == HexChar(d);
    k := 0;
    if front == [] {
      assert Lower(s) == Zeros(0) + HexOf(n);
    } else {
      var before := HexDigits(front).value;
      k := HexIsForm(front, before);
      assert n / 16 == before && n % 16 == d;
      if before == 0 {
        assert Zeros(k) + [48] == Zeros(k + 1);
        k := k + 1;
      } else {
        assert Zeros(k) + HexOf(before) + [HexChar(d)] == Zeros(k) + (HexOf(before) + [HexChar(d)]);
      }
    }
  }

  /** A hexadecimal number in either case, with an optional plus sign and leading zeros. */
  ghost predicate SpellsHex(s: Bytes, n: nat) {
    exists k: nat :: Lower(s) == Zeros(k) + HexOf(n) || Lower(s) == [43] + (Zeros(k) + HexOf(n))
  }

  lemma ZerosThenHex(k: nat, n: nat)
    ensures HexDigits(Zeros(k) + HexOf(n)) == Some(n) && (Zeros(k) + HexOf(n))[0] >= 48
  {
    ZerosRead(k, HexOf(n));
    HexReads(n);
  }

  lemma LowerRest(s: Bytes)
    requires s != []
    ensures Lower(s[1..]) == Lower(s)[1..] && (Lower(s)[0] == 43 <==> s[0] == 43)
  {
  }

  lemma HexExactly(s: Bytes, n: nat)
    ensures ParseHex(s) == Some(n) <==> SpellsHex(s, n)
  {
    if s != [] { LowerRest(s); }
    if ParseHex(s) == Some(n) {
      var digits := if s[0] == 43 then s[1..] else s;
      var k := HexIsForm(digits, n);
      if s[0] == 43 { assert Lower(s) == [43] + Lower(s)[1..]; }
    }
    if SpellsHex(s, n) {
      var k: nat :| Lower(s) == Zeros(k) + HexOf(n) || Lower(s) == [43] + (Zeros(k) + HexOf(n));
      ZerosThenHex(k, n);
      var digits := if s[0] == 43 then s[1..] else s;
      LowerHex(digits);
    }
  }

  /** A size line: up to 16 bytes of number, then nothing or a semicolon and an extension. */
  ghost predicate SpellsSize(line: Bytes, n: nat) {
    && |line| <= 4096 && ValidUtf8(line) && n <= 0x4_0000
    && exists text: Bytes, ext: Bytes ::
         line == text + ext && |text| <= 16 && 59 !in text && (ext == [] || ext[0] == 59) && SpellsHex(text, n)
  }

  /** Exactly which lines announce which chunk size. */
  lemma SizeExactly(line: Bytes, n: nat)
    ensures ChunkSize(line) == Ok(n) <==> SpellsSize(line, n)
  {
    if ChunkSize(line) == Ok(n) {
      var i := IndexOf(line, 59);
      IndexFound(line, 59);
      HexExactly(line[..i], n);
      assert line == line[..i] + line[i..] && 59 !in line[..i];
    }
    if SpellsSize(line, n) {
      var text: Bytes, ext: Bytes :|
        line == text + ext && |text| <= 16 && 59 !in text && (ext == [] || ext[0] == 59) && SpellsHex(text, n);
      HexExactly(text, n);
      IndexAfter(text, ext, 59);
      assert line[..|text|] == text;
    }
  }

  // ---------------------------------------------------------------- trailers

  /** A line of at most 4,096 bytes that spells some field. */
  ghost predicate SomeField(line: Bytes) {
    |line| <= 4096 && exists name: Bytes, value: Bytes :: SpellsField(line, name, value)
  }

  ghost predicate SomeFields(lines: seq<Bytes>) {
    forall i :: 0 <= i < |lines| ==> SomeField(lines[i])
  }

  lemma TrailerLine(line: Bytes)
    ensures |line| <= 4096 && ParseHeader(line).Ok? <==> SomeField(line)
  {
    if ParseHeader(line).Ok? { FieldExactly(line, ParseHeader(line).value.0, ParseHeader(line).value.1); }
    if SomeField(line) {
      var name: Bytes, value: Bytes :| SpellsField(line, name, value);
      FieldExactly(line, name, value);
    }
  }

  lemma FieldsMore(line: Bytes, lines: seq<Bytes>)
    ensures SomeFields([line] + lines) <==> SomeField(line) && SomeFields(lines)
  {
    var all := [line] + lines;
    if SomeFields(all) {
      assert SomeField(all[0]);
      forall i | 0 <= i < |lines| ensures SomeField(lines[i]) { assert all[i + 1] == lines[i]; }
    }
  }

  lemma {:induction false} TrailerLinesExactly(lines: seq<Bytes>, count: nat)
    requires count <= 64
    ensures TrailerLines(lines, count).None? <==> count + |lines| <= 64 && SomeFields(lines)
    decreases |lines|
  {
    if lines != [] {
      assert lines == [lines[0]] + lines[1..];
      FieldsMore(lines[0], lines[1..]);
      TrailerLine(lines[0]);
      if count < 64 { TrailerLinesExactly(lines[1..], count + 1); }
    }
  }

  /** Exactly which trailers are accepted: UTF-8 text of at most 64 header lines. */
  lemma TrailersExactly(t: Bytes)
    ensures CheckTrailers(t).None? <==> ValidUtf8(t) && |Lines(t)| <= 64 && SomeFields(Lines(t))
  {
    TrailerLinesExactly(Lines(t), 0);
  }

  // ---------------------------------------------------------------- chunked bodies

  /** A size line and the data it announces. */
  datatype Part = Part(line: Bytes, data: Bytes)

  predicate PartOk(rules: ChunkRules, p: Part) {
    Find(p.line, CRLF).None? && p.data != [] && rules.size(p.line) == Ok(|p.data|)
  }

  predicate PartsOk(rules: ChunkRules, ps: seq<Part>) {
    ps == [] || (PartOk(rules, ps[0]) && PartsOk(rules, ps[1..]))
  }

  /** The parts as they stand on the wire, before what follows them. */
  function Wire(ps: seq<Part>, rest: Bytes): Bytes {
    if ps == [] then rest else ps[0].line + CRLF + (ps[0].data + CRLF + Wire(ps[1..], rest))
  }

  function Carried(ps: seq<Part>): Bytes {
    if ps == [] then [] else ps[0].data + Carried(ps[1..])
  }

  /** What follows the last size line: an empty trailer section, or trailers up to the first blank line, at the end. */
  predicate TailOk(rules: ChunkRules, tail: Bytes) {
    || tail == CRLF
    || (|tail| <= MAX_TRAILER_BYTES && Find(tail, BLANK).Some? && Find(tail, BLANK).value + 4 == |tail|
        && rules.trailers(tail[..Find(tail, BLANK).value]).None?)
  }

  predicate LastOk(rules: ChunkRules, line: Bytes, tail: Bytes) {
    Find(line, CRLF).None? && rules.size(line) == Ok(0) && TailOk(rules, tail)
  }

  lemma TailExactly(rules: ChunkRules, tail: Bytes, endOfStream: bool)
    ensures Trailers(rules, tail, endOfStream).None? <==> TailOk(rules, tail)
  {
    var blank := Find(tail, BLANK);
    assert Find(CRLF, BLANK).None?;
    if blank.None? && |tail| == 2 { assert tail[..2] == tail; }
  }

  /** The size line at the front, and what stands behind it. */
  lemma FrontLine(rules: ChunkRules, s: Bytes, endOfStream: bool) returns (line: Bytes, after: Bytes)
    requires TakeChunk(rules, s, endOfStream).Ok?
    ensures Find(line, CRLF).None? && s == line + CRLF + after && rules.size(line).Ok?
    ensures var (data, rest) := TakeChunk(rules, s, endOfStream).value;
      if rules.size(line) == Ok(0) then data == [] && rest == after
      else data != [] && rules.size(line) == Ok(|data|) && after == data + CRLF + rest
  {
    var p := Find(s, CRLF).value;
    FindHolds(s, CRLF);
    LineBefore(s, p);
    line, after := s[..p], s[p + 2..];
    assert s == line + CRLF + after;
    var n := rules.size(line).value;
    if n > 0 { assert after == after[..n] + after[n..n + 2] + after[n + 2..]; }
  }

  lemma FirstPart(rules: ChunkRules, p: Part, more: seq<Part>, rest: Bytes)
    ensures Wire([p] + more, rest) == p.line + CRLF + (p.data + CRLF + Wire(more, rest))
    ensures Carried([p] + more) == p.data + Carried(more)
    ensures PartsOk(rules, [p] + more) <==> PartOk(rules, p) && PartsOk(rules, more)
  {
    assert ([p] + more)[1..] == more;
  }

  /** An accepted payload begins with a chunk that leaves room for its data, or with the last size line. */
  lemma ChunksFront(rules: ChunkRules, s: Bytes, body: Bytes, endOfStream: bool)
    requires Chunks(rules, s, body, endOfStream).Ok?
    ensures TakeChunk(rules, s, endOfStream).Ok?
    ensures var (data, rest) := TakeChunk(rules, s, endOfStream).value;
      if data == [] then TailOk(rules, rest) && Chunks(rules, s, body, endOfStream) == Ok(body)
      else |body + data| <= MAX_BODY_BYTES
           && Chunks(rules, s, body, endOfStream) == Chunks(rules, rest, body + data, endOfStream)
  {
    TailExactly(rules, TakeChunk(rules, s, endOfStream).value.1, endOfStream);
  }

  lemma {:induction false} ChunksShape(rules: ChunkRules, s: Bytes, body: Bytes, endOfStream: bool)
    returns (ps: seq<Part>, line: Bytes, tail: Bytes)
    requires Chunks(rules, s, body, endOfStream).Ok?
    ensures PartsOk(rules, ps) && LastOk(rules, line, tail) && s == Wire(ps, line + CRLF + tail)
    ensures Chunks(rules, s, body, endOfStream) == Ok(body + Carried(ps))
    ensures |body| + |Carried(ps)| <= MAX_BODY_BYTES || ps == []
    decreases |s|
  {
    ChunksFront(rules, s, body, endOfStream);
    var (data, rest) := TakeChunk(rules, s, endOfStream).value;
    var first, after := FrontLine(rules, s, endOfStream);
    if data == [] {
      ps, line, tail := [], first, after;
      assert body + [] == body;
    } else {
      var more;
      more, line, tail := ChunksShape(rules, rest, body + data, endOfStream);
      ps := [Part(first, data)] + more;
      FirstPart(rules, Part(first, data), more, line + CRLF + tail);
      Regrouped(body, data, Carried(more));
    }
  }

  lemma PartRead(rules: ChunkRules, p: Part, rest: Bytes, body: Bytes, endOfStream: bool)
    requires PartOk(rules, p) && |body| + |p.data| <= MAX_BODY_BYTES
    ensures Chunks(rules, p.line + CRLF + (p.data + CRLF + rest), body, endOfStream)
         == Chunks(rules, rest, body + p.data, endOfStream)
  {
    OneChunk(rules, p.line, p.data, rest, endOfStream);
    ChunkThenRest(rules, p.line + CRLF + (p.data + CRLF + rest), p.data, rest, body, endOfStream);
  }

  lemma {:induction false} PartsRead(rules: ChunkRules, ps: seq<Part>, last: Bytes, body: Bytes, endOfStream: bool)
    requires PartsOk(rules, ps) && |body| + |Carried(ps)| <= MAX_BODY_BYTES
    ensures Chunks(rules, Wire(ps, last), body, endOfStream) == Chunks(rules, last, body + Carried(ps), endOfStream)
    decreases |ps|
  {
    if ps == [] {
      assert body + [] == body;
    } else {
      var p, more := ps[0], ps[1..];
      assert ps == [p] + more;
      FirstPart(rules, p, more, last);
      PartRead(rules, p, Wire(more, last), body, endOfStream);
      Regrouped(body, p.data, Carried(more));
      PartsRead(rules, more, last, body + p.data, endOfStream);
    }
  }

  lemma LastRead(rules: ChunkRules, line: Bytes, tail: Bytes, body: Bytes, endOfStream: bool)
    requires LastOk(rules, line, tail)
    ensures Chunks(rules, line + CRLF + tail, body, endOfStream) == Ok(body)
  {
    var s := line + CRLF + tail;
    FindAfter(line, tail);
    assert s[..|line|] == line && s[|line| + 2..] == tail;
    TailExactly(rules, tail, endOfStream);
  }

  /** The payload is a chunked encoding of the body. */
  ghost predicate ChunkedForm(rules: ChunkRules, payload: Bytes, body: Bytes) {
    exists ps: seq<Part>, line: Bytes, tail: Bytes ::
      && PartsOk(rules, ps) && LastOk(rules, line, tail) && payload == Wire(ps, line + CRLF + tail)
      && body == Carried(ps)
  }

  /**
   * A chunked payload decodes to a body exactly when it is made of size lines, each followed by
   * as many bytes as it announces and a line end, then a line announcing none and acceptable
   * trailers at the very end, and the bytes make up a body of at most 4 MiB.
   */
  lemma ChunkedExactly(rules: ChunkRules, payload: Bytes, body: Bytes, endOfStream: bool)
    ensures Chunks(rules, payload, [], endOfStream) == Ok(body)
       <==> ChunkedForm(rules, payload, body) && |body| <= 0x40_0000
  {
    if Chunks(rules, payload, [], endOfStream) == Ok(body) {
      var ps, line, tail := ChunksShape(rules, payload, [], endOfStream);
      assert [] + Carried(ps) == Carried(ps);
    }
    if ChunkedForm(rules, payload, body) && |body| <= 0x40_0000 {
      var ps: seq<Part>, line: Bytes, tail: Bytes :|
        && PartsOk(rules, ps) && LastOk(rules, line, tail) && payload == Wire(ps, line + CRLF + tail)
        && body == Carried(ps);
      PartsRead(rules, ps, line + CRLF + tail, [], endOfStream);
      assert [] + Carried(ps) == Carried(ps);
      LastRead(rules, line, tail, body, endOfStream);
    }
  }

  // ---------------------------------------------------------------- whole messages

  /** The payload carries the body the way the head says. */
  ghost predicate Carries(status: nat, h: Head, payload: Bytes, body: Bytes, endOfStream: bool) {
    if status / 100 == 1 || status == 204 || status == 304 then payload == [] == body
    else if h.chunked then ChunkedForm(CHUNK_RULES, payload, body) && |body| <= 0x40_0000
    else payload == body && (if h.length.Some? then |body| == h.length.value else endOfStream && |body| <= 0x40_0000)
  }

  lemma BodyExactly(status: nat, h: Head, payload: Bytes, body: Bytes, endOfStream: bool)
    ensures Body(status, h, payload, endOfStream) == Ok(body) <==> Carries(status, h, payload, body, endOfStream)
  {
    ChunkedExactly(CHUNK_RULES, payload, body, endOfStream);
  }

  /** A message is a head of at most 16 KiB with its blank line, the first one, and a payload. */
  predicate Parted(bytes: Bytes, head: Bytes, payload: Bytes) {
    bytes == head + BLANK + payload && Find(bytes, BLANK) == Some(|head|) && |head| + 4 <= 0x4000
  }

  lemma PartedAt(bytes: Bytes, p: nat)
    requires Find(bytes, BLANK) == Some(p) && p + 4 <= 0x4000
    ensures Parted(bytes, bytes[..p], bytes[p + 4..])
  {
    FindHolds(bytes, BLANK);
    assert bytes == bytes[..p] + BLANK + bytes[p + 4..];
  }

  lemma PartedIs(bytes: Bytes, head: Bytes, payload: Bytes)
    requires Parted(bytes, head, payload)
    ensures bytes[..|head|] == head && bytes[|head| + 4..] == payload
  {
  }

  /** Some head says all this and the payload carries the body. */
  ghost predicate Accepts(bytes: Bytes, r: Response, endOfStream: bool) {
    exists head: Bytes, payload: Bytes, h: Head ::
      && Parted(bytes, head, payload) && r.headers == h.headers && SpellsHead(head, r.status, r.reason, h.headers)
      && BufferedFits(h) && !(h.chunked && h.length.Some?) && Carries(r.status, h, payload, r.body, endOfStream)
  }

  /** Exactly which byte strings the buffered decoder accepts, and as which response. */
  lemma DecodedExactly(bytes: Bytes, r: Response, endOfStream: bool)
    ensures Decode(bytes, endOfStream) == Ok(r) <==> Accepts(bytes, r, endOfStream)
  {
    if Decode(bytes, endOfStream) == Ok(r) {
      var p := Find(bytes, BLANK).value;
      PartedAt(bytes, p);
      var (status, reason, h) := ParseHead(bytes[..p]).value;
      HeadExactly(bytes[..p], status, reason, h);
      BodyExactly(status, h, bytes[p + 4..], r.body, endOfStream);
    }
    if Accepts(bytes, r, endOfStream) {
      var head: Bytes, payload: Bytes, h: Head :|
        && Parted(bytes, head, payload) && r.headers == h.headers && SpellsHead(head, r.status, r.reason, h.headers)
        && BufferedFits(h) && !(h.chunked && h.length.Some?) && Carries(r.status, h, payload, r.body, endOfStream);
      PartedIs(bytes, head, payload);
      HeadExactly(head, r.status, r.reason, h);
      BodyExactly(r.status, h, payload, r.body, endOfStream);
    }
  }

  /** Some head announces exactly the bytes that follow it. */
  ghost predicate Streams(bytes: Bytes, head: StreamHead, body: Bytes) {
    && head.status == 200 && |body| == head.length && StreamFits(Head(head.headers, Some(head.length), false))
    && exists text: Bytes, reason: Bytes :: Parted(bytes, text, body) && SpellsHead(text, 200, reason, head.headers)
  }

  lemma WholeDownload(bytes: Bytes, head: StreamHead, body: Bytes)
    ensures Download([bytes]) == Outcome(None, Some(head), body) <==> Streams(bytes, head, body)
  {
    if Download([bytes]) == Outcome(None, Some(head), body) {
      var p, sh := AcceptedShape(ParseStreamHead, bytes);
      PartedAt(bytes, p);
      StreamHeadExactly(bytes[..p], sh);
      var reason: Bytes :| SpellsHead(bytes[..p], 200, reason, sh.headers);
      assert Parted(bytes, bytes[..p], body) && SpellsHead(bytes[..p], 200, reason, head.headers);
    }
    if Streams(bytes, head, body) {
      var text: Bytes, reason: Bytes :| Parted(bytes, text, body) && SpellsHead(text, 200, reason, head.headers);
      PartedIs(bytes, text, body);
      StreamHeadExactly(text, head);
      AcceptsHead(ParseStreamHead, bytes, |text|, head);
    }
  }

  /** Exactly which inputs, cut in whatever pieces, the streaming decoder accepts, and what it writes. */
  lemma DownloadedExactly(pieces: seq<Bytes>, head: StreamHead, body: Bytes)
    ensures Download(pieces) == Outcome(None, Some(head), body) <==> Streams(Concat(pieces), head, body)
  {
    WholeDownload(Concat(pieces), head, body);
    OnePiece(pieces);
  }
}
