/**
 * Whole messages: what both decoders make of a response written out from its parts, the status
 * line, the header lines, a framing field and the body.
 */
module HttpMessages {
  import opened Machine
  import opened Text
  import opened HttpSpec
  import opened HttpFraming
  import opened HttpStream
  import opened HttpAgreement

  // ---------------------------------------------------------------- numbers

  /** A number in decimal, without leading zeros. */
  function Decimal(n: nat): (s: Bytes)
    ensures s != []
  {
    if n < 10 then [48 + n] else Decimal(n / 10) + [48 + n % 10]
  }

  predicate AllDigits(s: Bytes) {
    forall i :: 0 <= i < |s| ==> IsDigit(s[i])
  }

  lemma {:induction false} DecimalReads(n: nat)
    ensures Digits(Decimal(n)) == Some(n) && AllDigits(Decimal(n))
  {
    var s := Decimal(n);
    if n >= 10 {
      DecimalReads(n / 10);
      assert s[..|s| - 1] == Decimal(n / 10);
    } else {
      assert s[..0] == [];
      assert Digits(s[..0]) == Some(0);
    }
  }

  lemma {:induction false} DigitsExactly(s: Bytes)
    ensures Digits(s).Some? <==> AllDigits(s)
  {
    if s != [] {
      DigitsExactly(s[..|s| - 1]);
      assert s == s[..|s| - 1] + [s[|s| - 1]];
    }
  }

  /** Every 64-bit number is read back from its decimal form, with or without a plus sign. */
  lemma NumberReads(n: nat)
    requires n <= MAX_U64
    ensures ParseU64(Decimal(n)) == Some(n) && ParseU64([43] + Decimal(n)) == Some(n)
  {
    DecimalReads(n);
    var s := Decimal(n);
    assert IsDigit(s[0]);
    assert ([43] + s)[1..] == s;
  }

  lemma ThreeDigits(n: nat)
    requires 100 <= n <= 999
    ensures |Decimal(n)| == 3
  {
    assert |Decimal(n / 100)| == 1 && n / 10 / 10 == n / 100;
  }

  // ---------------------------------------------------------------- lines

  predicate Blanks(s: Bytes) {
    forall i :: 0 <= i < |s| ==> IsBlank(s[i])
  }

  lemma {:induction false} TrimFront(pad: Bytes, s: Bytes)
    requires Blanks(pad)
    ensures Trim(pad + s) == Trim(s)
  {
    if pad == [] {
      assert pad + s == s;
    } else {
      assert (pad + s)[1..] == pad[1..] + s;
      TrimFront(pad[1..], s);
    }
  }

  lemma {:induction false} TrimBack(s: Bytes, pad: Bytes)
    requires Blanks(pad) && s != [] && !IsBlank(s[0]) && !IsBlank(s[|s| - 1])
    ensures Trim(s + pad) == s
  {
    var t := s + pad;
    if pad == [] {
      assert t == s;
    } else {
      assert t[..|t| - 1] == s + pad[..|pad| - 1];
      TrimBack(s, pad[..|pad| - 1]);
    }
  }

  /** A value: text without controls, and no blanks at its ends. */
  predicate ValueOk(v: Bytes) {
    && (forall i :: 0 <= i < |v| ==> (v[i] >= 32 || v[i] == 9) && v[i] != 127)
    && (v != [] ==> !IsBlank(v[0]) && !IsBlank(v[|v| - 1]))
  }

  /** A letter, a digit or one of fifteen marks (RFC 9110 section 5.6.2). */
  predicate TokenChar(c: char) {
    || 'a' <= c <= 'z' || 'A' <= c <= 'Z' || '0' <= c <= '9'
    || c in {'!', '#', '$', '%', '&', '\'', '*', '+', '-', '.', '^', '_', '`', '|', '~'}
  }

  lemma TokenIs(b: byte)
    ensures IsToken(b) <==> TokenChar(b as char)
  {
  }

  predicate NameOk(n: Bytes) {
    n != [] && forall i :: 0 <= i < |n| ==> TokenChar(n[i] as char)
  }

  /** A header line, with blanks around its value. */
  function FieldLine(name: Bytes, before: Bytes, value: Bytes, after: Bytes): Bytes {
    name + ([58] + (before + (value + after)))
  }

  lemma TrimValue(before: Bytes, value: Bytes, after: Bytes)
    requires Blanks(before) && Blanks(after) && ValueOk(value)
    ensures Trim(before + (value + after)) == value
  {
    TrimFront(before, value + after);
    if value == [] {
      TrimFront(after, []);
      assert value + after == after + [];
    } else {
      TrimBack(value, after);
    }
  }

  /** Every well-formed header line is read back as its name and value. */
  lemma FieldReads(name: Bytes, before: Bytes, value: Bytes, after: Bytes)
    requires NameOk(name) && ValueOk(value) && Blanks(before) && Blanks(after)
    ensures ParseHeader(FieldLine(name, before, value, after)) == Ok((name, value))
  {
    var rest := before + (value + after);
    var line := name + ([58] + rest);
    assert 58 !in name by { assert !TokenChar(58 as char); }
    forall i | 0 <= i < |name| ensures IsToken(name[i]) { TokenIs(name[i]); }
    IndexAfter(name, [58] + rest, 58);
    assert line[..|name|] == name && line[|name| + 1..] == rest;
    TrimValue(before, value, after);
  }

  /** Printable text: a reason phrase. */
  predicate ReasonOk(reason: Bytes) {
    forall i :: 0 <= i < |reason| ==> reason[i] >= 32 && reason[i] != 127
  }

  function StatusLine(status: nat, reason: Bytes): Bytes {
    VERSION + ([32] + (Decimal(status) + ([32] + reason)))
  }

  /** Every status line is read back as its code and reason. */
  lemma StatusReads(status: nat, reason: Bytes)
    requires 100 <= status <= 599 && ReasonOk(reason) && |StatusLine(status, reason)| <= MAX_STATUS_LINE_LEN
    ensures ParseStatusLine(StatusLine(status, reason)) == Ok((status, reason))
  {
    var code, line := Decimal(status), StatusLine(status, reason);
    var tail := [32] + reason;
    var rest := code + tail;
    assert 32 !in VERSION;
    IndexAfter(VERSION, [32] + rest, 32);
    assert line[..|VERSION|] == VERSION && line[|VERSION| + 1..] == rest;
    DecimalReads(status);
    ThreeDigits(status);
    assert 32 !in code;
    IndexAfter(code, tail, 32);
    assert rest[..3] == code && rest[4..] == reason;
  }

  /** The lines of a head, with line ends between them. */
  function Joined(lines: seq<Bytes>): Bytes
    requires lines != []
  {
    if |lines| == 1 then lines[0] else lines[0] + CRLF + Joined(lines[1..])
  }

  predicate OneLine(line: Bytes) {
    Find(line, CRLF).None? && ValidUtf8(line)
  }

  lemma {:induction false} JoinedLines(lines: seq<Bytes>)
    requires lines != [] && forall i :: 0 <= i < |lines| ==> OneLine(lines[i])
    ensures Lines(Joined(lines)) == lines && ValidUtf8(Joined(lines))
    decreases |lines|
  {
    if |lines| > 1 {
      JoinedLines(lines[1..]);
      FirstLine(lines[0], Joined(lines[1..]));
      FirstText(lines[0], Joined(lines[1..]));
      assert lines == [lines[0]] + lines[1..];
    } else {
      assert lines == [lines[0]];
    }
  }

  lemma FirstLine(line: Bytes, rest: Bytes)
    requires Find(line, CRLF).None?
    ensures Lines(line + CRLF + rest) == [line] + Lines(rest)
  {
    var s := line + CRLF + rest;
    FindAfter(line, rest);
    assert s[..|line|] == line && s[|line| + 2..] == rest;
  }

  lemma FirstText(line: Bytes, rest: Bytes)
    requires ValidUtf8(line) && ValidUtf8(rest)
    ensures ValidUtf8(line + CRLF + rest)
  {
    AsciiBefore(CRLF, rest);
    Utf8Join(line, CRLF + rest);
    assert line + CRLF + rest == line + (CRLF + rest);
  }

  lemma LeadGrows(s: Bytes, t: Bytes)
    requires LeadLength(s) > 0
    ensures LeadLength(s + t) == LeadLength(s) <= |s|
  {
  }

  lemma {:induction false} Utf8Join(s: Bytes, t: Bytes)
    requires ValidUtf8(s) && ValidUtf8(t)
    ensures ValidUtf8(s + t)
    decreases |s|
  {
    if s == [] {
      assert s + t == t;
    } else {
      var n := LeadLength(s);
      LeadGrows(s, t);
      Utf8Join(s[n..], t);
      assert (s + t)[n..] == s[n..] + t;
    }
  }

  // ---------------------------------------------------------------- heads

  lemma {:induction false} HeaderSnoc(rule: FieldRule, h: Head, lines: seq<Bytes>, line: Bytes, mid: Head)
    requires HeaderLines(rule, h, lines) == Ok(mid)
    ensures HeaderLines(rule, h, lines + [line]) == HeaderLine(rule, mid, line)
    decreases |lines|
  {
    if lines == [] {
      assert [line][1..] == [] && lines + [line] == [line];
    } else {
      assert (lines + [line])[1..] == lines[1..] + [line];
      HeaderSnoc(rule, HeaderLine(rule, h, lines[0]).value, lines[1..], line, mid);
    }
  }

  /** Lower-case letters and hyphens. */
  predicate LowerName(key: Bytes) {
    key != [] && forall i :: 0 <= i < |key| ==> 97 <= key[i] <= 122 || key[i] == 45
  }

  lemma SpelledName(name: Bytes, key: Bytes)
    requires Lower(name) == key && LowerName(key)
    ensures NameOk(name)
  {
    forall i | 0 <= i < |name| ensures TokenChar(name[i] as char) {
      assert Lower(name)[i] == LowerByte(name[i]);
    }
  }

  lemma FramingNames()
    ensures LowerName(CONTENT_LENGTH) && LowerName(TRANSFER_ENCODING) && CONTENT_LENGTH != TRANSFER_ENCODING
  {
    assert |CONTENT_LENGTH| == 14 && |TRANSFER_ENCODING| == 17;
  }

  lemma NoCrIsOneLine(line: Bytes)
    requires CR !in line
    ensures Find(line, CRLF).None?
  {
    NoLineEnd(line, []);
    assert line + [] == line;
  }

  lemma StatusIsOneLine(status: nat, reason: Bytes)
    requires 100 <= status <= 599 && ReasonOk(reason) && ValidUtf8(reason)
    ensures OneLine(StatusLine(status, reason))
  {
    var front := VERSION + ([32] + (Decimal(status) + [32]));
    DecimalReads(status);
    assert StatusLine(status, reason) == front + reason;
    PlainFront(VERSION, Decimal(status), front);
    AsciiBefore(front, reason);
    assert CR !in reason;
    NoCrIsOneLine(front + reason);
  }

  lemma PlainFront(version: Bytes, code: Bytes, front: Bytes)
    requires front == version + ([32] + (code + [32])) && AllDigits(code)
    requires forall i :: 0 <= i < |version| ==> 32 <= version[i] < 128
    ensures Ascii(front) && CR !in front
  {
    assert forall i :: 0 <= i < |front| ==> 32 <= front[i] < 128;
  }

  lemma FieldIsOneLine(name: Bytes, before: Bytes, value: Bytes, after: Bytes)
    requires NameOk(name) && ValueOk(value) && Ascii(value) && Blanks(before) && Blanks(after)
    ensures OneLine(FieldLine(name, before, value, after))
  {
    var line := FieldLine(name, before, value, after);
    assert CR !in name && CR !in before && CR !in value && CR !in after;
    NoCrIsOneLine(line);
    assert Ascii(line);
    AsciiIsUtf8(line);
  }

  /** Header lines that say nothing about framing, under a decoder's rule. */
  predicate Unframed(rule: FieldRule, others: seq<Bytes>, h: Head) {
    && (forall i :: 0 <= i < |others| ==> OneLine(others[i]))
    && HeaderLines(rule, EMPTY_HEAD, others) == Ok(h) && h.length.None? && !h.chunked
  }

  predicate StatusOk(status: nat, reason: Bytes) {
    && 100 <= status <= 599 && ReasonOk(reason) && ValidUtf8(reason)
    && |StatusLine(status, reason)| <= MAX_STATUS_LINE_LEN
  }

  /** A head of such lines, and one more. */
  function HeadBytes(status: nat, reason: Bytes, lines: seq<Bytes>): Bytes {
    Joined([StatusLine(status, reason)] + lines)
  }

  lemma HeadLines(status: nat, reason: Bytes, lines: seq<Bytes>)
    requires StatusOk(status, reason) && forall i :: 0 <= i < |lines| ==> OneLine(lines[i])
    ensures var head := HeadBytes(status, reason, lines);
      && ValidUtf8(head) && Lines(head)[0] == StatusLine(status, reason) && Lines(head)[1..] == lines
      && ParseStatusLine(Lines(head)[0]) == Ok((status, reason))
  {
    var all := [StatusLine(status, reason)] + lines;
    StatusIsOneLine(status, reason);
    StatusReads(status, reason);
    JoinedLines(all);
    assert all[1..] == lines;
  }

  lemma BufferedHead(status: nat, reason: Bytes, lines: seq<Bytes>, h: Head)
    requires StatusOk(status, reason) && forall i :: 0 <= i < |lines| ==> OneLine(lines[i])
    requires HeaderLines(BufferedField, EMPTY_HEAD, lines) == Ok(h) && !(h.chunked && h.length.Some?)
    ensures ParseHead(HeadBytes(status, reason, lines)) == Ok((status, reason, h))
  {
    HeadLines(status, reason, lines);
  }

  lemma StreamHeadOf(head: Bytes, reason: Bytes, h: Head)
    requires ValidUtf8(head) && ParseStatusLine(Lines(head)[0]) == Ok((200, reason))
    requires HeaderLines(StreamField, EMPTY_HEAD, Lines(head)[1..]) == Ok(h) && h.length.Some?
    ensures ParseStreamHead(head) == Ok(StreamHead(200, h.headers, h.length.value))
  {
  }

  lemma StreamedHead(reason: Bytes, lines: seq<Bytes>, h: Head)
    requires StatusOk(200, reason) && forall i :: 0 <= i < |lines| ==> OneLine(lines[i])
    requires HeaderLines(StreamField, EMPTY_HEAD, lines) == Ok(h) && h.length.Some?
    ensures ParseStreamHead(HeadBytes(200, reason, lines)) == Ok(StreamHead(200, h.headers, h.length.value))
  {
    HeadLines(200, reason, lines);
    StreamHeadOf(HeadBytes(200, reason, lines), reason, h);
  }

  lemma DecodeFrom(head: Bytes, payload: Bytes, endOfStream: bool, status: nat, reason: Bytes, h: Head)
    requires ParseHead(head) == Ok((status, reason, h)) && |head| + 4 <= MAX_HEADER_BYTES
    ensures Decode(head + BLANK + payload, endOfStream)
         == var body := Body(status, h, payload, endOfStream);
            if body.Err? then Err(body.error) else Ok(Response(status, reason, h.headers, body.value))
  {
    var m := head + BLANK + payload;
    HeadBlank(head);
    FindExtends(head + BLANK, payload, BLANK);
    assert m[..|head|] == head && m[|head| + 4..] == payload;
  }

  // ---------------------------------------------------------------- a length

  /** A Content-Length line in any spelling, with any blanks around the number. */
  predicate LengthLine(line: Bytes, name: Bytes, before: Bytes, after: Bytes, n: nat) {
    && line == FieldLine(name, before, Decimal(n), after) && |line| <= MAX_HEADER_LINE_LEN
    && Lower(name) == CONTENT_LENGTH && Blanks(before) && Blanks(after) && n <= MAX_U64
  }

  lemma DecimalValue(n: nat)
    ensures ValueOk(Decimal(n)) && Ascii(Decimal(n))
  {
    DecimalReads(n);
  }

  lemma LengthParses(line: Bytes, name: Bytes, before: Bytes, after: Bytes, n: nat)
    requires LengthLine(line, name, before, after, n)
    ensures ParseHeader(line) == Ok((name, Decimal(n))) && OneLine(line) && FieldOf(name) == Length
    ensures ParseU64(Decimal(n)) == Some(n)
  {
    FramingNames();
    SpelledName(name, CONTENT_LENGTH);
    DecimalValue(n);
    FieldReads(name, before, Decimal(n), after);
    FieldIsOneLine(name, before, Decimal(n), after);
    NumberReads(n);
  }

  /** The head with the length added. */
  function WithLength(h: Head, n: nat): Head {
    h.(headers := h.headers + [(CONTENT_LENGTH, Decimal(n))], length := Some(n))
  }

  lemma LengthAdds(h: Head, line: Bytes, name: Bytes, before: Bytes, after: Bytes, n: nat)
    requires LengthLine(line, name, before, after, n) && h.length.None? && |h.headers| < MAX_HEADER_COUNT
    ensures HeaderLine(StreamField, h, line) == Ok(WithLength(h, n))
    ensures n <= MAX_BODY_BYTES ==> HeaderLine(BufferedField, h, line) == Ok(WithLength(h, n))
  {
    LengthParses(line, name, before, after, n);
  }

  lemma OneMore(others: seq<Bytes>, line: Bytes)
    requires (forall i :: 0 <= i < |others| ==> OneLine(others[i])) && OneLine(line)
    ensures forall i :: 0 <= i < |others| + 1 ==> OneLine((others + [line])[i])
  {
  }

  /**
   * Any body of at most 4 MiB behind any status that has one, any headers without framing and a
   * Content-Length in any spelling decodes to that status, reason and body, and to those headers.
   */
  lemma LengthResponse(status: nat, reason: Bytes, others: seq<Bytes>, h: Head, line: Bytes, name: Bytes,
                       before: Bytes, after: Bytes, body: Bytes, endOfStream: bool)
    requires StatusOk(status, reason) && !NoBody(status) && Unframed(BufferedField, others, h)
    requires LengthLine(line, name, before, after, |body|) && |h.headers| < MAX_HEADER_COUNT
    requires |HeadBytes(status, reason, others + [line])| + 4 <= MAX_HEADER_BYTES && |body| <= MAX_BODY_BYTES
    ensures Decode(HeadBytes(status, reason, others + [line]) + BLANK + body, endOfStream)
         == Ok(Response(status, reason, h.headers + [(CONTENT_LENGTH, Decimal(|body|))], body))
  {
    LengthParses(line, name, before, after, |body|);
    LengthAdds(h, line, name, before, after, |body|);
    HeaderSnoc(BufferedField, EMPTY_HEAD, others, line, h);
    OneMore(others, line);
    BufferedHead(status, reason, others + [line], WithLength(h, |body|));
    DecodeFrom(HeadBytes(status, reason, others + [line]), body, endOfStream, status, reason, WithLength(h, |body|));
  }

  /** The same in the streaming decoder, for a 200, at any 64-bit length and however it is cut. */
  lemma LengthDownload(reason: Bytes, others: seq<Bytes>, h: Head, line: Bytes, name: Bytes, before: Bytes, after: Bytes,
                       body: Bytes, pieces: seq<Bytes>)
    requires StatusOk(200, reason) && Unframed(StreamField, others, h)
    requires LengthLine(line, name, before, after, |body|) && |h.headers| < MAX_HEADER_COUNT
    requires |HeadBytes(200, reason, others + [line])| + 4 <= MAX_HEADER_BYTES
    requires Concat(pieces) == HeadBytes(200, reason, others + [line]) + BLANK + body
    ensures Download(pieces)
         == Outcome(None, Some(StreamHead(200, h.headers + [(CONTENT_LENGTH, Decimal(|body|))], |body|)), body)
  {
    var head := HeadBytes(200, reason, others + [line]);
    LengthParses(line, name, before, after, |body|);
    LengthAdds(h, line, name, before, after, |body|);
    HeaderSnoc(StreamField, EMPTY_HEAD, others, line, h);
    OneMore(others, line);
    StreamedHead(reason, others + [line], WithLength(h, |body|));
    StreamFrom(head, body, pieces, StreamHead(200, WithLength(h, |body|).headers, |body|));
  }

  /** A streamed head holds no blank line. */
  lemma StreamBlank(head: Bytes)
    requires ParseStreamHead(head).Ok?
    ensures Find(head + BLANK, BLANK) == Some(|head|)
  {
    StreamLines(head);
    LinesNotEmpty(StreamField, Lines(head));
    BlankBehind(head);
  }

  lemma StreamLines(head: Bytes)
    requires ParseStreamHead(head).Ok?
    ensures var lines := Lines(head);
      ParseStatusLine(lines[0]).Ok? && HeaderLines(StreamField, EMPTY_HEAD, lines[1..]).Ok?
  {
  }

  lemma LinesNotEmpty(rule: FieldRule, lines: seq<Bytes>)
    requires lines != [] && ParseStatusLine(lines[0]).Ok? && HeaderLines(rule, EMPTY_HEAD, lines[1..]).Ok?
    ensures NoEmpty(lines)
  {
    FieldsNotEmpty(rule, EMPTY_HEAD, lines[1..]);
    StatusNotEmpty(lines[0]);
    assert lines == [lines[0]] + lines[1..];
  }

  lemma StreamFrom(head: Bytes, body: Bytes, pieces: seq<Bytes>, sh: StreamHead)
    requires ParseStreamHead(head) == Ok(sh) && |head| + 4 <= MAX_HEADER_BYTES && sh.length == |body|
    requires Concat(pieces) == head + BLANK + body
    ensures Download(pieces) == Outcome(None, Some(sh), body)
  {
    var m := head + BLANK + body;
    StreamBlank(head);
    FindExtends(head + BLANK, body, BLANK);
    assert m[..|head|] == head && m[|head| + 4..] == body;
    OnePiece(pieces);
    AcceptsHead(ParseStreamHead, m, |head|, sh);
  }

  // ---------------------------------------------------------------- chunks, and neither

  /** A Transfer-Encoding line for chunks, in any spelling. */
  predicate ChunkedLine(line: Bytes, name: Bytes, before: Bytes, value: Bytes, after: Bytes) {
    && line == FieldLine(name, before, value, after) && |line| <= MAX_HEADER_LINE_LEN
    && Lower(name) == TRANSFER_ENCODING && Lower(value) == CHUNKED && Blanks(before) && Blanks(after)
  }

  lemma SpelledValue(value: Bytes, key: Bytes)
    requires Lower(value) == key && LowerName(key)
    ensures ValueOk(value) && Ascii(value)
  {
    forall i | 0 <= i < |value| ensures 45 <= value[i] <= 122 { assert Lower(value)[i] == LowerByte(value[i]); }
  }

  lemma ChunkedParses(line: Bytes, name: Bytes, before: Bytes, value: Bytes, after: Bytes)
    requires ChunkedLine(line, name, before, value, after)
    ensures ParseHeader(line) == Ok((name, value)) && OneLine(line) && FieldOf(name) == Transfer
  {
    FramingNames();
    SpelledName(name, TRANSFER_ENCODING);
    assert LowerName(CHUNKED);
    SpelledValue(value, CHUNKED);
    FieldReads(name, before, value, after);
    FieldIsOneLine(name, before, value, after);
  }

  function WithChunked(h: Head, value: Bytes): Head {
    h.(headers := h.headers + [(TRANSFER_ENCODING, value)], chunked := true)
  }

  lemma ChunkedAdds(h: Head, line: Bytes, name: Bytes, before: Bytes, value: Bytes, after: Bytes)
    requires ChunkedLine(line, name, before, value, after) && !h.chunked && |h.headers| < MAX_HEADER_COUNT
    ensures HeaderLine(BufferedField, h, line) == Ok(WithChunked(h, value))
  {
    ChunkedParses(line, name, before, value, after);
  }

  /** The same for a body in chunks. */
  lemma TransferResponse(status: nat, reason: Bytes, others: seq<Bytes>, h: Head, line: Bytes, name: Bytes,
                         before: Bytes, value: Bytes, after: Bytes, cs: seq<Chunk>, e: Ending, endOfStream: bool)
    requires StatusOk(status, reason) && !NoBody(status) && Unframed(BufferedField, others, h)
    requires ChunkedLine(line, name, before, value, after) && |h.headers| < MAX_HEADER_COUNT
    requires |HeadBytes(status, reason, others + [line])| + 4 <= MAX_HEADER_BYTES
    requires (forall i :: 0 <= i < |cs| ==> ChunkOk(cs[i])) && EndingOk(e) && |Data(cs)| <= MAX_BODY_BYTES
    ensures Decode(HeadBytes(status, reason, others + [line]) + BLANK + Encode(cs, e), endOfStream)
         == Ok(Response(status, reason, h.headers + [(TRANSFER_ENCODING, value)], Data(cs)))
  {
    ChunkedParses(line, name, before, value, after);
    ChunkedAdds(h, line, name, before, value, after);
    HeaderSnoc(BufferedField, EMPTY_HEAD, others, line, h);
    OneMore(others, line);
    BufferedHead(status, reason, others + [line], WithChunked(h, value));
    ChunkedResponse(HeadBytes(status, reason, others + [line]), cs, e, endOfStream, status, reason, WithChunked(h, value));
  }

  /**
   * Without framing a body lasts to the end of the stream: it is incomplete before, and then
   * exactly what was sent, up to 4 MiB; a status without a body has none.
   */
  lemma CloseResponse(status: nat, reason: Bytes, others: seq<Bytes>, h: Head, body: Bytes, endOfStream: bool)
    requires StatusOk(status, reason) && Unframed(BufferedField, others, h)
    requires |HeadBytes(status, reason, others)| + 4 <= MAX_HEADER_BYTES
    ensures Decode(HeadBytes(status, reason, others) + BLANK + body, endOfStream)
         == if NoBody(status) then (if body == [] then Ok(Response(status, reason, h.headers, [])) else Err(TrailingData))
            else if !endOfStream then Err(Incomplete)
            else if |body| <= MAX_BODY_BYTES then Ok(Response(status, reason, h.headers, body))
            else Err(BodyTooLarge)
  {
    BufferedHead(status, reason, others, h);
    DecodeFrom(HeadBytes(status, reason, others), body, endOfStream, status, reason, h);
  }
}
