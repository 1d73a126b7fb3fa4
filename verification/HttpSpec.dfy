/** HTTP/1.1 responses on byte strings: the head, the chunked body, and both decoders. */
module HttpSpec {
  import opened Machine
  import opened Text

  type Bytes = seq<byte>

  const MAX_STATUS_LINE_LEN := 1024
  const MAX_HEADER_LINE_LEN := 4096
  const MAX_HEADER_COUNT := 64
  const MAX_HEADER_BYTES := 16384
  const MAX_TRAILER_BYTES := 8192
  const MAX_BODY_BYTES := 0x40_0000
  const MAX_CHUNK_BYTES := 0x4_0000
  const MAX_U64 := 0xFFFF_FFFF_FFFF_FFFF

  const CR: byte := 13
  const LF: byte := 10
  const CRLF: Bytes := [13, 10]
  const BLANK: Bytes := [13, 10, 13, 10]
  // "HTTP/1.1", "content-length", "transfer-encoding", "content-encoding", "chunked", "identity"
  const VERSION: Bytes := [72, 84, 84, 80, 47, 49, 46, 49]
  const CONTENT_LENGTH: Bytes := [99, 111, 110, 116, 101, 110, 116, 45, 108, 101, 110, 103, 116, 104]
  const TRANSFER_ENCODING: Bytes :=
    [116, 114, 97, 110, 115, 102, 101, 114, 45, 101, 110, 99, 111, 100, 105, 110, 103]
  const CONTENT_ENCODING: Bytes := [99, 111, 110, 116, 101, 110, 116, 45, 101, 110, 99, 111, 100, 105, 110, 103]
  const CHUNKED: Bytes := [99, 104, 117, 110, 107, 101, 100]
  const IDENTITY: Bytes := [105, 100, 101, 110, 116, 105, 116, 121]

  datatype HttpError =
    | Incomplete | UnexpectedEnd | HeadersTooLarge | TooManyHeaders | InvalidStatusLine | InvalidStatusCode
    | UnsupportedHttpVersion | InvalidResponseHeader | ConflictingContentLength | ConflictingFraming
    | UnsupportedTransferEncoding | UnsupportedContentEncoding | RedirectUnsupported | UnexpectedStatus
    | BodyTooLarge | TrailingData | InvalidChunkSize | ChunkTooLarge | InvalidChunkTerminator | TrailersTooLarge
    | StreamPoisoned

  datatype Response = Response(status: nat, reason: Bytes, headers: seq<(Bytes, Bytes)>, body: Bytes)

  // ---------------------------------------------------------------- text

  /** The first place a byte string contains another. */
  function Find(s: Bytes, needle: Bytes): (r: Option<nat>)
    ensures r.Some? ==> r.value + |needle| <= |s|
  {
    if |s| < |needle| then None
    else if s[..|needle|] == needle then Some(0)
    else if s == [] then None
    else
      var rest := Find(s[1..], needle);
      if rest.None? then None else Some(rest.value + 1)
  }

  /** The lines between line ends: always at least one. */
  function Lines(s: Bytes): (ls: seq<Bytes>)
    ensures |ls| > 0
    decreases |s|
  {
    var p := Find(s, CRLF);
    if p.None? then [s] else [s[..p.value]] + Lines(s[p.value + 2..])
  }

  function LowerByte(b: byte): byte {
    if 65 <= b <= 90 then b + 32 else b
  }

  function Lower(s: Bytes): (r: Bytes)
    ensures |r| == |s|
  {
    seq(|s|, i requires 0 <= i < |s| => LowerByte(s[i]))
  }

  predicate IsDigit(b: byte) {
    48 <= b <= 57
  }

  function Digits(s: Bytes): Option<nat>
  {
    if s == [] then Some(0)
    else
      var before := Digits(s[..|s| - 1]);
      if before.None? || !IsDigit(s[|s| - 1]) then None else Some(before.value * 10 + (s[|s| - 1] - 48))
  }

  /** An unsigned 64-bit decimal: an optional plus sign, digits, no overflow. */
  function ParseU64(s: Bytes): Option<nat> {
    var digits := if s != [] && s[0] == 43 then s[1..] else s;
    if digits == [] then None
    else
      var v := Digits(digits);
      if v.None? || v.value > MAX_U64 then None else v
  }

  function HexDigit(b: byte): Option<nat> {
    if IsDigit(b) then Some(b - 48)
    else if 97 <= b <= 102 then Some(b - 87)
    else if 65 <= b <= 70 then Some(b - 55)
    else None
  }

  function HexDigits(s: Bytes): Option<nat>
  {
    if s == [] then Some(0)
    else
      var before, last := HexDigits(s[..|s| - 1]), HexDigit(s[|s| - 1]);
      if before.None? || last.None? then None else Some(before.value * 16 + last.value)
  }

  /** A chunk size of at most 16 bytes: an optional plus sign and hexadecimal digits. */
  function ParseHex(s: Bytes): Option<nat> {
    var digits := if s != [] && s[0] == 43 then s[1..] else s;
    if digits == [] then None else HexDigits(digits)
  }

  /** Where a byte first occurs, or the length. */
  function IndexOf(s: Bytes, b: byte): (i: nat)
    ensures i <= |s|
  {
    if s == [] || s[0] == b then 0 else 1 + IndexOf(s[1..], b)
  }

  predicate IsBlank(b: byte) {
    b == 32 || b == 9
  }

  function Trim(s: Bytes): Bytes {
    if s != [] && IsBlank(s[0]) then Trim(s[1..])
    else if s != [] && IsBlank(s[|s| - 1]) then Trim(s[..|s| - 1])
    else s
  }

  // ---------------------------------------------------------------- the head

  predicate IsToken(b: byte) {
    || IsDigit(b) || 65 <= b <= 90 || 97 <= b <= 122
    || b in {33, 35, 36, 37, 38, 39, 42, 43, 45, 46, 94, 95, 96, 124, 126}
  }

  predicate HasControl(s: Bytes) {
    exists i :: 0 <= i < |s| && (s[i] < 32 || s[i] == 127)
  }

  function ParseStatusLine(line: Bytes): Result<(nat, Bytes), HttpError> {
    var first := IndexOf(line, 32);
    if |line| > MAX_STATUS_LINE_LEN then Err(InvalidStatusLine)
    else if line[..first] != VERSION then Err(UnsupportedHttpVersion)
    else if first == |line| then Err(InvalidStatusLine)
    else
      var rest := line[first + 1..];
      var second := IndexOf(rest, 32);
      var status := Digits(rest[..second]);
      var reason := if second == |rest| then [] else rest[second + 1..];
      if second != 3 || status.None? || !(100 <= status.value <= 599) then Err(InvalidStatusCode)
      else if HasControl(reason) then Err(InvalidStatusLine)
      else Ok((status.value, reason))
  }

  function ParseHeader(line: Bytes): Result<(Bytes, Bytes), HttpError> {
    var colon := IndexOf(line, 58);
    if colon == |line| then Err(InvalidResponseHeader)
    else
      var name, value := line[..colon], Trim(line[colon + 1..]);
      if name == [] || exists i :: 0 <= i < |name| && !IsToken(name[i]) then Err(InvalidResponseHeader)
      else if exists i :: 0 <= i < |value| && ((value[i] < 32 && value[i] != 9) || value[i] == 127)
      then Err(InvalidResponseHeader)
      else Ok((name, value))
  }

  /** The header fields that frame a body. */
  datatype Field = Length | Transfer | Coding | Other

  function FieldOf(name: Bytes): Field {
    if Lower(name) == CONTENT_LENGTH then Length
    else if Lower(name) == TRANSFER_ENCODING then Transfer
    else if Lower(name) == CONTENT_ENCODING then Coding
    else Other
  }

  predicate NoBody(status: nat) {
    100 <= status < 200 || status == 204 || status == 304
  }

  /** What the header lines of a response have said so far. */
  datatype Head = Head(headers: seq<(Bytes, Bytes)>, length: Option<nat>, chunked: bool)

  /** One header field in the buffered decoder. */
  function BufferedField(h: Head, field: Field, name: Bytes, value: Bytes): Result<Head, HttpError> {
    var parsed := ParseU64(value);
    var added := h.(headers := h.headers + [(Lower(name), value)]);
    match field
    case Length =>
      if parsed.None? then Err(ConflictingContentLength)
      else if parsed.value > MAX_BODY_BYTES then Err(BodyTooLarge)
      else if h.length.Some? && h.length != parsed then Err(ConflictingContentLength)
      else Ok(added.(length := parsed))
    case Transfer =>
      if Lower(value) != CHUNKED || h.chunked then Err(UnsupportedTransferEncoding)
      else Ok(added.(chunked := true))
    case _ => Ok(added)
  }

  /** One header field in the streaming decoder. */
  function StreamField(h: Head, field: Field, name: Bytes, value: Bytes): Result<Head, HttpError> {
    var parsed := ParseU64(value);
    var added := h.(headers := h.headers + [(Lower(name), value)]);
    match field
    case Transfer => Err(UnsupportedTransferEncoding)
    case Coding => if Lower(value) != IDENTITY then Err(UnsupportedContentEncoding) else Ok(added)
    case Length =>
      if parsed.None? || (h.length.Some? && h.length != parsed) then Err(ConflictingContentLength)
      else Ok(added.(length := parsed))
    case Other => Ok(added)
  }

  type FieldRule = (Head, Field, Bytes, Bytes) -> Result<Head, HttpError>

  /** A header line: its size, the number of headers, its syntax, then the decoder's rule for its field. */
  function HeaderLine(rule: FieldRule, h: Head, line: Bytes): Result<Head, HttpError> {
    if |line| > MAX_HEADER_LINE_LEN then Err(HeadersTooLarge)
    else if |h.headers| >= MAX_HEADER_COUNT then Err(TooManyHeaders)
    else
      var parsed := ParseHeader(line);
      if parsed.Err? then Err(parsed.error)
      else rule(h, FieldOf(parsed.value.0), parsed.value.0, parsed.value.1)
  }

  function HeaderLines(rule: FieldRule, h: Head, lines: seq<Bytes>): Result<Head, HttpError>
    decreases |lines|
  {
    if lines == [] then Ok(h)
    else
      var next := HeaderLine(rule, h, lines[0]);
      if next.Err? then next else HeaderLines(rule, next.value, lines[1..])
  }

  const EMPTY_HEAD := Head([], None, false)

  datatype StreamHead = StreamHead(status: nat, headers: seq<(Bytes, Bytes)>, length: nat)

  /** The head of a streamed response, from the bytes before the blank line. */
  function ParseStreamHead(head: Bytes): Result<StreamHead, HttpError> {
    if !ValidUtf8(head) then Err(InvalidResponseHeader)
    else
      var lines := Lines(head);
      var status := ParseStatusLine(lines[0]);
      if status.Err? then Err(status.error)
      else if status.value.0 in {301, 302, 303, 307, 308} then Err(RedirectUnsupported)
      else if status.value.0 != 200 then Err(UnexpectedStatus)
      else
        var h := HeaderLines(StreamField, EMPTY_HEAD, lines[1..]);
        if h.Err? then Err(h.error)
        else if h.value.length.None? then Err(ConflictingContentLength)
        else Ok(StreamHead(status.value.0, h.value.headers, h.value.length.value))
  }

  /** The head of a buffered response: status, reason and what its headers say. */
  function ParseHead(head: Bytes): Result<(nat, Bytes, Head), HttpError> {
    if !ValidUtf8(head) then Err(InvalidResponseHeader)
    else
      var lines := Lines(head);
      var status := ParseStatusLine(lines[0]);
      if status.Err? then Err(status.error)
      else
        var h := HeaderLines(BufferedField, EMPTY_HEAD, lines[1..]);
        if h.Err? then Err(h.error)
        else if h.value.chunked && h.value.length.Some? then Err(ConflictingFraming)
        else Ok((status.value.0, status.value.1, h.value))
  }

  // ---------------------------------------------------------------- the body

  function Short(endOfStream: bool): HttpError {
    if endOfStream then UnexpectedEnd else Incomplete
  }

  /** The size a chunk line announces. */
  function ChunkSize(line: Bytes): Result<nat, HttpError> {
    var text := line[..IndexOf(line, 59)];
    if |line| > MAX_HEADER_LINE_LEN || !ValidUtf8(line) || text == [] || |text| > 16 then Err(InvalidChunkSize)
    else
      var size := ParseHex(text);
      if size.None? then Err(InvalidChunkSize)
      else if size.value > MAX_CHUNK_BYTES then Err(ChunkTooLarge)
      else Ok(size.value)
  }

  function TrailerLines(lines: seq<Bytes>, count: nat): Option<HttpError> {
    if lines == [] then None
    else if count + 1 > MAX_HEADER_COUNT || |lines[0]| > MAX_HEADER_LINE_LEN then Some(TrailersTooLarge)
    else
      var parsed := ParseHeader(lines[0]);
      if parsed.Err? then Some(parsed.error) else TrailerLines(lines[1..], count + 1)
  }

  /** What is wrong with a trailer section that ends in a blank line, without that blank line. */
  function CheckTrailers(content: Bytes): Option<HttpError> {
    if !ValidUtf8(content) then Some(InvalidResponseHeader) else TrailerLines(Lines(content), 0)
  }

  /** How a chunked body reads its size lines and its trailer section. */
  datatype ChunkRules = ChunkRules(size: Bytes -> Result<nat, HttpError>, trailers: Bytes -> Option<HttpError>)

  const CHUNK_RULES := ChunkRules(ChunkSize, CheckTrailers)

  /** After the last chunk: the trailers, then nothing. */
  function Trailers(rules: ChunkRules, rest: Bytes, endOfStream: bool): Option<HttpError> {
    var blank := Find(rest, BLANK);
    if blank.Some? then
      if blank.value + 4 > MAX_TRAILER_BYTES then Some(TrailersTooLarge)
      else
        var bad := rules.trailers(rest[..blank.value]);
        if bad.Some? then bad else if blank.value + 4 != |rest| then Some(TrailingData) else None
    else if |rest| >= 2 && rest[..2] == CRLF then (if |rest| != 2 then Some(TrailingData) else None)
    else Some(Short(endOfStream))
  }

  /** The chunk at the front: its data (none for the last chunk) and what follows it. */
  function TakeChunk(rules: ChunkRules, rest: Bytes, endOfStream: bool): (r: Result<(Bytes, Bytes), HttpError>)
    ensures r.Ok? ==> |r.value.1| < |rest|
  {
    var lineEnd := Find(rest, CRLF);
    if lineEnd.None? then Err(Short(endOfStream))
    else
      var size := rules.size(rest[..lineEnd.value]);
      if size.Err? then Err(size.error)
      else
        var after := rest[lineEnd.value + 2..];
        if size.value == 0 then Ok(([], after))
        else if size.value + 2 > |after| then Err(Short(endOfStream))
        else if after[size.value..size.value + 2] != CRLF then Err(InvalidChunkTerminator)
        else Ok((after[..size.value], after[size.value + 2..]))
  }

  /** The chunks from here on, after the body decoded so far. */
  function Chunks(rules: ChunkRules, rest: Bytes, body: Bytes, endOfStream: bool): Result<Bytes, HttpError>
    decreases |rest|
  {
    var chunk := TakeChunk(rules, rest, endOfStream);
    if chunk.Err? then Err(chunk.error)
    else if chunk.value.0 == [] then
      var bad := Trailers(rules, chunk.value.1, endOfStream);
      if bad.Some? then Err(bad.value) else Ok(body)
    else if |body| + |chunk.value.0| > MAX_BODY_BYTES then Err(BodyTooLarge)
    else Chunks(rules, chunk.value.1, body + chunk.value.0, endOfStream)
  }

  function Body(status: nat, h: Head, payload: Bytes, endOfStream: bool): Result<Bytes, HttpError> {
    if NoBody(status) then (if payload != [] then Err(TrailingData) else Ok([]))
    else if h.chunked then Chunks(CHUNK_RULES, payload, [], endOfStream)
    else if h.length.Some? then
      if |payload| < h.length.value then Err(Short(endOfStream))
      else if |payload| != h.length.value then Err(TrailingData)
      else Ok(payload)
    else if !endOfStream then Err(Incomplete)
    else if |payload| > MAX_BODY_BYTES then Err(BodyTooLarge)
    else Ok(payload)
  }

  /** The response with a parsed head and a payload. */
  function WithBody(
    head: Result<(nat, Bytes, Head), HttpError>, payload: Bytes, endOfStream: bool): Result<Response, HttpError>
  {
    if head.Err? then Err(head.error)
    else
      var (status, reason, h) := head.value;
      var body := Body(status, h, payload, endOfStream);
      if body.Err? then Err(body.error) else Ok(Response(status, reason, h.headers, body.value))
  }

  /** The buffered decoder. */
  function Decode(bytes: Bytes, endOfStream: bool): Result<Response, HttpError> {
    var end := Find(bytes, BLANK);
    if end.None? then
      (if |bytes| > MAX_HEADER_BYTES then Err(HeadersTooLarge) else Err(Short(endOfStream)))
    else if end.value + 4 > MAX_HEADER_BYTES then Err(HeadersTooLarge)
    else WithBody(ParseHead(bytes[..end.value]), bytes[end.value + 4..], endOfStream)
  }

  // ---------------------------------------------------------------- the streaming decoder

  datatype Stream = Stream(header: Bytes, head: Option<StreamHead>, remaining: nat, failed: bool)

  const FRESH := Stream([], None, 0, false)

  predicate EndsWith(s: Bytes, tail: Bytes) {
    |s| >= |tail| && s[|s| - |tail|..] == tail
  }

  predicate EndsBlank(s: Bytes) {
    |s| >= 4 && EndsWith(s, BLANK)
  }

  type HeadParser = Bytes -> Result<StreamHead, HttpError>

  /** The header phase: the state, what is left of the input, and an error. */
  function Header(parse: HeadParser, st: Stream, bytes: Bytes): (Stream, Bytes, Option<HttpError>)
    decreases |bytes|
  {
    if bytes == [] then (st, [], None)
    else if |st.header| == MAX_HEADER_BYTES then (st, bytes, Some(HeadersTooLarge))
    else
      var header := st.header + [bytes[0]];
      if EndsBlank(header) then
        var head := parse(header[..|header| - 4]);
        if head.Err? then (st.(header := header), bytes[1..], Some(head.error))
        else (st.(header := [], head := Some(head.value), remaining := head.value.length), bytes[1..], None)
      else Header(parse, st.(header := header), bytes[1..])
  }

  /** The body phase: the state, what the sink gets, and an error. */
  function Payload(st: Stream, bytes: Bytes): (Stream, Bytes, Option<HttpError>) {
    if st.head.None? || bytes == [] then (st, [], None)
    else if |bytes| > st.remaining then (st, [], Some(TrailingData))
    else (st.(remaining := st.remaining - |bytes|), bytes, None)
  }

  function FeedInner(parse: HeadParser, st: Stream, bytes: Bytes): (Stream, Bytes, Option<HttpError>) {
    if st.head.Some? then Payload(st, bytes)
    else
      var (after, rest, bad) := Header(parse, st, bytes);
      if bad.Some? then (after, [], bad) else Payload(after, rest)
  }

  /** One call of `feed` with a sink that always accepts. */
  function Feed(parse: HeadParser, st: Stream, bytes: Bytes): (Stream, Bytes, Option<HttpError>) {
    if st.failed then (st, [], Some(StreamPoisoned))
    else
      var (after, sunk, bad) := FeedInner(parse, st, bytes);
      (if bad.Some? then after.(failed := true) else after, sunk, bad)
  }

  predicate Complete(st: Stream) {
    !st.failed && st.head.Some? && st.remaining == 0
  }

  function Finish(st: Stream): (Stream, Option<HttpError>) {
    if st.failed then (st, Some(StreamPoisoned))
    else if Complete(st) then (st, None)
    else (st.(failed := true), Some(UnexpectedEnd))
  }
}
