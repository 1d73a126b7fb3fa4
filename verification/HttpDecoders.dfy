/** Both decoders as the loops and the mutable object they are, tied to `HttpSpec`. */
module HttpDecoders {
  import opened Machine
  import opened HttpSpec
  import opened Text

  /** A Content-Length response parsed without keeping its body; its sink always accepts. */
  class StreamingResponseDecoder {
    var headerBytes: Bytes
    var head: Option<StreamHead>
    var remaining: nat
    var failed: bool

    function View(): Stream
      reads this
    {
      Stream(headerBytes, head, remaining, failed)
    }

    constructor ()
      ensures View() == FRESH
    {
      headerBytes, head, remaining, failed := [], None, 0, false;
    }

    predicate IsComplete()
      reads this
    {
      !failed && head.Some? && remaining == 0
    }

    method Feed(bytes: Bytes) returns (sunk: Bytes, bad: Option<HttpError>)
      modifies this
      ensures (View(), sunk, bad) == HttpSpec.Feed(ParseStreamHead, old(View()), bytes)
    {
      if failed { return [], Some(StreamPoisoned); }
      sunk, bad := FeedInner(bytes);
      if bad.Some? { failed := true; }
    }

    method FeedInner(input: Bytes) returns (sunk: Bytes, bad: Option<HttpError>)
      modifies this
      ensures (View(), sunk, bad) == HttpSpec.FeedInner(ParseStreamHead, old(View()), input)
    {
      var bytes := input;
      if head.None? {
        bytes, bad := ReadHeader(input);
        if bad.Some? { return [], bad; }
      }
      if head.Some? && bytes != [] {
        if |bytes| > remaining { return [], Some(TrailingData); }
        remaining := remaining - |bytes|;
        return bytes, None;
      }
      return [], None;
    }

    method ReadHeader(input: Bytes) returns (bytes: Bytes, bad: Option<HttpError>)
      requires head.None?
      modifies this
      ensures (View(), bytes, bad) == HttpSpec.Header(ParseStreamHead, old(View()), input)
    {
      bytes := input;
      while bytes != []
        invariant head.None?
        invariant HttpSpec.Header(ParseStreamHead, View(), bytes)
               == HttpSpec.Header(ParseStreamHead, old(View()), input)
        decreases |bytes|
      {
        if |headerBytes| == MAX_HEADER_BYTES { return bytes, Some(HeadersTooLarge); }
        headerBytes := headerBytes + [bytes[0]];
        bytes := bytes[1..];
        if EndsBlank(headerBytes) {
          var parsed := ReadStreamHead(headerBytes[..|headerBytes| - 4]);
          if parsed.Err? { return bytes, Some(parsed.error); }
          remaining, head, headerBytes := parsed.value.length, Some(parsed.value), [];
          return bytes, None;
        }
      }
      bad := None;
    }

    method Finish() returns (bad: Option<HttpError>)
      modifies this
      ensures (View(), bad) == HttpSpec.Finish(old(View()))
    {
      if failed { return Some(StreamPoisoned); }
      if IsComplete() { return None; }
      failed := true;
      return Some(UnexpectedEnd);
    }
  }

  method FindSequence(s: Bytes, needle: Bytes) returns (r: Option<nat>)
    requires needle != []
    ensures r == Find(s, needle)
  {
    var i := 0;
    while i + |needle| <= |s|
      invariant i <= |s|
      invariant Find(s, needle) == if Find(s[i..], needle).None? then None else Some(Find(s[i..], needle).value + i)
    {
      assert s[i..][..|needle|] == s[i..i + |needle|] && s[i..][1..] == s[i + 1..];
      if s[i..i + |needle|] == needle { return Some(i); }
      i := i + 1;
    }
    r := None;
  }

  lemma ChunksEnd(rules: ChunkRules, rest: Bytes, body: Bytes, endOfStream: bool, tail: Bytes)
    requires TakeChunk(rules, rest, endOfStream) == Ok(([], tail))
    ensures var bad := Trailers(rules, tail, endOfStream);
      Chunks(rules, rest, body, endOfStream) == if bad.Some? then Err(bad.value) else Ok(body)
  {
  }

  lemma ChunksMore(rules: ChunkRules, rest: Bytes, body: Bytes, endOfStream: bool, data: Bytes, tail: Bytes)
    requires TakeChunk(rules, rest, endOfStream) == Ok((data, tail)) && data != []
    ensures Chunks(rules, rest, body, endOfStream)
         == if |body| + |data| > MAX_BODY_BYTES then Err(BodyTooLarge)
            else Chunks(rules, tail, body + data, endOfStream)
  {
  }

  lemma TailTail(s: Bytes, i: nat, j: nat)
    requires i + j <= |s|
    ensures s[i..][j..] == s[i + j..]
  {
  }

  /** The chunk loop: a cursor into the payload and the body so far. */
  method DecodeChunked(payload: Bytes, endOfStream: bool) returns (r: Result<Bytes, HttpError>)
    ensures r == Chunks(CHUNK_RULES, payload, [], endOfStream)
  {
    var cursor, body := 0, [];
    ghost var rules := CHUNK_RULES;
    ghost var rest, want := payload, Chunks(rules, payload, [], endOfStream);
    assert payload[0..] == payload;
    while true
      invariant cursor <= |payload| && rest == payload[cursor..] && Chunks(rules, rest, body, endOfStream) == want
      decreases |payload| - cursor
    {
      var chunk := NextChunk(CHUNK_RULES, payload[cursor..], endOfStream);
      if chunk.Err? { return Err(chunk.error); }
      var (data, used) := chunk.value;
      TailTail(payload, cursor, used);
      cursor := cursor + used;
      if data == [] {
        ChunksEnd(rules, rest, body, endOfStream, payload[cursor..]);
        var bad := EndOfChunks(payload[cursor..], endOfStream);
        return if bad.Some? then Err(bad.value) else Ok(body);
      }
      ChunksMore(rules, rest, body, endOfStream, data, payload[cursor..]);
      if |body| + |data| > MAX_BODY_BYTES { return Err(BodyTooLarge); }
      body := body + data;
      rest := payload[cursor..];
    }
  }

  lemma DataSlices(rest: Bytes, start: nat, size: nat)
    requires start + size + 2 <= |rest|
    ensures rest[start..][..size] == rest[start..start + size]
    ensures rest[start..][size..size + 2] == rest[start + size..start + size + 2]
    ensures rest[start..][size + 2..] == rest[start + size + 2..]
  {
  }

  /** The chunk at the front: its data and how many bytes it takes. */
  method NextChunk(rules: ChunkRules, rest: Bytes, endOfStream: bool) returns (r: Result<(Bytes, nat), HttpError>)
    ensures r.Ok? ==> 0 < r.value.1 <= |rest|
    ensures TakeChunk(rules, rest, endOfStream)
         == if r.Err? then Err(r.error) else Ok((r.value.0, rest[r.value.1..]))
  {
    var lineEnd := FindSequence(rest, CRLF);
    if lineEnd.None? { return Err(Short(endOfStream)); }
    var size := rules.size(rest[..lineEnd.value]);
    if size.Err? { return Err(size.error); }
    var start := lineEnd.value + 2;
    if size.value == 0 { return Ok(([], start)); }
    var dataEnd := start + size.value;
    if dataEnd + 2 > |rest| { return Err(Short(endOfStream)); }
    DataSlices(rest, start, size.value);
    if rest[dataEnd..dataEnd + 2] != CRLF { return Err(InvalidChunkTerminator); }
    r := Ok((rest[start..dataEnd], dataEnd + 2));
  }

  /** The trailers and the end of a chunked body. */
  method EndOfChunks(rest: Bytes, endOfStream: bool) returns (bad: Option<HttpError>)
    ensures bad == Trailers(CHUNK_RULES, rest, endOfStream)
  {
    var blank := FindSequence(rest, BLANK);
    if blank.None? {
      if |rest| < 2 || rest[..2] != CRLF { return Some(Short(endOfStream)); }
      return if |rest| != 2 then Some(TrailingData) else None;
    }
    if blank.value + 4 > MAX_TRAILER_BYTES { return Some(TrailersTooLarge); }
    bad := ValidateTrailers(rest[..blank.value]);
    if bad.None? && blank.value + 4 != |rest| { bad := Some(TrailingData); }
  }

  method ValidateTrailers(content: Bytes) returns (bad: Option<HttpError>)
    ensures bad == CheckTrailers(content)
  {
    if !ValidUtf8(content) { return Some(InvalidResponseHeader); }
    bad := ReadTrailers(Lines(content));
  }

  /** The trailer loop. */
  method ReadTrailers(lines: seq<Bytes>) returns (bad: Option<HttpError>)
    ensures bad == TrailerLines(lines, 0)
  {
    assert lines[0..] == lines;
    for i := 0 to |lines|
      invariant TrailerLines(lines[i..], i) == TrailerLines(lines, 0)
    {
      assert lines[i..][1..] == lines[i + 1..];
      if i + 1 > MAX_HEADER_COUNT || |lines[i]| > MAX_HEADER_LINE_LEN { return Some(TrailersTooLarge); }
      var parsed := ParseHeader(lines[i]);
      if parsed.Err? { return Some(parsed.error); }
    }
    bad := None;
  }

  /** The header loop of either decoder. */
  method ReadHeaders(rule: FieldRule, lines: seq<Bytes>) returns (r: Result<Head, HttpError>)
    ensures r == HeaderLines(rule, EMPTY_HEAD, lines)
  {
    var h := EMPTY_HEAD;
    assert lines[0..] == lines;
    for i := 0 to |lines|
      invariant HeaderLines(rule, h, lines[i..]) == HeaderLines(rule, EMPTY_HEAD, lines)
    {
      assert lines[i..][1..] == lines[i + 1..];
      var next := HeaderLine(rule, h, lines[i]);
      if next.Err? { return next; }
      h := next.value;
    }
    r := Ok(h);
  }

  /** The head of a buffered response. */
  method ReadHead(head: Bytes) returns (r: Result<(nat, Bytes, Head), HttpError>)
    ensures r == ParseHead(head)
  {
    if !ValidUtf8(head) { return Err(InvalidResponseHeader); }
    var lines := Lines(head);
    var status := ParseStatusLine(lines[0]);
    if status.Err? { return Err(status.error); }
    var h := ReadHeaders(BufferedField, lines[1..]);
    if h.Err? { return Err(h.error); }
    if h.value.chunked && h.value.length.Some? { return Err(ConflictingFraming); }
    r := Ok((status.value.0, status.value.1, h.value));
  }

  /** The head of a streamed response. */
  method ReadStreamHead(head: Bytes) returns (r: Result<StreamHead, HttpError>)
    ensures r == ParseStreamHead(head)
  {
    if !ValidUtf8(head) { return Err(InvalidResponseHeader); }
    var lines := Lines(head);
    var status := ParseStatusLine(lines[0]);
    if status.Err? { return Err(status.error); }
    if status.value.0 in {301, 302, 303, 307, 308} { return Err(RedirectUnsupported); }
    if status.value.0 != 200 { return Err(UnexpectedStatus); }
    var h := ReadHeaders(StreamField, lines[1..]);
    if h.Err? { return Err(h.error); }
    if h.value.length.None? { return Err(ConflictingContentLength); }
    r := Ok(StreamHead(status.value.0, h.value.headers, h.value.length.value));
  }

  /** The bytes received so far, decoded on demand. */
  class ResponseDecoder {
    var bytes: Bytes

    constructor ()
      ensures bytes == []
    {
      bytes := [];
    }

    method Feed(more: Bytes) returns (bad: Option<HttpError>)
      modifies this
      ensures bad == if |old(bytes)| + |more| > MAX_HEADER_BYTES + MAX_BODY_BYTES + MAX_TRAILER_BYTES
                     then Some(BodyTooLarge) else None
      ensures bytes == if bad.Some? then old(bytes) else old(bytes) + more
    {
      if |bytes| + |more| > MAX_HEADER_BYTES + MAX_BODY_BYTES + MAX_TRAILER_BYTES { return Some(BodyTooLarge); }
      bytes := bytes + more;
      bad := None;
    }

    method Decode(endOfStream: bool) returns (r: Result<Response, HttpError>)
      ensures r == HttpSpec.Decode(bytes, endOfStream)
    {
      var end := FindSequence(bytes, BLANK);
      if end.None? {
        return if |bytes| > MAX_HEADER_BYTES then Err(HeadersTooLarge) else Err(Short(endOfStream));
      }
      if end.value + 4 > MAX_HEADER_BYTES { return Err(HeadersTooLarge); }
      var head := ReadHead(bytes[..end.value]);
      if head.Err? { return Err(head.error); }
      var (status, reason, h) := head.value;
      var body := DecodeBody(status, h, bytes[end.value + 4..], endOfStream);
      r := if body.Err? then Err(body.error) else Ok(Response(status, reason, h.headers, body.value));
    }
  }

  method DecodeBody(status: nat, h: Head, payload: Bytes, endOfStream: bool) returns (r: Result<Bytes, HttpError>)
    ensures r == Body(status, h, payload, endOfStream)
  {
    if NoBody(status) || !h.chunked { return Body(status, h, payload, endOfStream); }
    r := DecodeChunked(payload, endOfStream);
  }
}
