/** The streaming and the buffered decoder accept the same Content-Length responses, with the same content. */
module HttpAgreement {
  import opened Machine
  import opened HttpSpec
  import opened HttpFraming
  import opened HttpStream

  // ---------------------------------------------------------------- the blank line

  lemma {:induction false} FindFirst(s: Bytes, needle: Bytes, q: nat)
    requires q + |needle| <= |s| && s[q..q + |needle|] == needle
    ensures Find(s, needle).Some? && Find(s, needle).value <= q
  {
    if s[..|needle|] != needle {
      assert q > 0 by { assert s[0..|needle|] == s[..|needle|]; }
      assert s[1..][q - 1..q - 1 + |needle|] == s[q..q + |needle|];
      FindFirst(s[1..], needle, q - 1);
    }
  }

  lemma TailOfPrefix(s: Bytes, k: nat, i: nat)
    requires i <= k <= |s|
    ensures s[..k][i..] == s[i..k]
  {
    forall j | 0 <= j < k - i ensures s[..k][i..][j] == s[i..k][j] {
    }
  }

  lemma EndFound(s: Bytes, k: nat, needle: Bytes)
    requires k <= |s| && EndsWith(s[..k], needle)
    ensures Find(s, needle).Some? && Find(s, needle).value + |needle| <= k
  {
    TailOfPrefix(s, k, k - |needle|);
    FindFirst(s, needle, k - |needle|);
  }

  lemma EndsBlankAt(s: Bytes, k: nat)
    requires k <= |s| && EndsBlank(s[..k])
    ensures k >= 4 && Find(s, BLANK).Some? && Find(s, BLANK).value + 4 <= k
  {
    assert |BLANK| == 4;
    EndFound(s, k, BLANK);
  }

  lemma FoundEnds(s: Bytes, p: nat, needle: Bytes)
    requires p + |needle| <= |s| && s[p..p + |needle|] == needle
    ensures EndsWith(s[..p + |needle|], needle)
  {
    TailOfPrefix(s, p + |needle|, p);
  }

  function Waiting(header: Bytes): Stream {
    Stream(header, None, 0, false)
  }

  function Started(head: StreamHead): Stream {
    Stream([], Some(head), head.length, false)
  }

  /** One more header byte that does not end a blank line. */
  lemma HeaderAdvances(parse: HeadParser, s: Bytes, k: nat)
    requires k < |s| && k < MAX_HEADER_BYTES && !EndsBlank(s[..k + 1])
    ensures Header(parse, Waiting(s[..k]), s[k..]) == Header(parse, Waiting(s[..k + 1]), s[k + 1..])
  {
    assert s[..k] + [s[k]] == s[..k + 1] && s[k..][0] == s[k] && s[k..][1..] == s[k + 1..];
  }

  /** The header byte that ends a blank line. */
  lemma HeaderEnds(parse: HeadParser, s: Bytes, k: nat, head: Result<StreamHead, HttpError>)
    requires 3 <= k < |s| && k < MAX_HEADER_BYTES && EndsBlank(s[..k + 1]) && head == parse(s[..k - 3])
    ensures head.Ok? ==> Header(parse, Waiting(s[..k]), s[k..]) == (Started(head.value), s[k + 1..], None)
    ensures head.Err? ==> Header(parse, Waiting(s[..k]), s[k..]).2.Some?
  {
    var next := s[..k] + [s[k]];
    assert next == s[..k + 1] && s[k..][0] == s[k] && s[k..][1..] == s[k + 1..];
    assert next[..|next| - 4] == s[..k - 3];
  }

  /** No blank line ends here: the first one ends later, or there is none in time. */
  predicate BlankLater(s: Bytes, k: nat) {
    Find(s, BLANK).None? || Find(s, BLANK).value + 4 > k
  }

  lemma AdvanceBefore(parse: HeadParser, s: Bytes, k: nat)
    requires k < |s| && k < MAX_HEADER_BYTES && BlankLater(s, k + 1)
    ensures Header(parse, Waiting(s[..k]), s[k..]) == Header(parse, Waiting(s[..k + 1]), s[k + 1..])
  {
    if EndsBlank(s[..k + 1]) { EndsBlankAt(s, k + 1); }
    HeaderAdvances(parse, s, k);
  }

  lemma StopAt(parse: HeadParser, s: Bytes, p: nat, head: Result<StreamHead, HttpError>)
    requires Find(s, BLANK) == Some(p) && p + 4 <= MAX_HEADER_BYTES && head == parse(s[..p])
    ensures head.Ok? ==> Header(parse, Waiting(s[..p + 3]), s[p + 3..]) == (Started(head.value), s[p + 4..], None)
    ensures head.Err? ==> Header(parse, Waiting(s[..p + 3]), s[p + 3..]).2.Some?
  {
    FindHolds(s, BLANK);
    assert |BLANK| == 4;
    FoundEnds(s, p, BLANK);
    HeaderEnds(parse, s, p + 3, head);
  }

  /** The header phase stops at the first blank line. */
  lemma {:induction false} HeaderStops(
    parse: HeadParser, s: Bytes, k: nat, p: nat, head: Result<StreamHead, HttpError>)
    requires Find(s, BLANK) == Some(p) && k < p + 4 <= MAX_HEADER_BYTES && head == parse(s[..p])
    ensures head.Ok? ==> Header(parse, Waiting(s[..k]), s[k..]) == (Started(head.value), s[p + 4..], None)
    ensures head.Err? ==> Header(parse, Waiting(s[..k]), s[k..]).2.Some?
    decreases p + 4 - k
  {
    if k == p + 3 {
      StopAt(parse, s, p, head);
    } else {
      AdvanceBefore(parse, s, k);
      HeaderStops(parse, s, k + 1, p, head);
    }
  }

  /** The header phase ended without a head. */
  predicate Headless(r: (Stream, Bytes, Option<HttpError>)) {
    r.2.Some? || r.0.head.None?
  }

  lemma HeaderRunsOut(parse: HeadParser, s: Bytes, k: nat)
    requires k <= |s| && (k == |s| || k == MAX_HEADER_BYTES)
    ensures Headless(Header(parse, Waiting(s[..k]), s[k..]))
  {
  }

  /** Without a blank line in time, the header phase never yields a head. */
  lemma {:induction false} HeaderNeedsBlank(parse: HeadParser, s: Bytes, k: nat)
    requires k <= |s| && k <= MAX_HEADER_BYTES && BlankLater(s, MAX_HEADER_BYTES)
    ensures Headless(Header(parse, Waiting(s[..k]), s[k..]))
    decreases |s| - k
  {
    if k == |s| || k == MAX_HEADER_BYTES {
      HeaderRunsOut(parse, s, k);
    } else {
      AdvanceBefore(parse, s, k);
      HeaderNeedsBlank(parse, s, k + 1);
    }
  }

  // ---------------------------------------------------------------- what a download accepts

  lemma DownloadIsFeed(parse: HeadParser, s: Bytes)
    ensures DownloadWith(parse, [s]) == var r := Feed(parse, FRESH, s); Conclude(r.0, r.1, r.2)
  {
    RunIsOneFeed(parse, FRESH, [s]);
    assert Concat([s]) == s + Concat([s][1..]) == s;
    SameConclusion(Run(parse, FRESH, [s]), Feed(parse, FRESH, s));
  }

  lemma FeedBody(parse: HeadParser, head: StreamHead, rest: Bytes)
    ensures var r := Feed(parse, Started(head), rest);
      && (Conclude(r.0, r.1, r.2).error.None? <==> |rest| == head.length)
      && (|rest| == head.length ==> Conclude(r.0, r.1, r.2) == Outcome(None, Some(head), rest))
  {
  }

  lemma DownloadFrom(parse: HeadParser, s: Bytes, head: StreamHead, rest: Bytes)
    requires Header(parse, FRESH, s) == (Started(head), rest, None)
    ensures DownloadWith(parse, [s]).error.None? <==> |rest| == head.length
    ensures |rest| == head.length ==> DownloadWith(parse, [s]) == Outcome(None, Some(head), rest)
  {
    DownloadIsFeed(parse, s);
    FeedHeader(parse, FRESH, s);
    FeedBody(parse, head, rest);
  }

  lemma AcceptsHead(parse: HeadParser, s: Bytes, p: nat, head: StreamHead)
    requires Find(s, BLANK) == Some(p) && p + 4 <= MAX_HEADER_BYTES && parse(s[..p]) == Ok(head)
    ensures DownloadWith(parse, [s]).error.None? <==> |s| == p + 4 + head.length
    ensures |s| == p + 4 + head.length ==> DownloadWith(parse, [s]) == Outcome(None, Some(head), s[p + 4..])
  {
    HeadFound(parse, s, p, head);
    DownloadFrom(parse, s, head, s[p + 4..]);
  }

  lemma HeadFound(parse: HeadParser, s: Bytes, p: nat, head: StreamHead)
    requires Find(s, BLANK) == Some(p) && p + 4 <= MAX_HEADER_BYTES && parse(s[..p]) == Ok(head)
    ensures Header(parse, FRESH, s) == (Started(head), s[p + 4..], None)
  {
    assert s[..0] == [] && s[0..] == s;
    HeaderStops(parse, s, 0, p, Ok(head));
  }

  lemma HeadlessFails(parse: HeadParser, s: Bytes)
    requires Header(parse, FRESH, s).2.Some? || Header(parse, FRESH, s).0.head.None?
    ensures DownloadWith(parse, [s]).error.Some?
  {
    DownloadIsFeed(parse, s);
    FeedHeader(parse, FRESH, s);
    HeaderKeeps(parse, FRESH, s);
  }

  lemma AcceptedShape(parse: HeadParser, s: Bytes) returns (p: nat, head: StreamHead)
    requires DownloadWith(parse, [s]).error.None?
    ensures Find(s, BLANK) == Some(p) && p + 4 <= MAX_HEADER_BYTES && parse(s[..p]) == Ok(head)
    ensures |s| == p + 4 + head.length && DownloadWith(parse, [s]) == Outcome(None, Some(head), s[p + 4..])
  {
    assert s[..0] == [] && s[0..] == s;
    if Find(s, BLANK).None? || Find(s, BLANK).value + 4 > MAX_HEADER_BYTES {
      HeaderNeedsBlank(parse, s, 0);
      HeadlessFails(parse, s);
      assert false;
    }
    p := Find(s, BLANK).value;
    if parse(s[..p]).Err? {
      HeaderStops(parse, s, 0, p, parse(s[..p]));
      HeadlessFails(parse, s);
      assert false;
    }
    head := parse(s[..p]).value;
    AcceptsHead(parse, s, p, head);
  }

  // ---------------------------------------------------------------- the header lines

  lemma {:induction false} StreamKeepsLength(h: Head, lines: seq<Bytes>, h': Head)
    requires HeaderLines(StreamField, h, lines) == Ok(h') && h.length.Some?
    ensures h'.length == h.length
    decreases |lines|
  {
    if lines != [] { StreamKeepsLength(HeaderLine(StreamField, h, lines[0]).value, lines[1..], h'); }
  }

  lemma {:induction false} StreamThenBuffered(h: Head, lines: seq<Bytes>, h': Head)
    requires HeaderLines(StreamField, h, lines) == Ok(h') && !h.chunked
    requires h'.length.Some? && h'.length.value <= MAX_BODY_BYTES
    ensures HeaderLines(BufferedField, h, lines) == Ok(h') && !h'.chunked
    decreases |lines|
  {
    if lines != [] {
      var next := HeaderLine(StreamField, h, lines[0]).value;
      if next.length.Some? { StreamKeepsLength(next, lines[1..], h'); }
      LineThenBuffered(h, lines[0], next);
      StreamThenBuffered(next, lines[1..], h');
    }
  }

  lemma LineThenBuffered(h: Head, line: Bytes, next: Head)
    requires HeaderLine(StreamField, h, line) == Ok(next) && !h.chunked
    requires next.length.Some? ==> next.length.value <= MAX_BODY_BYTES
    ensures HeaderLine(BufferedField, h, line) == Ok(next) && !next.chunked
  {
    var (name, value) := ParseHeader(line).value;
    FieldThenBuffered(h, FieldOf(name), name, value, next);
  }

  lemma FieldThenBuffered(h: Head, field: Field, name: Bytes, value: Bytes, next: Head)
    requires StreamField(h, field, name, value) == Ok(next) && !h.chunked
    requires next.length.Some? ==> next.length.value <= MAX_BODY_BYTES
    ensures BufferedField(h, field, name, value) == Ok(next) && !next.chunked
  {
  }

  /** No header with this name. */
  predicate Lacks(headers: seq<(Bytes, Bytes)>, name: Bytes) {
    forall i :: 0 <= i < |headers| ==> headers[i].0 != name
  }

  /** No content coding but identity. */
  predicate Plain(headers: seq<(Bytes, Bytes)>) {
    forall i :: 0 <= i < |headers| && headers[i].0 == CONTENT_ENCODING ==> Lower(headers[i].1) == IDENTITY
  }

  lemma {:induction false} BufferedGrows(h: Head, lines: seq<Bytes>, h': Head)
    requires HeaderLines(BufferedField, h, lines) == Ok(h')
    ensures (h.chunked ==> h'.chunked) && h.headers <= h'.headers
    decreases |lines|
  {
    if lines != [] {
      var next := HeaderLine(BufferedField, h, lines[0]).value;
      BufferedGrows(next, lines[1..], h');
      LineGrows(h, lines[0], next);
    }
  }

  lemma LineGrows(h: Head, line: Bytes, next: Head)
    requires HeaderLine(BufferedField, h, line) == Ok(next)
    ensures (h.chunked ==> next.chunked) && h.headers <= next.headers
  {
    var (n, v) := ParseHeader(line).value;
    FieldGrows(h, FieldOf(n), n, v, next);
  }

  lemma FieldGrows(h: Head, field: Field, n: Bytes, v: Bytes, next: Head)
    requires BufferedField(h, field, n, v) == Ok(next)
    ensures h.chunked ==> next.chunked
    ensures next.headers == h.headers + [(Lower(n), v)]
  {
  }

  lemma PlainPrefix(headers: seq<(Bytes, Bytes)>, more: seq<(Bytes, Bytes)>)
    requires headers <= more && Plain(more)
    ensures Plain(headers)
  {
    forall i | 0 <= i < |headers| && headers[i].0 == CONTENT_ENCODING ensures Lower(headers[i].1) == IDENTITY {
      assert more[i] == headers[i];
    }
  }

  lemma LineThenStream(h: Head, line: Bytes, next: Head)
    requires HeaderLine(BufferedField, h, line) == Ok(next) && !next.chunked && Plain(next.headers)
    ensures HeaderLine(StreamField, h, line) == Ok(next)
  {
    var (n, v) := ParseHeader(line).value;
    FieldGrows(h, FieldOf(n), n, v, next);
    assert next.headers[|h.headers|] == (Lower(n), v);
    FieldThenStream(h, FieldOf(n), n, v, next);
  }

  lemma FieldThenStream(h: Head, field: Field, n: Bytes, v: Bytes, next: Head)
    requires BufferedField(h, field, n, v) == Ok(next) && !next.chunked
    requires field == Coding ==> Lower(v) == IDENTITY
    ensures StreamField(h, field, n, v) == Ok(next)
  {
  }

  lemma {:induction false} BufferedThenStream(h: Head, lines: seq<Bytes>, h': Head)
    requires HeaderLines(BufferedField, h, lines) == Ok(h') && !h'.chunked && Plain(h'.headers)
    ensures HeaderLines(StreamField, h, lines) == Ok(h')
    decreases |lines|
  {
    if lines != [] {
      var next := HeaderLine(BufferedField, h, lines[0]).value;
      BufferedGrows(next, lines[1..], h');
      PlainPrefix(next.headers, h'.headers);
      LineThenStream(h, lines[0], next);
      BufferedThenStream(next, lines[1..], h');
    }
  }

  lemma StreamLinePlain(h: Head, line: Bytes, next: Head)
    requires HeaderLine(StreamField, h, line) == Ok(next) && Plain(h.headers)
    ensures Plain(next.headers)
  {
    var (n, v) := ParseHeader(line).value;
    assert next.headers == h.headers + [(Lower(n), v)];
    assert Lower(n) == CONTENT_ENCODING ==> FieldOf(n) == Coding by { NamesDiffer(); }
  }

  lemma NamesDiffer()
    ensures CONTENT_ENCODING != CONTENT_LENGTH && CONTENT_ENCODING != TRANSFER_ENCODING
  {
    assert |CONTENT_ENCODING| == 16 && |CONTENT_LENGTH| == 14 && |TRANSFER_ENCODING| == 17;
  }

  lemma {:induction false} StreamLinesPlain(h: Head, lines: seq<Bytes>, h': Head)
    requires HeaderLines(StreamField, h, lines) == Ok(h') && Plain(h.headers)
    ensures Plain(h'.headers)
    decreases |lines|
  {
    if lines != [] {
      var next := HeaderLine(StreamField, h, lines[0]).value;
      StreamLinePlain(h, lines[0], next);
      StreamLinesPlain(next, lines[1..], h');
    }
  }

  // ---------------------------------------------------------------- agreement

  lemma StreamHeadThenHead(bytes: Bytes, head: StreamHead) returns (reason: Bytes, h: Head)
    requires ParseStreamHead(bytes) == Ok(head) && head.length <= MAX_BODY_BYTES
    ensures ParseHead(bytes) == Ok((200, reason, h)) && head.status == 200 && h.headers == head.headers
    ensures h.length == Some(head.length) && !h.chunked
  {
    var lines := Lines(bytes);
    reason := ParseStatusLine(lines[0]).value.1;
    h := HeaderLines(StreamField, EMPTY_HEAD, lines[1..]).value;
    StreamThenBuffered(EMPTY_HEAD, lines[1..], h);
  }

  lemma HeadThenStreamHead(bytes: Bytes, reason: Bytes, h: Head)
    requires ParseHead(bytes) == Ok((200, reason, h)) && h.length.Some? && Plain(h.headers)
    ensures !h.chunked && ParseStreamHead(bytes) == Ok(StreamHead(200, h.headers, h.length.value))
  {
    BufferedThenStream(EMPTY_HEAD, Lines(bytes)[1..], h);
  }

  lemma OnePiece(pieces: seq<Bytes>)
    ensures Download(pieces) == Download([Concat(pieces)])
  {
    var s := Concat(pieces);
    assert Concat([s]) == s + Concat([s][1..]) == s;
    CutsDoNotMatter(pieces, [s]);
  }

  lemma DecodeIs(s: Bytes, p: nat, endOfStream: bool)
    requires Find(s, BLANK) == Some(p) && p + 4 <= MAX_HEADER_BYTES
    ensures Decode(s, endOfStream) == WithBody(ParseHead(s[..p]), s[p + 4..], endOfStream)
  {
  }

  lemma PlainBody(reason: Bytes, h: Head, payload: Bytes, endOfStream: bool)
    requires !h.chunked && h.length == Some(|payload|)
    ensures WithBody(Ok((200, reason, h)), payload, endOfStream) == Ok(Response(200, reason, h.headers, payload))
  {
  }

  /** A head the streaming decoder reads, in the buffered one with the payload it announces. */
  lemma StreamHeadBody(bytes: Bytes, head: StreamHead, payload: Bytes, endOfStream: bool) returns (reason: Bytes)
    requires ParseStreamHead(bytes) == Ok(head) && head.length == |payload| <= MAX_BODY_BYTES
    ensures WithBody(ParseHead(bytes), payload, endOfStream)
         == Ok(Response(head.status, reason, head.headers, payload))
  {
    var h;
    reason, h := StreamHeadThenHead(bytes, head);
    PlainBody(reason, h, payload, endOfStream);
  }

  /** What the streaming decoder finishes, however it was fed, the buffered decoder decodes to the same. */
  lemma StreamedIsBuffered(pieces: seq<Bytes>, endOfStream: bool) returns (reason: Bytes)
    requires Download(pieces).error.None? && Download(pieces).head.Some?
    requires Download(pieces).head.value.length <= MAX_BODY_BYTES
    ensures var out := Download(pieces);
      Decode(Concat(pieces), endOfStream)
      == Ok(Response(out.head.value.status, reason, out.head.value.headers, out.output))
  {
    var s := Concat(pieces);
    OnePiece(pieces);
    var p, head := AcceptedShape(ParseStreamHead, s);
    reason := StreamHeadBody(s[..p], head, s[p + 4..], endOfStream);
    DecodeIs(s, p, endOfStream);
  }

  lemma StreamHeadPlain(bytes: Bytes, head: StreamHead)
    requires ParseStreamHead(bytes) == Ok(head)
    ensures Plain(head.headers)
  {
    var lines := Lines(bytes);
    StreamLinesPlain(EMPTY_HEAD, lines[1..], HeaderLines(StreamField, EMPTY_HEAD, lines[1..]).value);
  }

  lemma BufferedThenStreamed(pieces: seq<Bytes>, endOfStream: bool)
    requires Decode(Concat(pieces), endOfStream).Ok?
    requires var r := Decode(Concat(pieces), endOfStream).value;
      r.status == 200 && Plain(r.headers) && !Lacks(r.headers, CONTENT_LENGTH)
    ensures var r, out := Decode(Concat(pieces), endOfStream).value, Download(pieces);
      out == Outcome(None, Some(StreamHead(200, r.headers, |r.body|)), r.body)
  {
    var s := Concat(pieces);
    OnePiece(pieces);
    var p := Find(s, BLANK).value;
    var (status, reason, h) := ParseHead(s[..p]).value;
    LengthSaid(s[..p], reason, h);
    HeadThenStreamHead(s[..p], reason, h);
    AcceptsHead(ParseStreamHead, s, p, StreamHead(200, h.headers, h.length.value));
  }

  /** What was streamed and buffered has no coding but identity. */
  lemma StreamedIsPlain(pieces: seq<Bytes>, endOfStream: bool)
    requires Decode(Concat(pieces), endOfStream).Ok? && Download(pieces).error.None?
    requires !Lacks(Decode(Concat(pieces), endOfStream).value.headers, CONTENT_LENGTH)
    requires Decode(Concat(pieces), endOfStream).value.status == 200
    ensures Plain(Decode(Concat(pieces), endOfStream).value.headers)
  {
    var s := Concat(pieces);
    OnePiece(pieces);
    var p, head := AcceptedShape(ParseStreamHead, s);
    var (status, reason, h) := ParseHead(s[..p]).value;
    LengthSaid(s[..p], reason, h);
    StreamHeadPlain(s[..p], head);
    SameHeaders(s[..p], head, reason, h);
  }

  lemma SameHeaders(bytes: Bytes, head: StreamHead, reason: Bytes, h: Head)
    requires ParseStreamHead(bytes) == Ok(head) && ParseHead(bytes) == Ok((200, reason, h))
    ensures head.headers == h.headers
  {
    var lines := Lines(bytes);
    LinesAgree(EMPTY_HEAD, EMPTY_HEAD, lines[1..]);
  }

  /** Both rules collect the same headers. */
  lemma {:induction false} LinesAgree(g: Head, h: Head, lines: seq<Bytes>)
    requires g.headers == h.headers
    requires HeaderLines(StreamField, g, lines).Ok? && HeaderLines(BufferedField, h, lines).Ok?
    ensures HeaderLines(StreamField, g, lines).value.headers == HeaderLines(BufferedField, h, lines).value.headers
    decreases |lines|
  {
    if lines != [] {
      var g', h' := HeaderLine(StreamField, g, lines[0]).value, HeaderLine(BufferedField, h, lines[0]).value;
      LineAgrees(g, h, lines[0], g', h');
      LinesAgree(g', h', lines[1..]);
    }
  }

  lemma LineAgrees(g: Head, h: Head, line: Bytes, g': Head, h': Head)
    requires g.headers == h.headers
    requires HeaderLine(StreamField, g, line) == Ok(g') && HeaderLine(BufferedField, h, line) == Ok(h')
    ensures g'.headers == h'.headers
  {
    var (n, v) := ParseHeader(line).value;
    FieldGrows(h, FieldOf(n), n, v, h');
  }

  /**
   * A response the buffered decoder accepts as a 200 with a length is accepted by the streaming
   * one, however it is fed, if and only if it has no content coding but identity; and then with
   * the same headers and body.
   */
  lemma BufferedIsStreamed(pieces: seq<Bytes>, endOfStream: bool)
    requires Decode(Concat(pieces), endOfStream).Ok?
    requires var r := Decode(Concat(pieces), endOfStream).value;
      r.status == 200 && !Lacks(r.headers, CONTENT_LENGTH)
    ensures var r, out := Decode(Concat(pieces), endOfStream).value, Download(pieces);
      && (out.error.None? <==> Plain(r.headers))
      && (Plain(r.headers) ==> out == Outcome(None, Some(StreamHead(200, r.headers, |r.body|)), r.body))
  {
    if Plain(Decode(Concat(pieces), endOfStream).value.headers) {
      BufferedThenStreamed(pieces, endOfStream);
    } else if Download(pieces).error.None? {
      StreamedIsPlain(pieces, endOfStream);
    }
  }

  /** A content-length header among the headers means a length was read. */
  lemma LengthSaid(bytes: Bytes, reason: Bytes, h: Head)
    requires ParseHead(bytes) == Ok((200, reason, h)) && !Lacks(h.headers, CONTENT_LENGTH)
    ensures h.length.Some?
  {
    LinesSayLength(EMPTY_HEAD, Lines(bytes)[1..], h);
  }

  lemma {:induction false} LinesSayLength(h: Head, lines: seq<Bytes>, h': Head)
    requires HeaderLines(BufferedField, h, lines) == Ok(h') && (!Lacks(h.headers, CONTENT_LENGTH) ==> h.length.Some?)
    ensures !Lacks(h'.headers, CONTENT_LENGTH) ==> h'.length.Some?
    decreases |lines|
  {
    if lines != [] {
      var next := HeaderLine(BufferedField, h, lines[0]).value;
      LineSaysLength(h, lines[0], next);
      LinesSayLength(next, lines[1..], h');
    }
  }

  lemma LineSaysLength(h: Head, line: Bytes, next: Head)
    requires HeaderLine(BufferedField, h, line) == Ok(next) && (!Lacks(h.headers, CONTENT_LENGTH) ==> h.length.Some?)
    ensures !Lacks(next.headers, CONTENT_LENGTH) ==> next.length.Some?
  {
    var (n, v) := ParseHeader(line).value;
    FieldGrows(h, FieldOf(n), n, v, next);
    if Lower(n) != CONTENT_LENGTH && !Lacks(next.headers, CONTENT_LENGTH) {
      var i :| 0 <= i < |next.headers| && next.headers[i].0 == CONTENT_LENGTH;
      assert i < |h.headers| && h.headers[i] == next.headers[i];
    }
  }
}
