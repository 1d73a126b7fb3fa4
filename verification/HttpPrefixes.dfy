/** A message cut short is reported as incomplete, or at the end of the stream as ended too early, and as nothing else. */
module HttpPrefixes {
  import opened Machine
  import opened Text
  import opened HttpSpec
  import opened HttpFraming
  import opened HttpAgreement
  import opened HttpHeads

  lemma NotFoundYet(s: Bytes, needle: Bytes, p: nat, k: nat)
    requires Find(s, needle) == Some(p) && k <= |s| && k < p + |needle|
    ensures Find(s[..k], needle).None?
  {
    assert s[..k] + s[k..] == s;
    if Find(s[..k], needle).Some? { FindExtends(s[..k], s[k..], needle); }
  }

  lemma FoundAlready(s: Bytes, needle: Bytes, p: nat, k: nat)
    requires Find(s, needle) == Some(p) && p + |needle| <= k <= |s|
    ensures Find(s[..k], needle) == Some(p)
  {
    FindHolds(s, needle);
    assert s[..k][p..p + |needle|] == s[p..p + |needle|];
    HttpFraming.FindFirst(s[..k], needle, p);
    FindExtends(s[..k], s[k..], needle);
    assert s[..k] + s[k..] == s;
  }

  // ---------------------------------------------------------------- chunked bodies

  lemma TrailersBegin(rules: ChunkRules, rest: Bytes, p: nat)
    requires Find(rest, BLANK) == Some(p) && rules.trailers(rest[..p]).None? && RefusesEmptyLine(rules)
    ensures !(rest[0] == CR && rest[1] == LF)
  {
    FindHolds(rest, BLANK);
    if rest[0] == CR && rest[1] == LF { BlankAfterLineEnd(rest, p); }
  }

  lemma TrailersCut(rules: ChunkRules, rest: Bytes, k: nat, endOfStream: bool)
    requires Trailers(rules, rest, false).None? && k < |rest| && RefusesEmptyLine(rules)
    ensures Trailers(rules, rest[..k], endOfStream) == Some(Short(endOfStream))
  {
    var blank := Find(rest, BLANK);
    if blank.Some? {
      NotFoundYet(rest, BLANK, blank.value, k);
      TrailersBegin(rules, rest, blank.value);
      if k >= 2 { assert rest[..k][..2] == [rest[0], rest[1]]; }
    } else {
      assert |rest| == 2 && Find(rest[..k], BLANK).None?;
    }
  }

  /** Cut inside the chunk at the front. */
  lemma ChunkCut(rules: ChunkRules, s: Bytes, data: Bytes, after: Bytes, k: nat, endOfStream: bool)
    requires TakeChunk(rules, s, false) == Ok((data, after)) && k < |s| - |after|
    ensures TakeChunk(rules, s[..k], endOfStream) == Err(Short(endOfStream))
  {
    var p := Find(s, CRLF).value;
    if k < p + 2 {
      NotFoundYet(s, CRLF, p, k);
    } else {
      FoundAlready(s, CRLF, p, k);
      assert s[..k][..p] == s[..p];
    }
  }

  lemma CutSlices(s: Bytes, k: nat, i: nat, j: nat)
    requires i <= j <= k <= |s|
    ensures s[..k][..i] == s[..i] && s[..k][i..j] == s[i..j] && s[..k][j..] == s[j..][..k - j]
  {
  }

  /** Cut behind the chunk at the front. */
  lemma ChunkKept(rules: ChunkRules, s: Bytes, data: Bytes, after: Bytes, k: nat, endOfStream: bool)
    requires TakeChunk(rules, s, false) == Ok((data, after)) && |s| - |after| <= k <= |s|
    ensures TakeChunk(rules, s[..k], endOfStream) == Ok((data, after[..k - (|s| - |after|)]))
  {
    var p := Find(s, CRLF).value;
    FoundAlready(s, CRLF, p, k);
    CutSlices(s, k, p, p + 2);
    var n, tail := rules.size(s[..p]).value, s[p + 2..];
    if n > 0 { CutSlices(tail, k - (p + 2), n, n + 2); }
  }

  lemma {:induction false} ChunksCut(rules: ChunkRules, s: Bytes, body: Bytes, k: nat, endOfStream: bool)
    requires Chunks(rules, s, body, false).Ok? && k < |s| && RefusesEmptyLine(rules)
    ensures Chunks(rules, s[..k], body, endOfStream) == Err(Short(endOfStream))
    decreases |s|
  {
    var (data, after) := TakeChunk(rules, s, false).value;
    var used := |s| - |after|;
    if k < used {
      ChunkCut(rules, s, data, after, k, endOfStream);
    } else {
      ChunkKept(rules, s, data, after, k, endOfStream);
      if data == [] {
        TrailersCut(rules, after, k - used, endOfStream);
      } else {
        ChunksCut(rules, after, body + data, k - used, endOfStream);
      }
    }
  }

  // ---------------------------------------------------------------- whole messages

  lemma BodyCut(status: nat, h: Head, payload: Bytes, k: nat, endOfStream: bool)
    requires Body(status, h, payload, false).Ok? && k < |payload|
    ensures Body(status, h, payload[..k], endOfStream) == Err(Short(endOfStream))
  {
    RulesRefuse();
    if h.chunked { ChunksCut(CHUNK_RULES, payload, [], k, endOfStream); }
  }

  lemma WithBodyCut(head: Result<(nat, Bytes, Head), HttpError>, payload: Bytes, k: nat, endOfStream: bool)
    requires WithBody(head, payload, false).Ok? && k < |payload|
    ensures WithBody(head, payload[..k], endOfStream) == Err(Short(endOfStream))
  {
    BodyCut(head.value.0, head.value.2, payload, k, endOfStream);
  }

  lemma HeadCut(m: Bytes, end: nat, k: nat, endOfStream: bool)
    requires Find(m, BLANK) == Some(end) && k < end + 4 <= MAX_HEADER_BYTES
    ensures Decode(m[..k], endOfStream) == Err(Short(endOfStream))
  {
    NotFoundYet(m, BLANK, end, k);
  }

  lemma CutParts(m: Bytes, end: nat, k: nat)
    requires Find(m, BLANK) == Some(end) && end + 4 <= k <= |m|
    ensures Find(m[..k], BLANK) == Some(end) && m[..k][..end] == m[..end]
    ensures m[..k][end + 4..] == m[end + 4..][..k - (end + 4)]
  {
    FoundAlready(m, BLANK, end, k);
    CutSlices(m, k, end, end + 4);
  }

  lemma DecodesAs(c: Bytes, end: nat, head: Result<(nat, Bytes, Head), HttpError>, payload: Bytes, endOfStream: bool)
    requires Find(c, BLANK) == Some(end) && end + 4 <= MAX_HEADER_BYTES
    requires head == ParseHead(c[..end]) && payload == c[end + 4..]
    ensures Decode(c, endOfStream) == WithBody(head, payload, endOfStream)
  {
    DecodeIs(c, end, endOfStream);
  }

  /** A head followed by a part of the payload it should have. */
  lemma CutDecodes(c: Bytes, end: nat, head: Result<(nat, Bytes, Head), HttpError>, payload: Bytes, j: nat,
                   endOfStream: bool)
    requires Find(c, BLANK) == Some(end) && end + 4 <= MAX_HEADER_BYTES && head == ParseHead(c[..end])
    requires j < |payload| && c[end + 4..] == payload[..j] && WithBody(head, payload, false).Ok?
    ensures Decode(c, endOfStream) == Err(Short(endOfStream))
  {
    DecodesAs(c, end, head, payload[..j], endOfStream);
    WithBodyCut(head, payload, j, endOfStream);
  }

  lemma AcceptedParts(m: Bytes) returns (end: nat)
    requires Decode(m, false).Ok?
    ensures Find(m, BLANK) == Some(end) && end + 4 <= MAX_HEADER_BYTES
    ensures WithBody(ParseHead(m[..end]), m[end + 4..], false).Ok?
  {
    end := Find(m, BLANK).value;
    DecodeIs(m, end, false);
  }

  /**
   * Every strict prefix of a message that is accepted without waiting for the end of the stream
   * is incomplete so far, and ended too early if the stream ends there. No other error is possible.
   */
  lemma PrefixIsIncomplete(m: Bytes, k: nat, endOfStream: bool)
    requires Decode(m, false).Ok? && k < |m|
    ensures Decode(m[..k], endOfStream) == Err(if endOfStream then UnexpectedEnd else Incomplete)
  {
    var end := AcceptedParts(m);
    if k < end + 4 {
      HeadCut(m, end, k, endOfStream);
    } else {
      CutParts(m, end, k);
      CutDecodes(m[..k], end, ParseHead(m[..end]), m[end + 4..], k - (end + 4), endOfStream);
    }
  }

  /** A streamed head with any other status is refused for it: the five redirects as such. */
  lemma OtherStatus(head: Bytes, status: nat, reason: Bytes)
    requires ValidUtf8(head) && SpellsStatus(Lines(head)[0], status, reason) && status != 200
    ensures ParseStreamHead(head)
         == Err(if status in {301, 302, 303, 307, 308} then RedirectUnsupported else UnexpectedStatus)
  {
    StatusExactly(Lines(head)[0], status, reason);
  }
}
