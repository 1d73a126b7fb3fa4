/** Exactly what both decoders accept: status lines, header lines, the framing fields, trailers and bodies. */
module HttpHeads {
  import opened Machine
  import opened Text
  import opened HttpSpec
  import opened HttpFraming
  import opened HttpStream
  import opened HttpAgreement
  import opened HttpMessages

  // ---------------------------------------------------------------- header lines

  lemma {:induction false} IndexFound(s: Bytes, b: byte)
    ensures forall i :: 0 <= i < IndexOf(s, b) ==> s[i] != b
    ensures IndexOf(s, b) < |s| ==> s[IndexOf(s, b)] == b
  {
    if s != [] && s[0] != b {
      IndexFound(s[1..], b);
      forall i | 0 <= i < IndexOf(s, b) ensures s[i] != b {
        if i > 0 { assert s[i] == s[1..][i - 1]; }
      }
    }
  }

  /** Trimming takes blanks off both ends and nothing else. */
  lemma {:induction false} TrimParts(s: Bytes) returns (before: Bytes, after: Bytes)
    ensures Blanks(before) && Blanks(after) && s == before + (Trim(s) + after)
    ensures Trim(s) != [] ==> !IsBlank(Trim(s)[0]) && !IsBlank(Trim(s)[|Trim(s)| - 1])
    decreases |s|
  {
    before, after := [], [];
    if s != [] && IsBlank(s[0]) {
      before, after := TrimParts(s[1..]);
      assert s == [s[0]] + s[1..];
      assert [s[0]] + (before + (Trim(s[1..]) + after)) == ([s[0]] + before) + (Trim(s[1..]) + after);
      before := [s[0]] + before;
    } else if s != [] && IsBlank(s[|s| - 1]) {
      var n := |s| - 1;
      before, after := TrimParts(s[..n]);
      assert s == s[..n] + [s[n]];
      assert before + (Trim(s[..n]) + after) + [s[n]] == before + (Trim(s[..n]) + (after + [s[n]]));
      after := after + [s[n]];
    }
  }

  /** A line that spells a header field. */
  ghost predicate SpellsField(line: Bytes, name: Bytes, value: Bytes) {
    && NameOk(name) && ValueOk(value)
    && exists before: Bytes, after: Bytes :: Blanks(before) && Blanks(after) && line == FieldLine(name, before, value, after)
  }

  lemma FieldShape(line: Bytes, name: Bytes, value: Bytes) returns (before: Bytes, after: Bytes)
    requires ParseHeader(line) == Ok((name, value))
    ensures NameOk(name) && ValueOk(value) && Blanks(before) && Blanks(after)
    ensures line == FieldLine(name, before, value, after)
  {
    var colon := IndexOf(line, 58);
    IndexFound(line, 58);
    forall i | 0 <= i < |name| ensures TokenChar(name[i] as char) { TokenIs(name[i]); }
    before, after := TrimParts(line[colon + 1..]);
    assert line == line[..colon] + ([58] + line[colon + 1..]);
  }

  /** A line is read as a field exactly when it spells it, with any blanks around the value. */
  lemma FieldExactly(line: Bytes, name: Bytes, value: Bytes)
    ensures ParseHeader(line) == Ok((name, value)) <==> SpellsField(line, name, value)
  {
    if ParseHeader(line) == Ok((name, value)) {
      var before, after := FieldShape(line, name, value);
    }
    if SpellsField(line, name, value) {
      var before: Bytes, after: Bytes :| Blanks(before) && Blanks(after) && line == FieldLine(name, before, value, after);
      FieldReads(name, before, value, after);
    }
  }

  // ---------------------------------------------------------------- status lines

  lemma DigitsOfThree(s: Bytes, n: nat)
    requires |s| == 3 && Digits(s) == Some(n)
    ensures AllDigits(s) && n == 100 * (s[0] as int - 48) + 10 * (s[1] as int - 48) + (s[2] as int - 48)
  {
    DigitsExactly(s);
    assert s[..2][..1] == s[..1] && s[..1][..0] == [];
    assert Digits(s[..1][..0]) == Some(0);
    assert Digits(s[..1]) == Some(s[0] - 48);
    assert Digits(s[..2]) == Some(10 * (s[0] as int - 48) + (s[1] as int - 48));
  }

  lemma DecimalOfThree(s: Bytes, n: nat)
    requires |s| == 3 && Digits(s) == Some(n) && n >= 100
    ensures s == Decimal(n)
  {
    DigitsOfThree(s, n);
    var a: int, b: int, c: int := s[0] as int - 48, s[1] as int - 48, s[2] as int - 48;
    assert IsDigit(s[0]) && IsDigit(s[1]) && IsDigit(s[2]);
    assert n / 10 == 10 * a + b && n % 10 == c && n / 10 / 10 == a && n / 10 % 10 == b;
    assert Decimal(n) == Decimal(n / 10) + [48 + c];
    assert Decimal(n / 10) == Decimal(a) + [48 + b] && Decimal(a) == [48 + a];
  }

  /** A line that spells a status, with a reason or without the blank before it. */
  predicate SpellsStatus(line: Bytes, status: nat, reason: Bytes) {
    && 100 <= status <= 599 && ReasonOk(reason) && |line| <= 1024
    && (line == StatusLine(status, reason) || (reason == [] && line == VERSION + ([32] + Decimal(status))))
  }

  /** A line that starts with a word and a blank, at the first blank. */
  lemma FirstWord(line: Bytes, b: byte)
    requires IndexOf(line, b) < |line|
    ensures line == line[..IndexOf(line, b)] + ([b] + line[IndexOf(line, b) + 1..])
  {
    IndexFound(line, b);
  }

  lemma StatusWords(rest: Bytes, status: nat, reason: Bytes)
    requires IndexOf(rest, 32) == 3 && Digits(rest[..3]) == Some(status) && status >= 100
    requires reason == if |rest| == 3 then [] else rest[4..]
    ensures rest == Decimal(status) + ([32] + reason) || (reason == [] && rest == Decimal(status))
  {
    DecimalOfThree(rest[..3], status);
    if |rest| > 3 { FirstWord(rest, 32); } else { assert rest == rest[..3]; }
  }

  /** What the tests of an accepted status line say, as they stand. */
  lemma StatusTests(line: Bytes, status: nat, reason: Bytes) returns (rest: Bytes)
    requires ParseStatusLine(line) == Ok((status, reason))
    ensures |line| <= MAX_STATUS_LINE_LEN && line == VERSION + ([32] + rest) && 100 <= status <= 599
    ensures IndexOf(rest, 32) == 3 && Digits(rest[..3]) == Some(status)
    ensures reason == (if |rest| == 3 then [] else rest[4..]) && !HasControl(reason)
  {
    rest := line[IndexOf(line, 32) + 1..];
    FirstWord(line, 32);
  }

  lemma StatusShape(line: Bytes, status: nat, reason: Bytes)
    requires ParseStatusLine(line) == Ok((status, reason))
    ensures SpellsStatus(line, status, reason)
  {
    var rest := StatusTests(line, status, reason);
    StatusWords(rest, status, reason);
    StatusSpelled(line, rest, status, reason);
  }

  lemma StatusSpelled(line: Bytes, rest: Bytes, status: nat, reason: Bytes)
    requires |line| <= 1024 && line == VERSION + ([32] + rest) && 100 <= status <= 599 && !HasControl(reason)
    requires rest == Decimal(status) + ([32] + reason) || (reason == [] && rest == Decimal(status))
    ensures SpellsStatus(line, status, reason)
  {
    assert ReasonOk(reason);
  }

  lemma BareStatusReads(status: nat)
    requires 100 <= status <= 599
    ensures ParseStatusLine(VERSION + ([32] + Decimal(status))) == Ok((status, []))
  {
    var code, line := Decimal(status), VERSION + ([32] + Decimal(status));
    assert 32 !in VERSION;
    IndexAfter(VERSION, [32] + code, 32);
    assert line[..|VERSION|] == VERSION && line[|VERSION| + 1..] == code;
    DecimalReads(status);
    ThreeDigits(status);
    assert 32 !in code;
    IndexAfter(code, [], 32);
    assert code + [] == code && code[..3] == code;
  }

  /** A line is read as a status exactly when it spells it. */
  lemma StatusExactly(line: Bytes, status: nat, reason: Bytes)
    ensures ParseStatusLine(line) == Ok((status, reason)) <==> SpellsStatus(line, status, reason)
  {
    if ParseStatusLine(line) == Ok((status, reason)) { StatusShape(line, status, reason); }
    if SpellsStatus(line, status, reason) {
      if line == StatusLine(status, reason) { StatusReads(status, reason); } else { BareStatusReads(status); }
    }
  }

  // ---------------------------------------------------------------- lines

  /** Splitting into lines and joining them gives the text back. */
  lemma {:induction false} LinesJoined(s: Bytes)
    ensures Joined(Lines(s)) == s
    decreases |s|
  {
    var p := Find(s, CRLF);
    if p.Some? {
      var rest := s[p.value + 2..];
      LinesJoined(rest);
      FindHolds(s, CRLF);
      JoinedMore(s[..p.value], Lines(rest));
      assert s == s[..p.value] + CRLF + rest;
    }
  }

  lemma JoinedMore(line: Bytes, lines: seq<Bytes>)
    requires lines != []
    ensures Joined([line] + lines) == line + CRLF + Joined(lines)
  {
    assert ([line] + lines)[1..] == lines;
  }

  predicate SingleLines(lines: seq<Bytes>) {
    forall i :: 0 <= i < |lines| ==> Find(lines[i], CRLF).None?
  }

  lemma {:induction false} LinesAreSingle(s: Bytes)
    ensures SingleLines(Lines(s))
    decreases |s|
  {
    var p := Find(s, CRLF);
    if p.Some? {
      LinesAreSingle(s[p.value + 2..]);
      LineBefore(s, p.value);
    }
  }

  lemma LineBefore(s: Bytes, p: nat)
    requires Find(s, CRLF) == Some(p)
    ensures Find(s[..p], CRLF).None?
  {
    forall q | 0 <= q ensures !At(s[..p], q, CRLF) {
      LineEndAt(s[..p], q);
      LineEndAt(s, q);
      if At(s, q, CRLF) { HttpFraming.FindFirst(s, CRLF, q); }
    }
    FindNone(s[..p], CRLF);
  }

  // ---------------------------------------------------------------- header lines, under a rule

  /** What a rule does with one field, against a condition on everything said so far. */
  predicate StepFits(rule: FieldRule, fits: Head -> bool, h: Head, name: Bytes, value: Bytes, next: Head) {
    fits(h) ==> (rule(h, FieldOf(name), name, value) == Ok(next)
                 <==> next.headers == h.headers + [(Lower(name), value)] && fits(next))
  }

  /** One field less. */
  predicate Shorter(g: Head, h: Head) {
    h.headers != [] && g.headers == h.headers[..|h.headers| - 1]
  }

  /** The condition also holds of some head with one field less, and of no other without any. */
  ghost predicate Shortens(fits: Head -> bool, h: Head) {
    fits(h) ==> if h.headers == [] then h == EMPTY_HEAD else exists g :: fits(g) && Shorter(g, h)
  }

  /** A rule accepts field by field exactly what the condition accepts as a whole. */
  ghost predicate Tracks(rule: FieldRule, fits: Head -> bool) {
    && fits(EMPTY_HEAD) && (forall h :: Shortens(fits, h))
    && (forall h, name, value, next :: StepFits(rule, fits, h, name, value, next))
  }

  /** The small letter for a capital one; anything else as it is. */
  function SmallLetter(c: char): char {
    if 'A' <= c <= 'Z' then 'a' + (c - 'A') else c
  }

  /** A key is a name in lower case. */
  predicate InLowerCase(name: Bytes, key: Bytes) {
    |key| == |name| && forall i :: 0 <= i < |name| ==> key[i] as char == SmallLetter(name[i] as char)
  }

  lemma LowerIs(name: Bytes, key: Bytes)
    ensures Lower(name) == key <==> InLowerCase(name, key)
  {
    var small := Lower(name);
    forall i | 0 <= i < |name| ensures small[i] as char == SmallLetter(name[i] as char) {}
    if InLowerCase(name, key) {
      forall i | 0 <= i < |name| ensures small[i] == key[i] { assert small[i] as char == key[i] as char; }
    }
  }

  /** A line of at most 4,096 bytes that spells an entry, whatever the case of its name. */
  ghost predicate SpellsEntry(line: Bytes, entry: (Bytes, Bytes)) {
    |line| <= 4096 && exists name: Bytes :: SpellsField(line, name, entry.1) && InLowerCase(name, entry.0)
  }

  /** At most 64 lines that spell the entries one by one. */
  ghost predicate SpellsHeaders(lines: seq<Bytes>, headers: seq<(Bytes, Bytes)>) {
    |lines| == |headers| <= 64 && forall i :: 0 <= i < |lines| ==> SpellsEntry(lines[i], headers[i])
  }

  lemma {:induction false} FrontAccepted(rule: FieldRule, h: Head, lines: seq<Bytes>, last: Bytes)
    requires HeaderLines(rule, h, lines + [last]).Ok?
    ensures HeaderLines(rule, h, lines).Ok?
    decreases |lines|
  {
    if lines != [] {
      assert (lines + [last])[1..] == lines[1..] + [last];
      FrontAccepted(rule, HeaderLine(rule, h, lines[0]).value, lines[1..], last);
    }
  }

  lemma SpellsMore(lines: seq<Bytes>, headers: seq<(Bytes, Bytes)>, line: Bytes, entry: (Bytes, Bytes))
    ensures SpellsHeaders(lines + [line], headers + [entry])
       <==> SpellsHeaders(lines, headers) && |lines| < 64 && SpellsEntry(line, entry)
  {
    var ls, hs := lines + [line], headers + [entry];
    if SpellsHeaders(ls, hs) {
      assert SpellsEntry(ls[|lines|], hs[|lines|]);
      forall i | 0 <= i < |lines| ensures SpellsEntry(lines[i], headers[i]) { assert SpellsEntry(ls[i], hs[i]); }
    }
  }

  /** One more line under a rule that tracks a condition. */
  lemma LineExactly(rule: FieldRule, fits: Head -> bool, h: Head, line: Bytes, next: Head)
    requires Tracks(rule, fits) && fits(h)
    ensures HeaderLine(rule, h, line) == Ok(next)
       <==> && |h.headers| < 64 && Shorter(h, next) && SpellsEntry(line, next.headers[|h.headers|]) && fits(next)
  {
    if HeaderLine(rule, h, line) == Ok(next) {
      var (name, value) := ParseHeader(line).value;
      FieldExactly(line, name, value);
      LowerIs(name, Lower(name));
      assert StepFits(rule, fits, h, name, value, next);
    }
    if |h.headers| < 64 && Shorter(h, next) && SpellsEntry(line, next.headers[|h.headers|]) && fits(next) {
      var entry := next.headers[|h.headers|];
      var name: Bytes :| SpellsField(line, name, entry.1) && InLowerCase(name, entry.0);
      LowerIs(name, entry.0);
      FieldExactly(line, name, entry.1);
      assert next.headers == h.headers + [entry];
      assert StepFits(rule, fits, h, name, entry.1, next);
    }
  }

  lemma {:induction false} LinesSound(rule: FieldRule, fits: Head -> bool, lines: seq<Bytes>, h: Head)
    requires Tracks(rule, fits) && HeaderLines(rule, EMPTY_HEAD, lines) == Ok(h)
    ensures SpellsHeaders(lines, h.headers) && fits(h)
    decreases |lines|
  {
    if lines != [] {
      var front, last := lines[..|lines| - 1], lines[|lines| - 1];
      assert lines == front + [last];
      FrontAccepted(rule, EMPTY_HEAD, front, last);
      var mid := HeaderLines(rule, EMPTY_HEAD, front).value;
      LinesSound(rule, fits, front, mid);
      HeaderSnoc(rule, EMPTY_HEAD, front, last, mid);
      LineExactly(rule, fits, mid, last, h);
      assert h.headers == mid.headers + [h.headers[|mid.headers|]];
      SpellsMore(front, mid.headers, last, h.headers[|mid.headers|]);
    }
  }

  lemma {:induction false} LinesComplete(rule: FieldRule, fits: Head -> bool, lines: seq<Bytes>, h: Head)
    requires Tracks(rule, fits) && SpellsHeaders(lines, h.headers) && fits(h)
    ensures HeaderLines(rule, EMPTY_HEAD, lines) == Ok(h)
    decreases |lines|
  {
    assert Shortens(fits, h);
    if lines != [] {
      var front, last := lines[..|lines| - 1], lines[|lines| - 1];
      assert lines == front + [last];
      var mid: Head :| fits(mid) && Shorter(mid, h);
      assert h.headers == mid.headers + [h.headers[|mid.headers|]];
      SpellsMore(front, mid.headers, last, h.headers[|mid.headers|]);
      LinesComplete(rule, fits, front, mid);
      HeaderSnoc(rule, EMPTY_HEAD, front, last, mid);
      LineExactly(rule, fits, mid, last, h);
    }
  }

  /** Header lines are accepted exactly when they spell the headers and these fit as a whole. */
  lemma LinesExactly(rule: FieldRule, fits: Head -> bool, lines: seq<Bytes>, h: Head)
    requires Tracks(rule, fits)
    ensures HeaderLines(rule, EMPTY_HEAD, lines) == Ok(h) <==> SpellsHeaders(lines, h.headers) && fits(h)
  {
    if HeaderLines(rule, EMPTY_HEAD, lines) == Ok(h) { LinesSound(rule, fits, lines, h); }
    if SpellsHeaders(lines, h.headers) && fits(h) { LinesComplete(rule, fits, lines, h); }
  }

  // ---------------------------------------------------------------- framing

  predicate Named(headers: seq<(Bytes, Bytes)>, name: Bytes) {
    exists i :: 0 <= i < |headers| && headers[i].0 == name
  }

  /** Every field of a name has the value. */
  predicate AllSay(headers: seq<(Bytes, Bytes)>, name: Bytes, value: Bytes) {
    forall i :: 0 <= i < |headers| && headers[i].0 == name ==> Lower(headers[i].1) == value
  }

  predicate AtMostOnce(headers: seq<(Bytes, Bytes)>, name: Bytes) {
    forall i, j :: 0 <= i < j < |headers| ==> headers[i].0 != name || headers[j].0 != name
  }

  /** The length is there exactly when a field says it, and every such field says the same number. */
  predicate LengthFits(headers: seq<(Bytes, Bytes)>, length: Option<nat>) {
    && (length.Some? <==> Named(headers, CONTENT_LENGTH))
    && forall i :: 0 <= i < |headers| && headers[i].0 == CONTENT_LENGTH ==> ParseU64(headers[i].1) == length
  }

  /** What the buffered decoder may have read: one length of at most 4 MiB, `chunked` at most once. */
  predicate BufferedFits(h: Head) {
    && LengthFits(h.headers, h.length) && (h.length.Some? ==> h.length.value <= 0x40_0000)
    && (h.chunked <==> Named(h.headers, TRANSFER_ENCODING))
    && AllSay(h.headers, TRANSFER_ENCODING, CHUNKED) && AtMostOnce(h.headers, TRANSFER_ENCODING)
  }

  /** What the streaming decoder may have read: one length, no transfer coding, no content coding but identity. */
  predicate StreamFits(h: Head) {
    && LengthFits(h.headers, h.length) && !h.chunked && !Named(h.headers, TRANSFER_ENCODING)
    && AllSay(h.headers, CONTENT_ENCODING, IDENTITY)
  }

  lemma NamedMore(hs: seq<(Bytes, Bytes)>, e: (Bytes, Bytes), name: Bytes)
    ensures Named(hs + [e], name) <==> Named(hs, name) || e.0 == name
  {
    if Named(hs, name) {
      var i :| 0 <= i < |hs| && hs[i].0 == name;
      assert (hs + [e])[i].0 == name;
    }
    if e.0 == name { assert (hs + [e])[|hs|].0 == name; }
  }

  lemma AllSayMore(hs: seq<(Bytes, Bytes)>, e: (Bytes, Bytes), name: Bytes, value: Bytes)
    ensures AllSay(hs + [e], name, value) <==> AllSay(hs, name, value) && (e.0 == name ==> Lower(e.1) == value)
  {
    var all := hs + [e];
    if AllSay(all, name, value) {
      assert all[|hs|] == e;
      forall i | 0 <= i < |hs| && hs[i].0 == name ensures Lower(hs[i].1) == value { assert all[i] == hs[i]; }
    }
  }

  lemma OnceMore(hs: seq<(Bytes, Bytes)>, e: (Bytes, Bytes), name: Bytes)
    ensures AtMostOnce(hs + [e], name) <==> AtMostOnce(hs, name) && !(e.0 == name && Named(hs, name))
  {
    var all := hs + [e];
    if AtMostOnce(all, name) {
      forall i, j | 0 <= i < j < |hs| ensures hs[i].0 != name || hs[j].0 != name { assert all[i] == hs[i] && all[j] == hs[j]; }
      forall i | 0 <= i < |hs| ensures !(e.0 == name && hs[i].0 == name) { assert all[i] == hs[i] && all[|hs|] == e; }
    }
  }

  /** The length before another field. */
  function LengthBefore(hs: seq<(Bytes, Bytes)>, length: Option<nat>): Option<nat> {
    if Named(hs, CONTENT_LENGTH) then length else None
  }

  lemma LengthMore(hs: seq<(Bytes, Bytes)>, e: (Bytes, Bytes), length: Option<nat>)
    ensures LengthFits(hs + [e], length)
       <==> LengthFits(hs, LengthBefore(hs, length))
            && (if e.0 == CONTENT_LENGTH then length.Some? && ParseU64(e.1) == length
                else length == LengthBefore(hs, length))
  {
    var all := hs + [e];
    NamedMore(hs, e, CONTENT_LENGTH);
    assert all[|hs|] == e;
    if LengthFits(all, length) {
      forall i | 0 <= i < |hs| && hs[i].0 == CONTENT_LENGTH ensures ParseU64(hs[i].1) == length {
        assert all[i] == hs[i];
      }
    }
  }

  lemma ThreeNames()
    ensures CONTENT_LENGTH != TRANSFER_ENCODING && CONTENT_ENCODING !in {CONTENT_LENGTH, TRANSFER_ENCODING}
  {
    assert |CONTENT_LENGTH| == 14 && |TRANSFER_ENCODING| == 17 && |CONTENT_ENCODING| == 16;
  }

  lemma SameLength(hs: seq<(Bytes, Bytes)>, a: Option<nat>, b: Option<nat>)
    requires LengthFits(hs, a) && LengthFits(hs, b)
    ensures a == b
  {
    if a.Some? { var i :| 0 <= i < |hs| && hs[i].0 == CONTENT_LENGTH; }
  }

  lemma BufferedStep(h: Head, name: Bytes, value: Bytes, next: Head)
    ensures StepFits(BufferedField, BufferedFits, h, name, value, next)
  {
    var e := (Lower(name), value);
    ThreeNames();
    if BufferedFits(h) && next.headers == h.headers + [e] {
      NamedMore(h.headers, e, TRANSFER_ENCODING);
      AllSayMore(h.headers, e, TRANSFER_ENCODING, CHUNKED);
      OnceMore(h.headers, e, TRANSFER_ENCODING);
      LengthMore(h.headers, e, next.length);
      LengthMore(h.headers, e, h.length);
      if LengthFits(h.headers, LengthBefore(h.headers, next.length)) {
        SameLength(h.headers, h.length, LengthBefore(h.headers, next.length));
      }
    }
  }

  lemma BufferedShorter(h: Head) returns (g: Head)
    requires BufferedFits(h) && h.headers != []
    ensures BufferedFits(g) && Shorter(g, h)
  {
    var hs, e := h.headers[..|h.headers| - 1], h.headers[|h.headers| - 1];
    assert h.headers == hs + [e];
    NamedMore(hs, e, TRANSFER_ENCODING);
    AllSayMore(hs, e, TRANSFER_ENCODING, CHUNKED);
    OnceMore(hs, e, TRANSFER_ENCODING);
    LengthMore(hs, e, h.length);
    g := Head(hs, LengthBefore(hs, h.length), Named(hs, TRANSFER_ENCODING));
  }

  lemma BufferedTracks()
    ensures Tracks(BufferedField, BufferedFits)
  {
    forall h, name, value, next ensures StepFits(BufferedField, BufferedFits, h, name, value, next) {
      BufferedStep(h, name, value, next);
    }
    forall h ensures Shortens(BufferedFits, h) {
      if BufferedFits(h) && h.headers != [] { var g := BufferedShorter(h); }
    }
  }

  lemma StreamStep(h: Head, name: Bytes, value: Bytes, next: Head)
    ensures StepFits(StreamField, StreamFits, h, name, value, next)
  {
    var e := (Lower(name), value);
    ThreeNames();
    if StreamFits(h) && next.headers == h.headers + [e] {
      NamedMore(h.headers, e, TRANSFER_ENCODING);
      AllSayMore(h.headers, e, CONTENT_ENCODING, IDENTITY);
      LengthMore(h.headers, e, next.length);
      LengthMore(h.headers, e, h.length);
      if LengthFits(h.headers, LengthBefore(h.headers, next.length)) {
        SameLength(h.headers, h.length, LengthBefore(h.headers, next.length));
      }
    }
  }

  lemma StreamShorter(h: Head) returns (g: Head)
    requires StreamFits(h) && h.headers != []
    ensures StreamFits(g) && Shorter(g, h)
  {
    var hs, e := h.headers[..|h.headers| - 1], h.headers[|h.headers| - 1];
    assert h.headers == hs + [e];
    NamedMore(hs, e, TRANSFER_ENCODING);
    AllSayMore(hs, e, CONTENT_ENCODING, IDENTITY);
    LengthMore(hs, e, h.length);
    g := Head(hs, LengthBefore(hs, h.length), false);
  }

  lemma StreamTracks()
    ensures Tracks(StreamField, StreamFits)
  {
    forall h, name, value, next ensures StepFits(StreamField, StreamFits, h, name, value, next) {
      StreamStep(h, name, value, next);
    }
    forall h ensures Shortens(StreamFits, h) {
      if StreamFits(h) && h.headers != [] { var g := StreamShorter(h); }
    }
  }

  // ---------------------------------------------------------------- heads

  /** UTF-8 text whose first line spells a status and whose other lines spell headers. */
  ghost predicate SpellsHead(head: Bytes, status: nat, reason: Bytes, headers: seq<(Bytes, Bytes)>) {
    ValidUtf8(head) && SpellsStatus(Lines(head)[0], status, reason) && SpellsHeaders(Lines(head)[1..], headers)
  }

  /**
   * The buffered decoder reads a head exactly when it spells a status and headers whose lengths
   * all agree and are at most 4 MiB, which name `chunked` at most once and no other transfer
   * coding, and which do not frame the body twice.
   */
  lemma HeadExactly(head: Bytes, status: nat, reason: Bytes, h: Head)
    ensures ParseHead(head) == Ok((status, reason, h))
       <==> SpellsHead(head, status, reason, h.headers) && BufferedFits(h) && !(h.chunked && h.length.Some?)
  {
    StatusExactly(Lines(head)[0], status, reason);
    BufferedTracks();
    LinesExactly(BufferedField, BufferedFits, Lines(head)[1..], h);
  }

  lemma StreamHeadParts(head: Bytes, sh: StreamHead) returns (reason: Bytes, h: Head)
    requires ParseStreamHead(head) == Ok(sh)
    ensures ValidUtf8(head) && ParseStatusLine(Lines(head)[0]) == Ok((200, reason))
    ensures HeaderLines(StreamField, EMPTY_HEAD, Lines(head)[1..]) == Ok(h)
    ensures sh.status == 200 && h.headers == sh.headers && h.length == Some(sh.length)
  {
    var lines := Lines(head);
    reason, h := ParseStatusLine(lines[0]).value.1, HeaderLines(StreamField, EMPTY_HEAD, lines[1..]).value;
  }

  lemma StreamHeadSpells(head: Bytes, sh: StreamHead) returns (reason: Bytes)
    requires ParseStreamHead(head) == Ok(sh)
    ensures sh.status == 200 && StreamFits(Head(sh.headers, Some(sh.length), false))
    ensures SpellsHead(head, 200, reason, sh.headers)
  {
    var h;
    reason, h := StreamHeadParts(head, sh);
    StatusExactly(Lines(head)[0], 200, reason);
    StreamTracks();
    LinesSound(StreamField, StreamFits, Lines(head)[1..], h);
    assert h == Head(sh.headers, Some(sh.length), false);
  }

  lemma SpelledStreamHead(head: Bytes, sh: StreamHead, reason: Bytes)
    requires sh.status == 200 && StreamFits(Head(sh.headers, Some(sh.length), false))
    requires SpellsHead(head, 200, reason, sh.headers)
    ensures ParseStreamHead(head) == Ok(sh)
  {
    StatusExactly(Lines(head)[0], 200, reason);
    StreamTracks();
    LinesComplete(StreamField, StreamFits, Lines(head)[1..], Head(sh.headers, Some(sh.length), false));
    StreamHeadOf(head, reason, Head(sh.headers, Some(sh.length), false));
  }

  /**
   * The streaming decoder reads a head exactly when it spells status 200 and headers that say
   * one length, no transfer coding and no content coding but identity.
   */
  lemma StreamHeadExactly(head: Bytes, sh: StreamHead)
    ensures ParseStreamHead(head) == Ok(sh)
       <==> && sh.status == 200 && StreamFits(Head(sh.headers, Some(sh.length), false))
            && exists reason: Bytes :: SpellsHead(head, 200, reason, sh.headers)
  {
    if ParseStreamHead(head) == Ok(sh) { var reason := StreamHeadSpells(head, sh); }
    if sh.status == 200 && StreamFits(Head(sh.headers, Some(sh.length), false))
       && exists reason: Bytes :: SpellsHead(head, 200, reason, sh.headers) {
      var reason: Bytes :| SpellsHead(head, 200, reason, sh.headers);
      SpelledStreamHead(head, sh, reason);
    }
  }
}
