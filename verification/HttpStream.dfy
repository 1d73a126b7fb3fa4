/** The streaming decoder: what it says does not depend on how its input was cut, and it agrees with the buffered one. */
module HttpStream {
  import opened Machine
  import opened HttpSpec

  // ---------------------------------------------------------------- runs

  /** Feeds in order, up to the first error. */
  function Run(parse: HeadParser, st: Stream, pieces: seq<Bytes>): (Stream, Bytes, Option<HttpError>)
    decreases |pieces|
  {
    if pieces == [] then (st, [], None)
    else
      var (after, sunk, bad) := Feed(parse, st, pieces[0]);
      if bad.Some? then (after, sunk, bad)
      else
        var (last, more, err) := Run(parse, after, pieces[1..]);
        (last, sunk + more, err)
  }

  /** What a download ends with: the first error, the head, and on success the sunk bytes. */
  datatype Outcome = Outcome(error: Option<HttpError>, head: Option<StreamHead>, output: Bytes)

  function Conclude(st: Stream, sunk: Bytes, bad: Option<HttpError>): Outcome {
    if bad.Some? then Outcome(bad, st.head, [])
    else
      var err := Finish(st).1;
      Outcome(err, st.head, if err.Some? then [] else sunk)
  }

  function DownloadWith(parse: HeadParser, pieces: seq<Bytes>): Outcome {
    var (st, sunk, bad) := Run(parse, FRESH, pieces);
    Conclude(st, sunk, bad)
  }

  function Download(pieces: seq<Bytes>): Outcome {
    DownloadWith(ParseStreamHead, pieces)
  }

  function Concat(pieces: seq<Bytes>): Bytes {
    if pieces == [] then [] else pieces[0] + Concat(pieces[1..])
  }

  // ---------------------------------------------------------------- cutting the input

  lemma {:induction false} HeaderJoin(parse: HeadParser, st: Stream, a: Bytes, b: Bytes)
    requires st.head.None?
    ensures var (s, rest, bad) := Header(parse, st, a);
      if bad.Some? || s.head.Some? then Header(parse, st, a + b) == (s, rest + b, bad)
      else rest == [] && Header(parse, st, a + b) == Header(parse, s, b)
    decreases |a|
  {
    if a == [] {
      assert a + b == b;
    } else if |st.header| == MAX_HEADER_BYTES {
    } else {
      assert (a + b)[0] == a[0] && (a + b)[1..] == a[1..] + b;
      var header := st.header + [a[0]];
      if !EndsBlank(header) { HeaderJoin(parse, st.(header := header), a[1..], b); }
    }
  }

  /** Two results that agree in all a caller may rely on. */
  predicate Agrees(x: (Stream, Bytes, Option<HttpError>), y: (Stream, Bytes, Option<HttpError>)) {
    x.2 == y.2 && x.0.head == y.0.head && (x.2.None? ==> x == y)
  }

  function Then(parse: HeadParser, x: (Stream, Bytes, Option<HttpError>), b: Bytes): (Stream, Bytes, Option<HttpError>) {
    if x.2.Some? then x
    else
      var (s, more, bad) := Feed(parse, x.0, b);
      (s, x.1 + more, bad)
  }

  lemma PayloadJoin(parse: HeadParser, st: Stream, a: Bytes, b: Bytes)
    requires !st.failed && st.head.Some?
    ensures Agrees(Then(parse, Feed(parse, st, a), b), Feed(parse, st, a + b))
  {
    if a == [] {
      assert a + b == b;
      var more := Feed(parse, st, b).1;
      assert [] + more == more;
    } else if |a| <= st.remaining && b == [] {
      assert a + b == a && a + [] == a;
    }
  }

  lemma FeedHeader(parse: HeadParser, st: Stream, bytes: Bytes)
    requires !st.failed && st.head.None?
    ensures var (s, rest, bad) := Header(parse, st, bytes);
      && (bad.Some? ==> Feed(parse, st, bytes) == (s.(failed := true), [], bad))
      && (bad.None? && s.head.None? ==> Feed(parse, st, bytes) == (s, [], None))
      && (bad.None? && s.head.Some? ==> !s.failed && Feed(parse, st, bytes) == Feed(parse, s, rest))
  {
    HeaderKeeps(parse, st, bytes);
  }

  lemma {:induction false} HeaderKeeps(parse: HeadParser, st: Stream, bytes: Bytes)
    requires st.head.None?
    ensures Header(parse, st, bytes).0.failed == st.failed
    ensures Header(parse, st, bytes).2.Some? ==> Header(parse, st, bytes).0.head.None?
    decreases |bytes|
  {
    if bytes != [] && |st.header| != MAX_HEADER_BYTES && !EndsBlank(st.header + [bytes[0]]) {
      HeaderKeeps(parse, st.(header := st.header + [bytes[0]]), bytes[1..]);
    }
  }

  lemma FeedJoin(parse: HeadParser, st: Stream, a: Bytes, b: Bytes)
    requires !st.failed
    ensures Agrees(Then(parse, Feed(parse, st, a), b), Feed(parse, st, a + b))
  {
    if st.head.Some? {
      PayloadJoin(parse, st, a, b);
    } else {
      var (s, rest, bad) := Header(parse, st, a);
      HeaderJoin(parse, st, a, b);
      FeedHeader(parse, st, a);
      FeedHeader(parse, st, a + b);
      if bad.None? && s.head.Some? {
        PayloadJoin(parse, s, rest, b);
      } else if bad.None? {
        HeaderKeeps(parse, st, a);
        FeedHeader(parse, s, b);
        assert [] + Feed(parse, s, b).1 == Feed(parse, s, b).1;
      }
    }
  }

  lemma FeedUnfailed(parse: HeadParser, st: Stream, a: Bytes)
    requires !st.failed && Feed(parse, st, a).2.None?
    ensures !Feed(parse, st, a).0.failed
  {
    if st.head.None? { HeaderKeeps(parse, st, a); }
  }

  lemma {:induction false} RunIsOneFeed(parse: HeadParser, st: Stream, pieces: seq<Bytes>)
    requires !st.failed
    ensures Agrees(Run(parse, st, pieces), Feed(parse, st, Concat(pieces)))
    decreases |pieces|
  {
    if pieces != [] {
      var first := Feed(parse, st, pieces[0]);
      FeedJoin(parse, st, pieces[0], Concat(pieces[1..]));
      if first.2.None? {
        FeedUnfailed(parse, st, pieces[0]);
        RunIsOneFeed(parse, first.0, pieces[1..]);
      }
    }
  }

  lemma SameConclusion(x: (Stream, Bytes, Option<HttpError>), y: (Stream, Bytes, Option<HttpError>))
    requires Agrees(x, y)
    ensures Conclude(x.0, x.1, x.2) == Conclude(y.0, y.1, y.2)
  {
  }

  lemma CutsWith(parse: HeadParser, pieces: seq<Bytes>, pieces': seq<Bytes>)
    requires Concat(pieces) == Concat(pieces')
    ensures DownloadWith(parse, pieces) == DownloadWith(parse, pieces')
  {
    RunIsOneFeed(parse, FRESH, pieces);
    RunIsOneFeed(parse, FRESH, pieces');
    SameConclusion(Run(parse, FRESH, pieces), Feed(parse, FRESH, Concat(pieces)));
    SameConclusion(Run(parse, FRESH, pieces'), Feed(parse, FRESH, Concat(pieces)));
  }

  /** The first error or the success, the head and the output depend only on the bytes fed. */
  lemma CutsDoNotMatter(pieces: seq<Bytes>, pieces': seq<Bytes>)
    requires Concat(pieces) == Concat(pieces')
    ensures Download(pieces) == Download(pieces')
  {
    CutsWith(ParseStreamHead, pieces, pieces');
  }
}
