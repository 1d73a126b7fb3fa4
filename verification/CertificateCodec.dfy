/** The certificate format is canonical: decoding undoes encoding, and encoding undoes decoding. */
module CertificateCodec {
  import opened Machine
  import opened Text
  import opened Pieces
  import opened CertificateSpec

  // ---------------------------------------------------------------- text is ASCII

  lemma DeveloperIsText(s: Bytes)
    requires DeveloperIdOk(s)
    ensures ValidUtf8(s)
  {
    AsciiIsUtf8(s);
  }

  lemma {:induction false} SegmentsAscii(s: Bytes)
    requires SegmentsOk(s)
    ensures Ascii(s)
    decreases |s|
  {
    var i := Dot(s);
    forall k | 0 <= k < |s| ensures s[k] < 0x80 {
      if k < i { assert SegmentByte(s[..i][k]); }
      if k > i {
        SegmentsAscii(s[i + 1..]);
        assert s[k] == s[i + 1..][k - i - 1];
      }
    }
  }

  lemma PackageIsText(s: Bytes)
    requires PackageIdOk(s)
    ensures ValidUtf8(s) && |s| < 0x1_0000
  {
    SegmentsAscii(s);
    AsciiIsUtf8(s);
  }

  lemma CapabilityIsText(s: Bytes)
    requires CapabilityOk(s)
    ensures ValidUtf8(s) && |s| < 0x1_0000
  {
    AsciiIsUtf8(s);
  }

  lemma {:induction false} ScopesOk(ss: seq<PackageScope>, i: nat, k: nat)
    requires i <= k < |ss| && CheckScopes(ss, i).None?
    ensures PackageIdOk(ss[k].packageId) && (k > i ==> ScopeLess(ss[k - 1], ss[k]))
    decreases |ss| - i
  {
    if i < k { ScopesOk(ss, i + 1, k); }
  }

  lemma {:induction false} CapabilitiesOk(cs: seq<Bytes>, i: nat, k: nat)
    requires i <= k < |cs| && CheckCapabilities(cs, i).None?
    ensures CapabilityOk(cs[k]) && (k > i ==> Less(cs[k - 1], cs[k]))
    decreases |cs| - i
  {
    if i < k { CapabilitiesOk(cs, i + 1, k); }
  }

  // ---------------------------------------------------------------- one item

  predicate TextOk(t: Bytes) {
    ValidUtf8(t) && |t| < 0x1_0000
  }

  predicate ScopeTexts(ss: seq<PackageScope>) {
    ss == [] || (TextOk(ss[0].packageId) && ScopeTexts(ss[1..]))
  }

  predicate AllTexts(ts: seq<Bytes>) {
    ts == [] || (TextOk(ts[0]) && AllTexts(ts[1..]))
  }

  lemma TextTaken(b: Bytes, at: nat, t: Bytes, limit: nat)
    requires Holds(b, at, t) && at + |t| <= limit <= |b| && ValidUtf8(t)
    ensures TakeText(b, at, |t|, limit) == Ok(Taken(t, at + |t|))
  {
  }

  lemma TextParts(b: Bytes, at: nat, t: Bytes)
    requires Holds(b, at, EncodeText(t)) && |t| < 0x1_0000
    ensures Le(b, at, 2) == |t| && Holds(b, at + 2, t)
  {
    var e := EncodeText(t);
    assert e[0..2] == LeBytes(|t|, 2) && e[2..] == t && e[2..|e|] == t;
    HoldsPart(b, at, e, 0, 2);
    HoldsPart(b, at, e, 2, |e|);
    ShortWritten(b, at, |t|);
  }

  lemma CapabilityTaken(b: Bytes, at: nat, t: Bytes, limit: nat)
    requires Holds(b, at, EncodeText(t)) && at + |EncodeText(t)| <= limit <= |b| && TextOk(t)
    ensures TakeCapability(b, at, limit) == Ok(Taken(t, at + |EncodeText(t)|))
  {
    TextParts(b, at, t);
    TextTaken(b, at + 2, t, limit);
  }

  lemma ScopeTaken(b: Bytes, at: nat, s: PackageScope, limit: nat)
    requires Holds(b, at, EncodeScope(s)) && at + |EncodeScope(s)| <= limit <= |b| && TextOk(s.packageId)
    ensures TakeScope(b, at, limit) == Ok(Taken(s, at + |EncodeScope(s)|))
  {
    var e, t := EncodeScope(s), EncodeText(s.packageId);
    assert e == [KindByte(s.kind), 0] + t;
    assert e[2..] == t && e[2..|e|] == t;
    HoldsPart(b, at, e, 2, |e|);
    assert b[at] == b[at..at + |e|][0] && b[at + 1] == b[at..at + |e|][1];
    TextParts(b, at + 2, s.packageId);
    TextTaken(b, at + 4, s.packageId, limit);
  }

  lemma HoldsPair(b: Bytes, at: nat, x: Bytes, y: Bytes)
    requires Holds(b, at, x + y)
    ensures Holds(b, at, x) && Holds(b, at + |x|, y)
  {
    var all := x + y;
    assert all[0..|x|] == x && all[|x|..|all|] == y;
    HoldsPart(b, at, all, 0, |x|);
    HoldsPart(b, at, all, |x|, |all|);
  }

  lemma ScopesStep(b: Bytes, at: nat, limit: nat, mid: nat, ss: seq<PackageScope>, end: nat)
    requires limit <= |b| && ss != [] && TakeScope(b, at, limit) == Ok(Taken(ss[0], mid))
    requires TakeScopes(b, mid, |ss| - 1, limit) == Ok(Taken(ss[1..], end))
    ensures TakeScopes(b, at, |ss|, limit) == Ok(Taken(ss, end))
  {
    assert [ss[0]] + ss[1..] == ss;
  }

  lemma ScopesSplit(b: Bytes, at: nat, ss: seq<PackageScope>, limit: nat, end: nat) returns (mid: nat)
    requires Holds(b, at, EncodeScopes(ss)) && end == at + |EncodeScopes(ss)| <= limit <= |b| && ss != []
    requires TextOk(ss[0].packageId)
    ensures mid + |EncodeScopes(ss[1..])| == end
    ensures TakeScope(b, at, limit) == Ok(Taken(ss[0], mid)) && Holds(b, mid, EncodeScopes(ss[1..]))
  {
    mid := at + |EncodeScope(ss[0])|;
    HoldsPair(b, at, EncodeScope(ss[0]), EncodeScopes(ss[1..]));
    ScopeTaken(b, at, ss[0], limit);
  }

  lemma {:induction false} ScopesTaken(b: Bytes, at: nat, ss: seq<PackageScope>, limit: nat, end: nat)
    requires Holds(b, at, EncodeScopes(ss)) && end == at + |EncodeScopes(ss)| <= limit <= |b|
    requires ScopeTexts(ss)
    ensures TakeScopes(b, at, |ss|, limit) == Ok(Taken(ss, end))
    decreases |ss|
  {
    if ss != [] {
      var mid := ScopesSplit(b, at, ss, limit, end);
      ScopesTaken(b, mid, ss[1..], limit, end);
      ScopesStep(b, at, limit, mid, ss, end);
    }
  }

  lemma CapabilitiesStep(b: Bytes, at: nat, limit: nat, mid: nat, ts: seq<Bytes>, end: nat)
    requires limit <= |b| && ts != [] && TakeCapability(b, at, limit) == Ok(Taken(ts[0], mid))
    requires TakeCapabilities(b, mid, |ts| - 1, limit) == Ok(Taken(ts[1..], end))
    ensures TakeCapabilities(b, at, |ts|, limit) == Ok(Taken(ts, end))
  {
    assert [ts[0]] + ts[1..] == ts;
  }

  lemma CapabilitiesSplit(b: Bytes, at: nat, ts: seq<Bytes>, limit: nat, end: nat) returns (mid: nat)
    requires Holds(b, at, EncodeTexts(ts)) && end == at + |EncodeTexts(ts)| <= limit <= |b| && ts != []
    requires TextOk(ts[0])
    ensures mid + |EncodeTexts(ts[1..])| == end
    ensures TakeCapability(b, at, limit) == Ok(Taken(ts[0], mid)) && Holds(b, mid, EncodeTexts(ts[1..]))
  {
    mid := at + |EncodeText(ts[0])|;
    HoldsPair(b, at, EncodeText(ts[0]), EncodeTexts(ts[1..]));
    CapabilityTaken(b, at, ts[0], limit);
  }

  lemma {:induction false} CapabilitiesTaken(b: Bytes, at: nat, ts: seq<Bytes>, limit: nat, end: nat)
    requires Holds(b, at, EncodeTexts(ts)) && end == at + |EncodeTexts(ts)| <= limit <= |b|
    requires AllTexts(ts)
    ensures TakeCapabilities(b, at, |ts|, limit) == Ok(Taken(ts, end))
    decreases |ts|
  {
    if ts != [] {
      var mid := CapabilitiesSplit(b, at, ts, limit, end);
      CapabilitiesTaken(b, mid, ts[1..], limit, end);
      CapabilitiesStep(b, at, limit, mid, ts, end);
    }
  }

  // ---------------------------------------------------------------- items read back to their bytes

  lemma TextBytes(b: Bytes, at: nat, length: nat, limit: nat, t: Taken<Bytes>)
    requires limit <= |b| && TakeText(b, at, length, limit) == Ok(t)
    ensures t.next == at + length <= limit && |t.value| == length && b[at..t.next] == t.value
  {
  }

  lemma ShortBytes(b: Bytes, at: nat)
    requires at + 2 <= |b|
    ensures LeBytes(Le(b, at, 2), 2) == b[at..at + 2]
  {
    LeIs(b, at, 2);
    LeCanonical(b[at..at + 2]);
  }

  lemma JoinAt(b: Bytes, i: nat, j: nat, k: nat)
    requires i <= j <= k <= |b|
    ensures b[i..j] + b[j..k] == b[i..k]
  {
  }

  lemma CapabilityBytes(b: Bytes, at: nat, limit: nat, t: Taken<Bytes>)
    requires limit <= |b| && TakeCapability(b, at, limit) == Ok(t)
    ensures at <= t.next <= limit && b[at..t.next] == EncodeText(t.value)
  {
    TextBytes(b, at + 2, Le(b, at, 2), limit, t);
    ShortBytes(b, at);
    JoinAt(b, at, at + 2, t.next);
  }

  lemma ScopeBytes(b: Bytes, at: nat, limit: nat, t: Taken<PackageScope>)
    requires limit <= |b| && TakeScope(b, at, limit) == Ok(t)
    ensures at <= t.next <= limit && b[at..t.next] == EncodeScope(t.value)
  {
    TextBytes(b, at + 4, Le(b, at + 2, 2), limit, TakeText(b, at + 4, Le(b, at + 2, 2), limit).value);
    ShortBytes(b, at + 2);
    assert b[at..at + 2] == [KindByte(t.value.kind), 0];
    JoinAt(b, at, at + 2, at + 4);
    JoinAt(b, at, at + 4, t.next);
  }

  lemma {:induction false} ScopesBytes(b: Bytes, at: nat, n: nat, limit: nat, t: Taken<seq<PackageScope>>)
    requires at <= limit <= |b| && TakeScopes(b, at, n, limit) == Ok(t)
    ensures |t.value| == n && at <= t.next <= limit && b[at..t.next] == EncodeScopes(t.value)
    decreases n
  {
    if n > 0 {
      var first := TakeScope(b, at, limit).value;
      var rest := TakeScopes(b, first.next, n - 1, limit).value;
      ScopeBytes(b, at, limit, first);
      ScopesBytes(b, first.next, n - 1, limit, rest);
      JoinAt(b, at, first.next, t.next);
      assert t.value[0] == first.value && t.value[1..] == rest.value;
    }
  }

  lemma {:induction false} CapabilitiesBytes(b: Bytes, at: nat, n: nat, limit: nat, t: Taken<seq<Bytes>>)
    requires at <= limit <= |b| && TakeCapabilities(b, at, n, limit) == Ok(t)
    ensures |t.value| == n && at <= t.next <= limit && b[at..t.next] == EncodeTexts(t.value)
    decreases n
  {
    if n > 0 {
      var first := TakeCapability(b, at, limit).value;
      var rest := TakeCapabilities(b, first.next, n - 1, limit).value;
      CapabilityBytes(b, at, limit, first);
      CapabilitiesBytes(b, first.next, n - 1, limit, rest);
      JoinAt(b, at, first.next, t.next);
      assert t.value[0] == first.value && t.value[1..] == rest.value;
    }
  }

  // ---------------------------------------------------------------- the body

  /** What a valid certificate's strings are. */
  predicate Texts(c: Certificate) {
    TextOk(c.developerId) && ScopeTexts(c.scopes) && AllTexts(c.capabilities)
  }

  lemma ValidTexts(keys: Keys, c: Certificate)
    requires Validate(keys, c).None?
    ensures Texts(c) && |c.scopes| < 0x1_0000 && |c.capabilities| < 0x1_0000 && EncodedLength(c) < 0x1_0000_0000
  {
    DeveloperIsText(c.developerId);
    assert c.scopes[0..] == c.scopes && c.capabilities[0..] == c.capabilities;
    ScopesAreTexts(c.scopes, 0);
    CapabilitiesAreTexts(c.capabilities, 0);
  }

  lemma {:induction false} ScopesAreTexts(ss: seq<PackageScope>, i: nat)
    requires i <= |ss| && CheckScopes(ss, i).None?
    ensures ScopeTexts(ss[i..])
    decreases |ss| - i
  {
    if i < |ss| {
      PackageIsText(ss[i].packageId);
      ScopesAreTexts(ss, i + 1);
      assert ss[i..][1..] == ss[i + 1..];
    }
  }

  lemma {:induction false} CapabilitiesAreTexts(cs: seq<Bytes>, i: nat)
    requires i <= |cs| && CheckCapabilities(cs, i).None?
    ensures AllTexts(cs[i..])
    decreases |cs| - i
  {
    if i < |cs| {
      CapabilityIsText(cs[i]);
      CapabilitiesAreTexts(cs, i + 1);
      assert cs[i..][1..] == cs[i + 1..];
    }
  }

  /** The counts the header of an encoding announces. */
  predicate Counts(b: Bytes, c: Certificate) {
    && |b| >= HEADER_LEN && Le(b, 136, 2) == |c.developerId| && Le(b, 138, 2) == |c.scopes|
    && Le(b, 140, 2) == |c.capabilities|
  }

  lemma BodyParts(b: Bytes, c: Certificate)
    requires Holds(b, HEADER_LEN, EncodeBody(c))
    ensures Holds(b, HEADER_LEN, c.developerId) && Holds(b, HEADER_LEN + |c.developerId|, EncodeScopes(c.scopes))
    ensures Holds(b, HEADER_LEN + |c.developerId| + |EncodeScopes(c.scopes)|, EncodeTexts(c.capabilities))
  {
    HoldsPair(b, HEADER_LEN, c.developerId + EncodeScopes(c.scopes), EncodeTexts(c.capabilities));
    HoldsPair(b, HEADER_LEN, c.developerId, EncodeScopes(c.scopes));
  }

  lemma BodyFrom(b: Bytes, limit: nat, d: Bytes, ss: seq<PackageScope>, ts: seq<Bytes>, scopesAt: nat, textsAt: nat)
    requires HEADER_LEN <= limit <= |b|
    requires |d| == Le(b, 136, 2) && |ss| == Le(b, 138, 2) && |ts| == Le(b, 140, 2)
    requires TakeText(b, HEADER_LEN, |d|, limit) == Ok(Taken(d, scopesAt))
    requires TakeScopes(b, scopesAt, |ss|, limit) == Ok(Taken(ss, textsAt))
    requires TakeCapabilities(b, textsAt, |ts|, limit) == Ok(Taken(ts, limit))
    ensures TakeBody(b, limit) == Ok((d, ss, ts))
  {
  }

  lemma BodyTaken(b: Bytes, c: Certificate, limit: nat)
    requires Texts(c) && Counts(b, c) && Holds(b, HEADER_LEN, EncodeBody(c))
    requires limit == HEADER_LEN + |EncodeBody(c)| <= |b|
    ensures TakeBody(b, limit) == Ok((c.developerId, c.scopes, c.capabilities))
  {
    var scopesAt := HEADER_LEN + |c.developerId|;
    var textsAt := scopesAt + |EncodeScopes(c.scopes)|;
    BodyParts(b, c);
    TextTaken(b, HEADER_LEN, c.developerId, limit);
    ScopesTaken(b, scopesAt, c.scopes, limit, textsAt);
    CapabilitiesTaken(b, textsAt, c.capabilities, limit, limit);
    BodyFrom(b, limit, c.developerId, c.scopes, c.capabilities, scopesAt, textsAt);
  }

  lemma BodyBytes(b: Bytes, limit: nat, d: Bytes, ss: seq<PackageScope>, ts: seq<Bytes>)
    requires HEADER_LEN <= limit <= |b| && TakeBody(b, limit) == Ok((d, ss, ts))
    ensures |d| == Le(b, 136, 2) && |ss| == Le(b, 138, 2) && |ts| == Le(b, 140, 2)
    ensures b[HEADER_LEN..limit] == d + EncodeScopes(ss) + EncodeTexts(ts)
  {
    var x := TakeText(b, HEADER_LEN, Le(b, 136, 2), limit).value;
    TextBytes(b, HEADER_LEN, Le(b, 136, 2), limit, x);
    var y := TakeScopes(b, x.next, Le(b, 138, 2), limit).value;
    ScopesBytes(b, x.next, Le(b, 138, 2), limit, y);
    var z := TakeCapabilities(b, y.next, Le(b, 140, 2), limit).value;
    CapabilitiesBytes(b, y.next, Le(b, 140, 2), limit, z);
    JoinAt(b, HEADER_LEN, x.next, y.next);
    JoinAt(b, HEADER_LEN, y.next, limit);
  }

  // ---------------------------------------------------------------- the header

  lemma SixParts(a: Bytes, v: Bytes, h: Bytes, t: Bytes, s: Bytes, i: Bytes, all: Bytes)
    requires all == a + v + h + t + s + i
    requires |a| == 4 && |v| == 2 && |h| == 2 && |t| == 4 && |s| == 8 && |i| == 32
    ensures |all| == 52 && all[0..4] == a && all[4..6] == v && all[6..8] == h && all[8..12] == t
    ensures all[12..20] == s && all[20..52] == i
  {
  }

  lemma NineParts(k: Bytes, p: Bytes, b: Bytes, a: Bytes, u: Bytes, d: Bytes, s: Bytes, c: Bytes, z: Bytes, all: Bytes)
    requires all == k + p + b + a + u + d + s + c + z
    requires |k| == 32 && |p| == 32 && |b| == 8 && |a| == 8 && |u| == 4 && |d| == 2 && |s| == 2 && |c| == 2 && |z| == 2
    ensures |all| == 92 && all[0..32] == k && all[32..64] == p && all[64..72] == b && all[72..80] == a
    ensures all[80..84] == u && all[84..86] == d && all[86..88] == s && all[88..90] == c && all[90..92] == z
  {
  }

  lemma IdentityHolds(b: Bytes, c: Certificate, f: Bytes)
    requires WellTyped(c) && f == IdentityFields(c) && Holds(b, 0, f)
    ensures |f| == 52 && Holds(b, 0, MAGIC) && Holds(b, 4, LeBytes(1, 2)) && Holds(b, 6, LeBytes(HEADER_LEN, 2))
    ensures Holds(b, 8, LeBytes(EncodedLength(c), 4)) && Holds(b, 12, LeBytes(c.serial, 8))
    ensures Holds(b, 20, c.issuerKeyId)
  {
    SixParts(MAGIC, LeBytes(1, 2), LeBytes(HEADER_LEN, 2), LeBytes(EncodedLength(c), 4), LeBytes(c.serial, 8),
             c.issuerKeyId, f);
    HoldsPart(b, 0, f, 0, 4);
    HoldsPart(b, 0, f, 4, 6);
    HoldsPart(b, 0, f, 6, 8);
    HoldsPart(b, 0, f, 8, 12);
    HoldsPart(b, 0, f, 12, 20);
    HoldsPart(b, 0, f, 20, 52);
  }

  lemma SubjectHolds(b: Bytes, c: Certificate, f: Bytes)
    requires WellTyped(c) && f == SubjectFields(c) && Holds(b, 52, f)
    ensures |f| == 92 && Holds(b, 52, c.subjectKeyId) && Holds(b, 84, c.subjectKey)
    ensures Holds(b, 116, LeBytes(c.notBefore, 8)) && Holds(b, 124, LeBytes(c.notAfter, 8))
    ensures Holds(b, 132, LeBytes(c.keyUsage, 4)) && Holds(b, 136, LeBytes(|c.developerId|, 2))
    ensures Holds(b, 138, LeBytes(|c.scopes|, 2)) && Holds(b, 140, LeBytes(|c.capabilities|, 2))
    ensures Holds(b, 142, LeBytes(0, 2))
  {
    NineParts(c.subjectKeyId, c.subjectKey, LeBytes(c.notBefore, 8), LeBytes(c.notAfter, 8), LeBytes(c.keyUsage, 4),
              LeBytes(|c.developerId|, 2), LeBytes(|c.scopes|, 2), LeBytes(|c.capabilities|, 2), LeBytes(0, 2), f);
    NineHold(b, f);
  }

  lemma NineHold(b: Bytes, f: Bytes)
    requires |f| == 92 && Holds(b, 52, f)
    ensures Holds(b, 52, f[0..32]) && Holds(b, 84, f[32..64]) && Holds(b, 116, f[64..72]) && Holds(b, 124, f[72..80])
    ensures Holds(b, 132, f[80..84]) && Holds(b, 136, f[84..86]) && Holds(b, 138, f[86..88])
    ensures Holds(b, 140, f[88..90]) && Holds(b, 142, f[90..92])
  {
    HoldsPart(b, 52, f, 0, 32);
    HoldsPart(b, 52, f, 32, 64);
    HoldsPart(b, 52, f, 64, 72);
    HoldsPart(b, 52, f, 72, 80);
    HoldsPart(b, 52, f, 80, 84);
    HoldsPart(b, 52, f, 84, 86);
    HoldsPart(b, 52, f, 86, 88);
    HoldsPart(b, 52, f, 88, 90);
    HoldsPart(b, 52, f, 90, 92);
  }

  lemma Written(b: Bytes, at: nat, v: nat, n: nat, limit: nat)
    requires Holds(b, at, LeBytes(v, n)) && v < limit
    requires (n == 2 && limit == 0x1_0000) || (n == 4 && limit == 0x1_0000_0000)
          || (n == 8 && limit == 0x1_0000_0000_0000_0000)
    ensures at + n <= |b| && Le(b, at, n) == v
  {
    Pow256Values();
    LeWritten(b, at, v, n);
  }

  /** The integers an encoded header holds. */
  predicate IdentityRead(b: Bytes, c: Certificate) {
    && |b| >= HEADER_LEN && b[0..4] == MAGIC && Le(b, 4, 2) == 1 && Le(b, 6, 2) == HEADER_LEN
    && Le(b, 8, 4) == EncodedLength(c) && Le(b, 12, 8) == c.serial && b[20..52] == c.issuerKeyId
  }

  predicate SubjectRead(b: Bytes, c: Certificate) {
    && |b| >= HEADER_LEN && b[52..84] == c.subjectKeyId && b[84..116] == c.subjectKey
    && Le(b, 116, 8) == c.notBefore && Le(b, 124, 8) == c.notAfter && Le(b, 132, 4) == c.keyUsage
    && Counts(b, c) && Le(b, 142, 2) == 0
  }

  lemma ReadsIdentity(b: Bytes, c: Certificate)
    requires WellTyped(c) && |b| >= HEADER_LEN && Holds(b, 0, IdentityFields(c)) && EncodedLength(c) < 0x1_0000_0000
    ensures IdentityRead(b, c)
  {
    IdentityHolds(b, c, IdentityFields(c));
    Written(b, 4, 1, 2, 0x1_0000);
    Written(b, 6, HEADER_LEN, 2, 0x1_0000);
    Written(b, 8, EncodedLength(c), 4, 0x1_0000_0000);
    Written(b, 12, c.serial, 8, 0x1_0000_0000_0000_0000);
  }

  lemma ReadsSubject(b: Bytes, c: Certificate)
    requires WellTyped(c) && |b| >= HEADER_LEN && Holds(b, 52, SubjectFields(c))
    requires |c.developerId| < 0x1_0000 && |c.scopes| < 0x1_0000 && |c.capabilities| < 0x1_0000
    ensures SubjectRead(b, c)
  {
    SubjectHolds(b, c, SubjectFields(c));
    Written(b, 116, c.notBefore, 8, 0x1_0000_0000_0000_0000);
    Written(b, 124, c.notAfter, 8, 0x1_0000_0000_0000_0000);
    Written(b, 132, c.keyUsage, 4, 0x1_0000_0000);
    Written(b, 136, |c.developerId|, 2, 0x1_0000);
    Written(b, 138, |c.scopes|, 2, 0x1_0000);
    Written(b, 140, |c.capabilities|, 2, 0x1_0000);
    Written(b, 142, 0, 2, 0x1_0000);
  }

  // ---------------------------------------------------------------- decoding undoes encoding

  lemma EncodedParts(c: Certificate, b: Bytes)
    requires WellTyped(c) && b == EncodeHeader(c) + EncodeBody(c) + c.signature
    requires |IdentityFields(c)| == 52 && |SubjectFields(c)| == 92
    ensures |b| == EncodedLength(c) && Holds(b, 0, IdentityFields(c)) && Holds(b, 52, SubjectFields(c))
    ensures Holds(b, HEADER_LEN, EncodeBody(c)) && b[|b| - SIGNATURE_LEN..] == c.signature
  {
    var i, s, body := IdentityFields(c), SubjectFields(c), EncodeBody(c);
    PartsOfFour(i, s, body, c.signature, b);
  }

  lemma PartsOfFour(i: Bytes, s: Bytes, body: Bytes, g: Bytes, b: Bytes)
    requires b == i + s + body + g
    ensures |b| == |i| + |s| + |body| + |g| && Holds(b, 0, i) && Holds(b, |i|, s) && Holds(b, |i| + |s|, body)
    ensures b[|b| - |g|..] == g
  {
  }

  lemma HeaderLengths(c: Certificate)
    requires WellTyped(c)
    ensures |IdentityFields(c)| == 52 && |SubjectFields(c)| == 92
  {
  }

  lemma HeaderAccepted(b: Bytes, c: Certificate)
    requires IdentityRead(b, c) && SubjectRead(b, c) && |b| == EncodedLength(c) <= MAX_CERTIFICATE_LEN
    requires |c.scopes| <= MAX_SCOPES && |c.capabilities| <= MAX_CAPABILITIES
    ensures CheckHeader(b).None?
  {
    assert b[..4] == b[0..4];
  }

  lemma Assembled(b: Bytes, c: Certificate)
    requires IdentityRead(b, c) && SubjectRead(b, c) && HEADER_LEN + SIGNATURE_LEN <= |b| < 0x1_0000_0000
    requires b[|b| - SIGNATURE_LEN..] == c.signature
    ensures Assemble(b, c.developerId, c.scopes, c.capabilities) == c
  {
  }

  lemma ValidLimits(keys: Keys, c: Certificate)
    requires Validate(keys, c).None?
    ensures EncodedLength(c) <= MAX_CERTIFICATE_LEN && |c.scopes| <= MAX_SCOPES && |c.capabilities| <= MAX_CAPABILITIES
  {
  }

  /** Everything decoding reads from an encoding. */
  predicate Reads(b: Bytes, c: Certificate) {
    && IdentityRead(b, c) && SubjectRead(b, c) && |b| == EncodedLength(c) <= MAX_CERTIFICATE_LEN
    && |c.scopes| <= MAX_SCOPES && |c.capabilities| <= MAX_CAPABILITIES
    && b[|b| - SIGNATURE_LEN..] == c.signature
    && TakeBody(b, |b| - SIGNATURE_LEN) == Ok((c.developerId, c.scopes, c.capabilities))
  }

  lemma EncodingHeader(c: Certificate, b: Bytes)
    requires WellTyped(c) && b == EncodeHeader(c) + EncodeBody(c) + c.signature
    requires EncodedLength(c) <= MAX_CERTIFICATE_LEN && |c.developerId| < 0x1_0000
    requires |c.scopes| <= MAX_SCOPES && |c.capabilities| <= MAX_CAPABILITIES
    ensures IdentityRead(b, c) && SubjectRead(b, c)
  {
    HeaderLengths(c);
    EncodedParts(c, b);
    ReadsIdentity(b, c);
    ReadsSubject(b, c);
  }

  lemma EncodingTail(c: Certificate, b: Bytes)
    requires WellTyped(c) && b == EncodeHeader(c) + EncodeBody(c) + c.signature
    ensures |b| == EncodedLength(c) && Holds(b, HEADER_LEN, EncodeBody(c))
    ensures b[|b| - SIGNATURE_LEN..] == c.signature
  {
    HeaderLengths(c);
    EncodedParts(c, b);
  }

  lemma PartsRead(c: Certificate, b: Bytes)
    requires IdentityRead(b, c) && SubjectRead(b, c) && Texts(c)
    requires |b| == EncodedLength(c) <= MAX_CERTIFICATE_LEN && Holds(b, HEADER_LEN, EncodeBody(c))
    requires b[|b| - SIGNATURE_LEN..] == c.signature
    requires |c.scopes| <= MAX_SCOPES && |c.capabilities| <= MAX_CAPABILITIES
    ensures Reads(b, c)
  {
    BodyTaken(b, c, |b| - SIGNATURE_LEN);
  }

  lemma EncodingReads(c: Certificate, b: Bytes)
    requires WellTyped(c) && Texts(c) && b == EncodeHeader(c) + EncodeBody(c) + c.signature
    requires EncodedLength(c) <= MAX_CERTIFICATE_LEN && |c.scopes| <= MAX_SCOPES && |c.capabilities| <= MAX_CAPABILITIES
    ensures Reads(b, c)
  {
    EncodingHeader(c, b);
    EncodingTail(c, b);
    PartsRead(c, b);
  }

  lemma ReadsDecode(keys: Keys, c: Certificate, b: Bytes)
    requires Reads(b, c) && Validate(keys, c).None?
    ensures Decode(keys, b) == Ok(c)
  {
    HeaderAccepted(b, c);
    Assembled(b, c);
  }

  /** Every valid certificate decodes from its encoding to itself. */
  lemma DecodeEncode(keys: Keys, c: Certificate, b: Bytes)
    requires WellTyped(c) && Encode(keys, c) == Ok(b)
    ensures Decode(keys, b) == Ok(c) && |b| == EncodedLength(c)
  {
    ValidTexts(keys, c);
    ValidLimits(keys, c);
    EncodingReads(c, b);
    ReadsDecode(keys, c, b);
  }

  // ---------------------------------------------------------------- encoding undoes decoding

  lemma LeSlice(b: Bytes, o: nat, n: nat)
    requires o + n <= |b|
    ensures LeBytes(Le(b, o, n), n) == b[o..o + n]
  {
    LeIs(b, o, n);
    LeCanonical(b[o..o + n]);
  }

  lemma JoinIdentity(b: Bytes)
    requires |b| >= 52
    ensures b[0..4] + b[4..6] + b[6..8] + b[8..12] + b[12..20] + b[20..52] == b[0..52]
  {
    JoinAt(b, 0, 4, 6);
    JoinAt(b, 0, 6, 8);
    JoinAt(b, 0, 8, 12);
    JoinAt(b, 0, 12, 20);
    JoinAt(b, 0, 20, 52);
  }

  lemma JoinSubject(b: Bytes)
    requires |b| >= 144
    ensures b[52..84] + b[84..116] + b[116..124] + b[124..132] + b[132..136] + b[136..138] + b[138..140]
            + b[140..142] + b[142..144] == b[52..144]
  {
    JoinAt(b, 52, 84, 116);
    JoinAt(b, 52, 116, 124);
    JoinAt(b, 52, 124, 132);
    JoinAt(b, 52, 132, 136);
    JoinAt(b, 52, 136, 138);
    JoinAt(b, 52, 138, 140);
    JoinAt(b, 52, 140, 142);
    JoinAt(b, 52, 142, 144);
  }

  lemma IdentityBytes(b: Bytes, c: Certificate)
    requires IdentityRead(b, c)
    ensures IdentityFields(c) == b[0..52]
  {
    LeSlice(b, 4, 2);
    LeSlice(b, 6, 2);
    LeSlice(b, 8, 4);
    LeSlice(b, 12, 8);
    JoinIdentity(b);
  }

  lemma SubjectBytes(b: Bytes, c: Certificate)
    requires SubjectRead(b, c)
    ensures SubjectFields(c) == b[52..144]
  {
    LeSlice(b, 116, 8);
    LeSlice(b, 124, 8);
    LeSlice(b, 132, 4);
    LeSlice(b, 136, 2);
    LeSlice(b, 138, 2);
    LeSlice(b, 140, 2);
    LeSlice(b, 142, 2);
    JoinSubject(b);
  }

  lemma DecodedReads(keys: Keys, b: Bytes, c: Certificate)
    requires Decode(keys, b) == Ok(c)
    ensures HEADER_LEN + SIGNATURE_LEN <= |b| && Validate(keys, c).None? && c.signature == b[|b| - SIGNATURE_LEN..]
    ensures b[HEADER_LEN..|b| - SIGNATURE_LEN] == EncodeBody(c) && Counts(b, c) && WellTyped(c)
    ensures |b| == EncodedLength(c)
  {
    var limit := |b| - SIGNATURE_LEN;
    var body := TakeBody(b, limit).value;
    BodyBytes(b, limit, body.0, body.1, body.2);
  }

  lemma DecodedHeader(keys: Keys, b: Bytes, c: Certificate)
    requires Decode(keys, b) == Ok(c) && |b| == EncodedLength(c) && Counts(b, c)
    ensures IdentityRead(b, c) && SubjectRead(b, c)
  {
    assert b[0..4] == b[..4];
  }

  /** Every accepted byte string is the encoding of what it decodes to. */
  lemma EncodeDecode(keys: Keys, b: Bytes, c: Certificate)
    requires Decode(keys, b) == Ok(c)
    ensures Encode(keys, c) == Ok(b)
  {
    var limit := |b| - SIGNATURE_LEN;
    DecodedReads(keys, b, c);
    DecodedHeader(keys, b, c);
    IdentityBytes(b, c);
    SubjectBytes(b, c);
    JoinAt(b, 0, 52, HEADER_LEN);
    JoinAt(b, 0, HEADER_LEN, limit);
    JoinAt(b, 0, limit, |b|);
    assert b[limit..|b|] == b[limit..] && b[0..|b|] == b;
  }

  // ---------------------------------------------------------------- order and lookup

  lemma {:induction false} LessTransitive(a: Bytes, b: Bytes, c: Bytes)
    requires Less(a, b) && Less(b, c)
    ensures Less(a, c)
  {
    if a != [] && a[0] == b[0] && b[0] == c[0] { LessTransitive(a[1..], b[1..], c[1..]); }
  }

  lemma {:induction false} LessIrreflexive(a: Bytes)
    ensures !Less(a, a)
  {
    if a != [] { LessIrreflexive(a[1..]); }
  }

  lemma {:induction false} LessTotal(a: Bytes, b: Bytes)
    requires a != b
    ensures Less(a, b) || Less(b, a)
  {
    if a != [] && b != [] && a[0] == b[0] {
      assert a == [a[0]] + a[1..] && b == [b[0]] + b[1..];
      LessTotal(a[1..], b[1..]);
    }
  }

  predicate Sorted(cs: seq<Bytes>) {
    forall i, j :: 0 <= i < j < |cs| ==> Less(cs[i], cs[j])
  }

  lemma {:induction false} AdjacentSorted(cs: seq<Bytes>, i: nat, j: nat)
    requires CheckCapabilities(cs, 0).None? && i < j < |cs|
    ensures Less(cs[i], cs[j])
    decreases j
  {
    CapabilitiesOk(cs, 0, j);
    if i < j - 1 {
      AdjacentSorted(cs, i, j - 1);
      LessTransitive(cs[i], cs[j - 1], cs[j]);
    }
  }

  /** The checks of neighbours force strict order everywhere. */
  lemma ValidIsSorted(keys: Keys, c: Certificate)
    requires Validate(keys, c).None?
    ensures Sorted(c.capabilities)
  {
    forall i, j | 0 <= i < j < |c.capabilities| ensures Less(c.capabilities[i], c.capabilities[j]) {
      AdjacentSorted(c.capabilities, i, j);
    }
  }

  lemma {:induction false} AdjacentScopes(ss: seq<PackageScope>, i: nat, j: nat)
    requires CheckScopes(ss, 0).None? && i < j < |ss|
    ensures ScopeLess(ss[i], ss[j]) && ss[i] != ss[j]
    decreases j
  {
    ScopesOk(ss, 0, j);
    if i < j - 1 {
      AdjacentScopes(ss, i, j - 1);
      if ss[i].kind == ss[j].kind { LessTransitive(ss[i].packageId, ss[j - 1].packageId, ss[j].packageId); }
    }
    LessIrreflexive(ss[i].packageId);
  }

  lemma Below(cs: seq<Bytes>, i: nat, wanted: Bytes)
    requires Sorted(cs) && i < |cs| && Less(cs[i], wanted)
    ensures forall k :: 0 <= k <= i ==> cs[k] != wanted
  {
    forall k | 0 <= k <= i ensures cs[k] != wanted {
      if k < i { LessTransitive(cs[k], cs[i], wanted); }
      LessIrreflexive(wanted);
    }
  }

  lemma Above(cs: seq<Bytes>, i: nat, wanted: Bytes)
    requires Sorted(cs) && i < |cs| && Less(wanted, cs[i])
    ensures forall k :: i <= k < |cs| ==> cs[k] != wanted
  {
    forall k | i <= k < |cs| ensures cs[k] != wanted {
      if k > i { LessTransitive(wanted, cs[i], cs[k]); }
      LessIrreflexive(wanted);
    }
  }

  /** The binary search of a verified certificate agrees with membership. */
  method AllowsCapability(keys: Keys, signed: Certificate -> bool, c: Certificate, root: Bytes, now: u64,
                          packageId: Bytes, wanted: Bytes)
    returns (found: bool)
    requires Verify(keys, signed, c, root, now, packageId).None?
    ensures found <==> wanted in c.capabilities
  {
    ValidIsSorted(keys, c);
    found := BinarySearch(c.capabilities, wanted);
  }

  method BinarySearch(cs: seq<Bytes>, wanted: Bytes) returns (found: bool)
    requires Sorted(cs)
    ensures found <==> wanted in cs
  {
    var low, high := 0, |cs|;
    while low < high
      invariant low <= high <= |cs|
      invariant forall k :: 0 <= k < |cs| && (k < low || high <= k) ==> cs[k] != wanted
    {
      var middle := (low + high) / 2;
      if cs[middle] == wanted { return true; }
      LessTotal(cs[middle], wanted);
      if Less(cs[middle], wanted) {
        Below(cs, middle, wanted);
        low := middle + 1;
      } else {
        Above(cs, middle, wanted);
        high := middle;
      }
    }
    found := false;
  }
}
