/** Exactly which certificates are valid, and exactly which packages a verified one speaks for. */
module CertificateTrust {
  import opened Machine
  import opened CertificateSpec
  import opened CertificateCodec

  // ---------------------------------------------------------------- dotted names

  /** The dot-separated segments of a name. */
  function Segments(s: Bytes): (r: seq<Bytes>)
    ensures r != []
    decreases |s|
  {
    var i := Dot(s);
    if i == |s| then [s] else [s[..i]] + Segments(s[i + 1..])
  }

  /** Segments joined by dots. */
  function Joined(ss: seq<Bytes>): Bytes
    requires ss != []
  {
    if |ss| == 1 then ss[0] else ss[0] + [46] + Joined(ss[1..])
  }

  lemma {:induction false} JoinedSegments(s: Bytes)
    ensures Joined(Segments(s)) == s
    decreases |s|
  {
    var i := Dot(s);
    if i < |s| {
      JoinedSegments(s[i + 1..]);
      assert Segments(s)[1..] == Segments(s[i + 1..]);
      assert s == s[..i] + [46] + s[i + 1..];
    }
  }

  lemma DotIs(s: Bytes, i: nat)
    requires i <= |s| && (i < |s| ==> s[i] == 46) && forall j :: 0 <= j < i ==> s[j] != 46
    ensures Dot(s) == i
  {
  }

  lemma SegmentsFirst(first: Bytes, rest: Bytes)
    requires 46 !in first
    ensures Segments(first + [46] + rest) == [first] + Segments(rest)
  {
    var all := first + [46] + rest;
    DotIs(all, |first|);
    assert all[..|first|] == first && all[|first| + 1..] == rest;
  }

  lemma {:induction false} SegmentsOfPair(a: Bytes, b: Bytes)
    ensures Segments(a + [46] + b) == Segments(a) + Segments(b)
    decreases |a|
  {
    var i := Dot(a);
    var first := a[..i];
    if i == |a| {
      assert first == a;
      SegmentsFirst(first, b);
    } else {
      var more := a[i + 1..];
      assert a == first + [46] + more;
      assert a + [46] + b == first + [46] + (more + [46] + b);
      SegmentsFirst(first, more + [46] + b);
      SegmentsFirst(first, more);
      SegmentsOfPair(more, b);
      Regrouped([first], Segments(more), Segments(b));
    }
  }

  lemma {:induction false} JoinedPair(a: seq<Bytes>, b: seq<Bytes>)
    requires a != [] && b != []
    ensures Joined(a + b) == Joined(a) + [46] + Joined(b)
  {
    assert (a + b)[0] == a[0] && (a + b)[1..] == a[1..] + b;
    if |a| == 1 {
      assert a[1..] + b == b;
    } else {
      JoinedPair(a[1..], b);
      assert a[0] + [46] + (Joined(a[1..]) + [46] + Joined(b)) == a[0] + [46] + Joined(a[1..]) + [46] + Joined(b);
    }
  }

  /** An exact scope covers its own name; a prefix scope covers the names that begin with its segments. */
  predicate Covers(s: PackageScope, packageId: Bytes) {
    match s.kind
    case Exact => Segments(packageId) == Segments(s.packageId)
    case Prefix => Segments(s.packageId) <= Segments(packageId)
  }

  /** One name goes on after a dot where another ends. */
  predicate Extends(y: Bytes, x: Bytes) {
    |x| < |y| && y[..|x|] == x && y[|x|] == 46
  }

  lemma ExtendedSegments(x: Bytes, y: Bytes)
    requires Extends(y, x)
    ensures Segments(x) <= Segments(y)
  {
    var rest := y[|x| + 1..];
    assert y == x + [46] + rest;
    SegmentsOfPair(x, rest);
  }

  lemma JoinedMore(a: seq<Bytes>, b: seq<Bytes>)
    requires a != [] && a < b
    ensures Extends(Joined(b), Joined(a))
  {
    var rest := b[|a|..];
    assert b == a + rest;
    JoinedPair(a, rest);
  }

  lemma MoreSegmentsExtend(x: Bytes, y: Bytes)
    requires Segments(x) < Segments(y)
    ensures Extends(y, x)
  {
    JoinedSegments(x);
    JoinedSegments(y);
    JoinedMore(Segments(x), Segments(y));
  }

  lemma SameSegments(x: Bytes, y: Bytes)
    requires Segments(x) == Segments(y)
    ensures x == y
  {
    JoinedSegments(x);
    JoinedSegments(y);
  }

  /** Comparing bytes and looking for a dot decides coverage by whole segments, for any two byte strings. */
  lemma MatchesWholeSegments(s: PackageScope, packageId: Bytes)
    ensures Matches(s, packageId) <==> Covers(s, packageId)
  {
    if Segments(packageId) == Segments(s.packageId) { SameSegments(packageId, s.packageId); }
    if Extends(packageId, s.packageId) { ExtendedSegments(s.packageId, packageId); }
    if Segments(s.packageId) < Segments(packageId) { MoreSegmentsExtend(s.packageId, packageId); }
  }

  predicate LowerOrDigit(b: byte) {
    'a' <= b as char <= 'z' || '0' <= b as char <= '9'
  }

  /** Lower-case letters, digits and hyphens, with no hyphen at either end. */
  predicate SegmentSpelled(s: Bytes) {
    && s != [] && (forall i :: 0 <= i < |s| ==> LowerOrDigit(s[i]) || s[i] as char == '-')
    && LowerOrDigit(s[0]) && LowerOrDigit(s[|s| - 1])
  }

  lemma SegmentExactly(s: Bytes)
    ensures SegmentOk(s) <==> SegmentSpelled(s)
  {
    if s != [] && SegmentOk(s) { assert SegmentByte(s[0]) && SegmentByte(s[|s| - 1]); }
  }

  predicate AllSegments(ss: seq<Bytes>) {
    forall i :: 0 <= i < |ss| ==> SegmentSpelled(ss[i])
  }

  lemma AllOfMore(first: Bytes, rest: seq<Bytes>)
    ensures AllSegments([first] + rest) <==> SegmentSpelled(first) && AllSegments(rest)
  {
    var all := [first] + rest;
    if AllSegments(all) {
      assert SegmentSpelled(all[0]);
      forall i | 0 <= i < |rest| ensures SegmentSpelled(rest[i]) { assert all[i + 1] == rest[i]; }
    }
  }

  lemma {:induction false} SegmentsAllOk(s: Bytes)
    ensures SegmentsOk(s) <==> AllSegments(Segments(s))
    decreases |s|
  {
    var i := Dot(s);
    SegmentExactly(s[..i]);
    if i < |s| {
      SegmentsAllOk(s[i + 1..]);
      AllOfMore(s[..i], Segments(s[i + 1..]));
    } else {
      assert s[..i] == s;
      AllOfMore(s, []);
      assert [s] + [] == [s];
    }
  }

  /** Two or more segments in at most 255 bytes. */
  predicate PackageSpelled(s: Bytes) {
    |s| <= 255 && |Segments(s)| >= 2 && AllSegments(Segments(s))
  }

  /** A package name is legal exactly when it has two or more legal segments in at most 255 bytes. */
  lemma PackageIdExactly(s: Bytes)
    ensures PackageIdOk(s) <==> PackageSpelled(s)
  {
    SegmentsAllOk(s);
  }

  /** A version-7 identifier in 32 lower-case hexadecimal digits. */
  predicate DeveloperSpelled(s: Bytes) {
    && |s| == 32 && (forall i :: 0 <= i < |s| ==> LowerOrDigit(s[i]) && s[i] as char <= 'f')
    && s[12] as char == '7' && s[16] as char in {'8', '9', 'a', 'b'}
  }

  /** One to 255 lower-case letters, digits, dots, hyphens and underscores. */
  predicate CapabilitySpelled(s: Bytes) {
    1 <= |s| <= 255 && forall i :: 0 <= i < |s| ==> LowerOrDigit(s[i]) || s[i] as char in {'.', '-', '_'}
  }

  lemma TextsExactly(s: Bytes)
    ensures DeveloperIdOk(s) <==> DeveloperSpelled(s)
    ensures CapabilityOk(s) <==> CapabilitySpelled(s)
  {
  }

  // ---------------------------------------------------------------- a valid certificate

  predicate ScopesSorted(ss: seq<PackageScope>) {
    forall i, j :: 0 <= i < j < |ss| ==> ScopeLess(ss[i], ss[j])
  }

  lemma {:induction false} ScopesPass(ss: seq<PackageScope>, i: nat)
    requires i <= |ss| && ScopesSorted(ss) && forall k :: 0 <= k < |ss| ==> PackageSpelled(ss[k].packageId)
    ensures CheckScopes(ss, i) == None
    decreases |ss| - i
  {
    if i < |ss| {
      PackageIdExactly(ss[i].packageId);
      if i > 0 {
        assert ScopeLess(ss[i - 1], ss[i]);
        LessIrreflexive(ss[i].packageId);
      }
      ScopesPass(ss, i + 1);
    }
  }

  /** Checking neighbours decides that every scope is legal and every two are in strict order. */
  lemma ScopesExactly(ss: seq<PackageScope>)
    ensures CheckScopes(ss, 0) == None
       <==> (forall k :: 0 <= k < |ss| ==> PackageSpelled(ss[k].packageId)) && ScopesSorted(ss)
  {
    if CheckScopes(ss, 0) == None {
      forall k | 0 <= k < |ss| ensures PackageSpelled(ss[k].packageId) {
        ScopesOk(ss, 0, k);
        PackageIdExactly(ss[k].packageId);
      }
      forall i, j | 0 <= i < j < |ss| ensures ScopeLess(ss[i], ss[j]) { AdjacentScopes(ss, i, j); }
    } else if (forall k :: 0 <= k < |ss| ==> PackageSpelled(ss[k].packageId)) && ScopesSorted(ss) {
      ScopesPass(ss, 0);
    }
  }

  lemma {:induction false} CapabilitiesPass(cs: seq<Bytes>, i: nat)
    requires i <= |cs| && Sorted(cs) && forall k :: 0 <= k < |cs| ==> CapabilitySpelled(cs[k])
    ensures CheckCapabilities(cs, i) == None
    decreases |cs| - i
  {
    if i < |cs| {
      TextsExactly(cs[i]);
      if i > 0 {
        assert Less(cs[i - 1], cs[i]);
        LessIrreflexive(cs[i]);
      }
      CapabilitiesPass(cs, i + 1);
    }
  }

  /** Checking neighbours decides that every capability is legal and every two are in strict order. */
  lemma CapabilitiesExactly(cs: seq<Bytes>)
    ensures CheckCapabilities(cs, 0) == None
       <==> (forall k :: 0 <= k < |cs| ==> CapabilitySpelled(cs[k])) && Sorted(cs)
  {
    if CheckCapabilities(cs, 0) == None {
      forall k | 0 <= k < |cs| ensures CapabilitySpelled(cs[k]) {
        CapabilitiesOk(cs, 0, k);
        TextsExactly(cs[k]);
      }
      forall i, j | 0 <= i < j < |cs| ensures Less(cs[i], cs[j]) { AdjacentSorted(cs, i, j); }
    } else if (forall k :: 0 <= k < |cs| ==> CapabilitySpelled(cs[k])) && Sorted(cs) {
      CapabilitiesPass(cs, 0);
    }
  }

  /** One to 256 legal scopes in strict order. */
  predicate ScopesLegal(ss: seq<PackageScope>) {
    && 1 <= |ss| <= 256 && (forall k :: 0 <= k < |ss| ==> PackageSpelled(ss[k].packageId)) && ScopesSorted(ss)
  }

  /** At most 512 legal capabilities in strict order. */
  predicate CapabilitiesLegal(cs: seq<Bytes>) {
    |cs| <= 512 && (forall k :: 0 <= k < |cs| ==> CapabilitySpelled(cs[k])) && Sorted(cs)
  }

  function ScopeBytesTotal(ss: seq<PackageScope>): nat {
    if ss == [] then 0 else 4 + |ss[0].packageId| + ScopeBytesTotal(ss[1..])
  }

  function TextBytesTotal(ts: seq<Bytes>): nat {
    if ts == [] then 0 else 2 + |ts[0]| + TextBytesTotal(ts[1..])
  }

  lemma {:induction false} ScopesLength(ss: seq<PackageScope>)
    ensures |EncodeScopes(ss)| == ScopeBytesTotal(ss)
  {
    if ss != [] { ScopesLength(ss[1..]); }
  }

  lemma {:induction false} TextsLength(ts: seq<Bytes>)
    ensures |EncodeTexts(ts)| == TextBytesTotal(ts)
  {
    if ts != [] { TextsLength(ts[1..]); }
  }

  lemma {:induction false} ScopesAreSmall(ss: seq<PackageScope>)
    requires forall k :: 0 <= k < |ss| ==> PackageSpelled(ss[k].packageId)
    ensures ScopeBytesTotal(ss) <= 259 * |ss|
  {
    if ss != [] {
      assert PackageSpelled(ss[0].packageId);
      ScopesAreSmall(ss[1..]);
    }
  }

  lemma {:induction false} TextsAreSmall(ts: seq<Bytes>)
    requires forall k :: 0 <= k < |ts| ==> CapabilitySpelled(ts[k])
    ensures TextBytesTotal(ts) <= 257 * |ts|
  {
    if ts != [] {
      assert CapabilitySpelled(ts[0]);
      TextsAreSmall(ts[1..]);
    }
  }

  /** The other limits already keep a certificate under the size limit, so that check refuses nothing. */
  lemma LegalIsSmall(c: Certificate)
    requires DeveloperSpelled(c.developerId) && ScopesLegal(c.scopes) && CapabilitiesLegal(c.capabilities)
    ensures EncodedLength(c) == 144 + 32 + ScopeBytesTotal(c.scopes) + TextBytesTotal(c.capabilities) + 64
    ensures EncodedLength(c) <= 198128 < MAX_CERTIFICATE_LEN
  {
    ScopesLength(c.scopes);
    TextsLength(c.capabilities);
    ScopesAreSmall(c.scopes);
    TextsAreSmall(c.capabilities);
  }

  /** The subject's own key, named by its identity, for package signing, over a non-empty time range. */
  predicate SubjectLegal(keys: Keys, c: Certificate) {
    && c.serial != 0 && DeveloperSpelled(c.developerId) && keys.valid(c.subjectKey)
    && c.subjectKeyId == keys.id(c.subjectKey) && c.notBefore < c.notAfter && c.keyUsage == 1
  }

  /** Exactly which certificates are valid. */
  lemma ValidExactly(keys: Keys, c: Certificate)
    ensures Validate(keys, c) == None
       <==> SubjectLegal(keys, c) && ScopesLegal(c.scopes) && CapabilitiesLegal(c.capabilities)
  {
    TextsExactly(c.developerId);
    ScopesExactly(c.scopes);
    CapabilitiesExactly(c.capabilities);
    if SubjectLegal(keys, c) && ScopesLegal(c.scopes) && CapabilitiesLegal(c.capabilities) { LegalIsSmall(c); }
  }

  lemma {:induction false} ScopeFault(ss: seq<PackageScope>, i: nat) returns (k: nat)
    requires i <= |ss| && CheckScopes(ss, i).Some?
    ensures k < |ss|
    ensures match CheckScopes(ss, i).value
      case InvalidPackageScope => !PackageSpelled(ss[k].packageId)
      case DuplicatePackageScope => k > 0 && ss[k - 1] == ss[k]
      case UnsortedPackageScopes => k > 0 && ss[k - 1] != ss[k] && !ScopeLess(ss[k - 1], ss[k])
      case _ => false
    decreases |ss| - i
  {
    PackageIdExactly(ss[i].packageId);
    if !PackageSpelled(ss[i].packageId) || (i > 0 && (ss[i - 1] == ss[i] || !ScopeLess(ss[i - 1], ss[i]))) {
      k := i;
    } else {
      k := ScopeFault(ss, i + 1);
    }
  }

  lemma {:induction false} CapabilityFault(cs: seq<Bytes>, i: nat) returns (k: nat)
    requires i <= |cs| && CheckCapabilities(cs, i).Some?
    ensures k < |cs|
    ensures match CheckCapabilities(cs, i).value
      case InvalidCapability => !CapabilitySpelled(cs[k])
      case DuplicateAllowedCapability => k > 0 && cs[k - 1] == cs[k]
      case UnsortedAllowedCapabilities => k > 0 && cs[k - 1] != cs[k] && !Less(cs[k - 1], cs[k])
      case _ => false
    decreases |cs| - i
  {
    TextsExactly(cs[i]);
    if !CapabilitySpelled(cs[i]) || (i > 0 && (cs[i - 1] == cs[i] || !Less(cs[i - 1], cs[i]))) {
      k := i;
    } else {
      k := CapabilityFault(cs, i + 1);
    }
  }

  /** What an error of a certificate says is true of it; k is a place in its scopes or capabilities. */
  predicate FaultIs(keys: Keys, c: Certificate, error: ValidationError, k: nat) {
    match error
    case ZeroSerialNumber => c.serial == 0
    case InvalidDeveloperId => !DeveloperSpelled(c.developerId)
    case InvalidSubjectPublicKey => !keys.valid(c.subjectKey)
    case SubjectKeyIdMismatch => keys.id(c.subjectKey) != c.subjectKeyId
    case InvalidValidityRange => c.notBefore >= c.notAfter
    case UnknownKeyUsage => c.keyUsage != 1
    case MissingPackageScope => c.scopes == []
    case TooManyPackageScopes => |c.scopes| > 256
    case InvalidPackageScope => k < |c.scopes| && !PackageSpelled(c.scopes[k].packageId)
    case DuplicatePackageScope => 0 < k < |c.scopes| && c.scopes[k - 1] == c.scopes[k]
    case UnsortedPackageScopes => 0 < k < |c.scopes| && ScopeLess(c.scopes[k], c.scopes[k - 1])
    case TooManyAllowedCapabilities => |c.capabilities| > 512
    case InvalidCapability => k < |c.capabilities| && !CapabilitySpelled(c.capabilities[k])
    case DuplicateAllowedCapability => 0 < k < |c.capabilities| && c.capabilities[k - 1] == c.capabilities[k]
    case UnsortedAllowedCapabilities => 0 < k < |c.capabilities| && Less(c.capabilities[k], c.capabilities[k - 1])
    case CertificateTooLarge => false
  }

  /** Every validation error names something that is wrong, and the size is never it. */
  lemma InvalidIsTrue(keys: Keys, c: Certificate) returns (k: nat)
    requires Validate(keys, c).Some?
    ensures FaultIs(keys, c, Validate(keys, c).value, k)
  {
    k := 0;
    ValidExactly(keys, c);
    TextsExactly(c.developerId);
    if CheckScopes(c.scopes, 0).Some? {
      k := ScopeFault(c.scopes, 0);
      if k > 0 && c.scopes[k - 1].packageId != c.scopes[k].packageId {
        LessTotal(c.scopes[k - 1].packageId, c.scopes[k].packageId);
      }
    } else if CheckCapabilities(c.capabilities, 0).Some? {
      k := CapabilityFault(c.capabilities, 0);
      if k > 0 && c.capabilities[k - 1] != c.capabilities[k] { LessTotal(c.capabilities[k - 1], c.capabilities[k]); }
    } else {
      NeverTooLarge(keys, c);
    }
  }

  lemma NeverTooLarge(keys: Keys, c: Certificate)
    ensures Validate(keys, c) != Some(CertificateTooLarge)
  {
    TextsExactly(c.developerId);
    if CheckScopes(c.scopes, 0).Some? { var k := ScopeFault(c.scopes, 0); }
    if CheckCapabilities(c.capabilities, 0).Some? { var k := CapabilityFault(c.capabilities, 0); }
    ScopesExactly(c.scopes);
    CapabilitiesExactly(c.capabilities);
    if DeveloperSpelled(c.developerId) && ScopesLegal(c.scopes) && CapabilitiesLegal(c.capabilities) { LegalIsSmall(c); }
  }

  // ---------------------------------------------------------------- a verified one

  predicate Covered(ss: seq<PackageScope>, packageId: Bytes) {
    exists i :: 0 <= i < |ss| && Covers(ss[i], packageId)
  }

  lemma CoveredExactly(ss: seq<PackageScope>, packageId: Bytes)
    ensures (exists i :: 0 <= i < |ss| && Matches(ss[i], packageId)) <==> Covered(ss, packageId)
  {
    forall i | 0 <= i < |ss| ensures Matches(ss[i], packageId) <==> Covers(ss[i], packageId) {
      MatchesWholeSegments(ss[i], packageId);
    }
  }

  /**
   * A certificate speaks for a package at a time exactly when it is valid and signed by the
   * usable root key it names, the time lies in its range, the end excluded, and the package
   * name is legal and covered, segment by whole segment, by one of its scopes.
   */
  lemma AcceptedExactly(keys: Keys, signed: Certificate -> bool, c: Certificate, root: Bytes, now: u64,
                        packageId: Bytes)
    ensures Verify(keys, signed, c, root, now, packageId) == None
       <==> && keys.valid(root) && c.issuerKeyId == keys.id(root) && signed(c)
            && SubjectLegal(keys, c) && ScopesLegal(c.scopes) && CapabilitiesLegal(c.capabilities)
            && c.notBefore <= now < c.notAfter && PackageSpelled(packageId) && Covered(c.scopes, packageId)
  {
    ValidExactly(keys, c);
    PackageIdExactly(packageId);
    CoveredExactly(c.scopes, packageId);
  }

  /** Each refusal of a certificate names something that is wrong with it. */
  lemma RefusalIsTrue(keys: Keys, signed: Certificate -> bool, c: Certificate, root: Bytes, now: u64,
                      packageId: Bytes)
    requires Verify(keys, signed, c, root, now, packageId).Some?
    ensures match Verify(keys, signed, c, root, now, packageId).value
      case InvalidRootPublicKey => !keys.valid(root)
      case IssuerKeyIdMismatch => c.issuerKeyId != keys.id(root)
      case InvalidSignature =>
        !signed(c) || !SubjectLegal(keys, c) || !ScopesLegal(c.scopes) || !CapabilitiesLegal(c.capabilities)
      case NotYetValid => now < c.notBefore
      case Expired => c.notAfter <= now
      case PackageIdNotAllowed => !PackageSpelled(packageId) || !Covered(c.scopes, packageId)
  {
    ValidExactly(keys, c);
    PackageIdExactly(packageId);
    CoveredExactly(c.scopes, packageId);
  }
}
