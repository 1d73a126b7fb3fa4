/** Developer certificates: validation, the byte format both ways, and capability lookup. */
module CertificateSpec {
  import opened Machine
  import opened Text
  import opened Pieces

  type Bytes = seq<byte>

  const MAGIC: Bytes := [77, 67, 69, 82]
  const HEADER_LEN := 144
  const SIGNATURE_LEN := 64
  const PACKAGE_SIGNING := 1
  const MAX_CERTIFICATE_LEN := 0x10_0000
  const DEVELOPER_ID_LEN := 32
  const MAX_SCOPES := 256
  const MAX_CAPABILITIES := 512
  const MAX_ITEM_LEN := 255

  datatype ScopeKind = Exact | Prefix

  datatype PackageScope = PackageScope(kind: ScopeKind, packageId: Bytes)

  datatype Certificate = Certificate(
    serial: u64, issuerKeyId: Bytes, developerId: Bytes, subjectKeyId: Bytes, subjectKey: Bytes,
    notBefore: u64, notAfter: u64, keyUsage: u32, scopes: seq<PackageScope>, capabilities: seq<Bytes>, signature: Bytes)

  datatype ValidationError =
    | ZeroSerialNumber | InvalidDeveloperId | InvalidSubjectPublicKey | SubjectKeyIdMismatch
    | InvalidValidityRange | UnknownKeyUsage | MissingPackageScope | TooManyPackageScopes
    | InvalidPackageScope | UnsortedPackageScopes | DuplicatePackageScope | TooManyAllowedCapabilities
    | InvalidCapability | UnsortedAllowedCapabilities | DuplicateAllowedCapability | CertificateTooLarge

  datatype DecodeError =
    | TooShort | InvalidLength | InvalidMagic | UnsupportedVersion | InvalidHeaderLength | NonZeroReserved
    | InvalidUtf8 | UnknownScopeKind | Validation(error: ValidationError)

  /** Ed25519 key parsing and the SHA-256 key identity stand for arbitrary functions. */
  datatype Keys = Keys(valid: Bytes -> bool, id: Bytes -> Bytes)

  /** The fixed-size arrays of the record. */
  predicate WellTyped(c: Certificate) {
    |c.issuerKeyId| == 32 && |c.subjectKeyId| == 32 && |c.subjectKey| == 32 && |c.signature| == SIGNATURE_LEN
  }

  // ---------------------------------------------------------------- text rules

  predicate DeveloperIdOk(s: Bytes) {
    && |s| == DEVELOPER_ID_LEN && (forall i :: 0 <= i < |s| ==> 48 <= s[i] <= 57 || 97 <= s[i] <= 102)
    && s[12] == 55 && (s[16] == 56 || s[16] == 57 || s[16] == 97 || s[16] == 98)
  }

  predicate SegmentByte(b: byte) {
    97 <= b <= 122 || 48 <= b <= 57 || b == 45
  }

  predicate SegmentOk(s: Bytes) {
    s != [] && s[0] != 45 && s[|s| - 1] != 45 && forall i :: 0 <= i < |s| ==> SegmentByte(s[i])
  }

  function Dot(s: Bytes): (i: nat)
    ensures i <= |s| && (i < |s| ==> s[i] == 46) && forall j :: 0 <= j < i ==> s[j] != 46
  {
    if s == [] || s[0] == 46 then 0 else 1 + Dot(s[1..])
  }

  /** Every dot-separated segment is well formed. */
  predicate SegmentsOk(s: Bytes)
    decreases |s|
  {
    var i := Dot(s);
    SegmentOk(s[..i]) && (i < |s| ==> SegmentsOk(s[i + 1..]))
  }

  predicate PackageIdOk(s: Bytes) {
    s != [] && |s| <= MAX_ITEM_LEN && SegmentsOk(s) && Dot(s) < |s|
  }

  predicate CapabilityOk(s: Bytes) {
    && s != [] && |s| <= MAX_ITEM_LEN
    && forall i :: 0 <= i < |s| ==> SegmentByte(s[i]) || s[i] == 46 || s[i] == 95
  }

  // ---------------------------------------------------------------- order

  /** Bytewise lexicographic order. */
  predicate Less(a: Bytes, b: Bytes) {
    if a == [] then b != []
    else b != [] && (a[0] < b[0] || (a[0] == b[0] && Less(a[1..], b[1..])))
  }

  function KindByte(k: ScopeKind): byte {
    if k == Exact then 1 else 2
  }

  predicate ScopeLess(a: PackageScope, b: PackageScope) {
    KindByte(a.kind) < KindByte(b.kind) || (a.kind == b.kind && Less(a.packageId, b.packageId))
  }

  /** The scopes from an index on, checked against the one before. */
  function CheckScopes(ss: seq<PackageScope>, i: nat): Option<ValidationError>
    requires i <= |ss|
    decreases |ss| - i
  {
    if i == |ss| then None
    else if !PackageIdOk(ss[i].packageId) then Some(InvalidPackageScope)
    else if i > 0 && ss[i - 1] == ss[i] then Some(DuplicatePackageScope)
    else if i > 0 && !ScopeLess(ss[i - 1], ss[i]) then Some(UnsortedPackageScopes)
    else CheckScopes(ss, i + 1)
  }

  function CheckCapabilities(cs: seq<Bytes>, i: nat): Option<ValidationError>
    requires i <= |cs|
    decreases |cs| - i
  {
    if i == |cs| then None
    else if !CapabilityOk(cs[i]) then Some(InvalidCapability)
    else if i > 0 && cs[i - 1] == cs[i] then Some(DuplicateAllowedCapability)
    else if i > 0 && !Less(cs[i - 1], cs[i]) then Some(UnsortedAllowedCapabilities)
    else CheckCapabilities(cs, i + 1)
  }

  // ---------------------------------------------------------------- the encoding

  function EncodeScope(s: PackageScope): Bytes {
    [KindByte(s.kind), 0] + LeBytes(|s.packageId|, 2) + s.packageId
  }

  function EncodeScopes(ss: seq<PackageScope>): Bytes {
    if ss == [] then [] else EncodeScope(ss[0]) + EncodeScopes(ss[1..])
  }

  function EncodeText(t: Bytes): Bytes {
    LeBytes(|t|, 2) + t
  }

  function EncodeTexts(ts: seq<Bytes>): Bytes {
    if ts == [] then [] else EncodeText(ts[0]) + EncodeTexts(ts[1..])
  }

  /** The part between the header and the signature. */
  function EncodeBody(c: Certificate): Bytes {
    c.developerId + EncodeScopes(c.scopes) + EncodeTexts(c.capabilities)
  }

  function EncodedLength(c: Certificate): nat {
    HEADER_LEN + |EncodeBody(c)| + SIGNATURE_LEN
  }

  /** Header bytes 0 to 52: magic, version, header length, total length, serial and issuer. */
  function IdentityFields(c: Certificate): Bytes {
    MAGIC + LeBytes(1, 2) + LeBytes(HEADER_LEN, 2) + LeBytes(EncodedLength(c), 4) + LeBytes(c.serial, 8)
    + c.issuerKeyId
  }

  /** Header bytes 52 to 144: the subject, its validity and usage, and the counts. */
  function SubjectFields(c: Certificate): Bytes {
    c.subjectKeyId + c.subjectKey + LeBytes(c.notBefore, 8) + LeBytes(c.notAfter, 8) + LeBytes(c.keyUsage, 4)
    + LeBytes(|c.developerId|, 2) + LeBytes(|c.scopes|, 2) + LeBytes(|c.capabilities|, 2) + LeBytes(0, 2)
  }

  function EncodeHeader(c: Certificate): Bytes {
    IdentityFields(c) + SubjectFields(c)
  }

  function Validate(keys: Keys, c: Certificate): Option<ValidationError> {
    if c.serial == 0 then Some(ZeroSerialNumber)
    else if !DeveloperIdOk(c.developerId) then Some(InvalidDeveloperId)
    else if !keys.valid(c.subjectKey) then Some(InvalidSubjectPublicKey)
    else if keys.id(c.subjectKey) != c.subjectKeyId then Some(SubjectKeyIdMismatch)
    else if c.notBefore >= c.notAfter then Some(InvalidValidityRange)
    else if c.keyUsage != PACKAGE_SIGNING then Some(UnknownKeyUsage)
    else if c.scopes == [] then Some(MissingPackageScope)
    else if |c.scopes| > MAX_SCOPES then Some(TooManyPackageScopes)
    else if CheckScopes(c.scopes, 0).Some? then CheckScopes(c.scopes, 0)
    else if |c.capabilities| > MAX_CAPABILITIES then Some(TooManyAllowedCapabilities)
    else if CheckCapabilities(c.capabilities, 0).Some? then CheckCapabilities(c.capabilities, 0)
    else if EncodedLength(c) > MAX_CERTIFICATE_LEN then Some(CertificateTooLarge)
    else None
  }

  function Encode(keys: Keys, c: Certificate): Result<Bytes, ValidationError> {
    var bad := Validate(keys, c);
    if bad.Some? then Err(bad.value) else Ok(EncodeHeader(c) + EncodeBody(c) + c.signature)
  }

  // ---------------------------------------------------------------- decoding

  /** A value read at a cursor, and the cursor after it. */
  datatype Taken<T> = Taken(value: T, next: nat)

  function TakeText(b: Bytes, cursor: nat, length: nat, limit: nat): Result<Taken<Bytes>, DecodeError>
    requires limit <= |b|
  {
    if cursor + length > limit then Err(TooShort)
    else if !ValidUtf8(b[cursor..cursor + length]) then Err(InvalidUtf8)
    else Ok(Taken(b[cursor..cursor + length], cursor + length))
  }

  function TakeScope(b: Bytes, cursor: nat, limit: nat): (r: Result<Taken<PackageScope>, DecodeError>)
    requires limit <= |b|
  {
    if cursor + 4 > limit then Err(TooShort)
    else if b[cursor] != 1 && b[cursor] != 2 then Err(UnknownScopeKind)
    else if b[cursor + 1] != 0 then Err(NonZeroReserved)
    else
      var t := TakeText(b, cursor + 4, Le(b, cursor + 2, 2), limit);
      if t.Err? then Err(t.error)
      else Ok(Taken(PackageScope(if b[cursor] == 1 then Exact else Prefix, t.value.value), t.value.next))
  }

  function TakeScopes(b: Bytes, cursor: nat, n: nat, limit: nat): Result<Taken<seq<PackageScope>>, DecodeError>
    requires limit <= |b|
    decreases n
  {
    if n == 0 then Ok(Taken([], cursor))
    else
      var first := TakeScope(b, cursor, limit);
      if first.Err? then Err(first.error)
      else
        var rest := TakeScopes(b, first.value.next, n - 1, limit);
        if rest.Err? then rest else Ok(Taken([first.value.value] + rest.value.value, rest.value.next))
  }

  function TakeCapability(b: Bytes, cursor: nat, limit: nat): Result<Taken<Bytes>, DecodeError>
    requires limit <= |b|
  {
    if cursor + 2 > limit then Err(TooShort) else TakeText(b, cursor + 2, Le(b, cursor, 2), limit)
  }

  function TakeCapabilities(b: Bytes, cursor: nat, n: nat, limit: nat): Result<Taken<seq<Bytes>>, DecodeError>
    requires limit <= |b|
    decreases n
  {
    if n == 0 then Ok(Taken([], cursor))
    else
      var first := TakeCapability(b, cursor, limit);
      if first.Err? then Err(first.error)
      else
        var rest := TakeCapabilities(b, first.value.next, n - 1, limit);
        if rest.Err? then rest else Ok(Taken([first.value.value] + rest.value.value, rest.value.next))
  }

  /** What the fixed header gets wrong. */
  function CheckHeader(b: Bytes): Option<DecodeError> {
    if |b| < HEADER_LEN + SIGNATURE_LEN then Some(TooShort)
    else if |b| > MAX_CERTIFICATE_LEN then Some(Validation(CertificateTooLarge))
    else if b[..4] != MAGIC then Some(InvalidMagic)
    else if Le(b, 4, 2) != 1 then Some(UnsupportedVersion)
    else if Le(b, 6, 2) != HEADER_LEN then Some(InvalidHeaderLength)
    else if Le(b, 8, 4) != |b| then Some(InvalidLength)
    else if Le(b, 142, 2) != 0 then Some(NonZeroReserved)
    else if Le(b, 138, 2) > MAX_SCOPES then Some(Validation(TooManyPackageScopes))
    else if Le(b, 140, 2) > MAX_CAPABILITIES then Some(Validation(TooManyAllowedCapabilities))
    else None
  }

  /** The variable part: the developer, the scopes and the capabilities, up to the signature. */
  function TakeBody(b: Bytes, limit: nat): Result<(Bytes, seq<PackageScope>, seq<Bytes>), DecodeError>
    requires HEADER_LEN <= limit <= |b|
  {
    var developer := TakeText(b, HEADER_LEN, Le(b, 136, 2), limit);
    if developer.Err? then Err(developer.error)
    else
      var scopes := TakeScopes(b, developer.value.next, Le(b, 138, 2), limit);
      if scopes.Err? then Err(scopes.error)
      else
        var capabilities := TakeCapabilities(b, scopes.value.next, Le(b, 140, 2), limit);
        if capabilities.Err? then Err(capabilities.error)
        else if capabilities.value.next != limit then Err(InvalidLength)
        else Ok((developer.value.value, scopes.value.value, capabilities.value.value))
  }

  /** The record with the header's fixed fields and a variable part. */
  function Assemble(b: Bytes, developer: Bytes, scopes: seq<PackageScope>, capabilities: seq<Bytes>): Certificate
    requires HEADER_LEN + SIGNATURE_LEN <= |b| < 0x1_0000_0000
  {
    Certificate(U64At(b, 12), b[20..52], developer, b[52..84], b[84..116], U64At(b, 116), U64At(b, 124),
                U32At(b, 132), scopes, capabilities, b[|b| - SIGNATURE_LEN..])
  }

  function U64At(b: Bytes, o: nat): u64
    requires o + 8 <= |b|
  {
    LeBound(b, o, 8);
    Pow256Values();
    Le(b, o, 8)
  }

  function U32At(b: Bytes, o: nat): u32
    requires o + 4 <= |b|
  {
    LeBound(b, o, 4);
    Pow256Values();
    Le(b, o, 4)
  }

  function Decode(keys: Keys, b: Bytes): Result<Certificate, DecodeError> {
    var bad := CheckHeader(b);
    if bad.Some? then Err(bad.value)
    else
      var body := TakeBody(b, |b| - SIGNATURE_LEN);
      if body.Err? then Err(body.error)
      else
        var c := Assemble(b, body.value.0, body.value.1, body.value.2);
        var invalid := Validate(keys, c);
        if invalid.Some? then Err(Validation(invalid.value)) else Ok(c)
  }

  // ---------------------------------------------------------------- using a certificate

  predicate Matches(s: PackageScope, packageId: Bytes) {
    || s.packageId == packageId
    || (s.kind == Prefix && |s.packageId| < |packageId| && packageId[..|s.packageId|] == s.packageId
        && packageId[|s.packageId|] == 46)
  }

  datatype VerifyError =
    InvalidRootPublicKey | IssuerKeyIdMismatch | InvalidSignature | NotYetValid | Expired | PackageIdNotAllowed

  /** `signed` decides the Ed25519 check of the certificate's signing message under the root key. */
  function Verify(keys: Keys, signed: Certificate -> bool, c: Certificate, root: Bytes, now: u64, packageId: Bytes):
    Option<VerifyError>
  {
    if !keys.valid(root) then Some(InvalidRootPublicKey)
    else if keys.id(root) != c.issuerKeyId then Some(IssuerKeyIdMismatch)
    else if Validate(keys, c).Some? || !signed(c) then Some(InvalidSignature)
    else if now < c.notBefore then Some(NotYetValid)
    else if now >= c.notAfter then Some(Expired)
    else if !PackageIdOk(packageId) || !exists i :: 0 <= i < |c.scopes| && Matches(c.scopes[i], packageId)
    then Some(PackageIdNotAllowed)
    else None
  }
}
