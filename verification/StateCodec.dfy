/** The fixed 392-byte state record that names the active slot of each snapshot kind. */
module StateCodec {
  import opened Machine
  import opened Pieces

  const MAGIC := 0x494b_5043
  const FORMAT_VERSION := 1
  const MAX_ETAG_BYTES := 128
  const CHECKSUM_LEN := 32
  const STATE_LEN := 392
  const CHECKSUM_OFFSET := 360

  datatype Slot = A | B

  function Inactive(s: Slot): Slot {
    if s == A then B else A
  }

  datatype Metadata = Metadata(
    version: u64, generatedAt: u64, expiresAt: u64, lastCheckedAt: u64, etag: seq<byte>)

  datatype DatabaseState = DatabaseState(
    generation: u64, trustSlot: Slot, revocationSlot: Slot, trust: Metadata, revocations: Metadata)

  const EMPTY := Metadata(0, 0, 0, 0, [])
  const DEFAULT_STATE := DatabaseState(0, A, A, EMPTY, EMPTY)

  datatype EncodeError = InvalidEtagValue

  datatype DecodeError =
    | InvalidLength(actual: nat) | InvalidMagic | UnsupportedVersion | InvalidEncodedLength
    | InvalidSlot | NonZeroReserved | InvalidEtagLength | InvalidEtag | ChecksumMismatch

  /** A quoted tag, weak or strong, of visible characters other than the quote. */
  predicate ValidEtag(bytes: seq<byte>) {
    var inner :=
      if |bytes| >= 4 && bytes[..3] == [0x57, 0x2f, 0x22] && bytes[|bytes| - 1] == 0x22 then
        bytes[3..|bytes| - 1]
      else if |bytes| >= 2 && bytes[0] == 0x22 && bytes[|bytes| - 1] == 0x22 then
        bytes[1..|bytes| - 1]
      else [0];
    forall b :: b in inner ==> b == 0x21 || 0x23 <= b <= 0x7e
  }

  predicate ValidStoredEtag(etag: seq<byte>) {
    |etag| <= MAX_ETAG_BYTES && (etag == [] || ValidEtag(etag))
  }

  predicate Storable(s: DatabaseState) {
    ValidStoredEtag(s.trust.etag) && ValidStoredEtag(s.revocations.etag)
  }

  function SlotByte(s: Slot): byte {
    if s == A then 0 else 1
  }

  // ---------------------------------------------------------------- encoding

  function Header(s: DatabaseState): (h: seq<byte>)
    ensures |h| == 24
  {
    LeBytes(MAGIC, 4) + LeBytes(FORMAT_VERSION, 2) + LeBytes(STATE_LEN, 2) + LeBytes(s.generation, 8)
    + [SlotByte(s.trustSlot), SlotByte(s.revocationSlot)] + Zeros(6)
  }

  function Values(m: Metadata): (v: seq<byte>)
    ensures |v| == 40
  {
    LeBytes(m.version, 8) + LeBytes(m.generatedAt, 8) + LeBytes(m.expiresAt, 8)
    + LeBytes(m.lastCheckedAt, 8) + LeBytes(|m.etag|, 2) + Zeros(6)
  }

  function PaddedEtag(m: Metadata): (t: seq<byte>)
    requires |m.etag| <= MAX_ETAG_BYTES
    ensures |t| == MAX_ETAG_BYTES
  {
    m.etag + Zeros(MAX_ETAG_BYTES - |m.etag|)
  }

  function Body(s: DatabaseState): (b: seq<byte>)
    requires Storable(s)
    ensures |b| == CHECKSUM_OFFSET
  {
    Header(s) + Values(s.trust) + Values(s.revocations) + PaddedEtag(s.trust) + PaddedEtag(s.revocations)
  }

  function Encode(sha: Hash, s: DatabaseState): (r: Result<seq<byte>, EncodeError>)
    ensures r.Ok? <==> Storable(s)
    ensures r.Ok? ==> |r.value| == STATE_LEN
  {
    if Storable(s) then Ok(Body(s) + sha(Body(s))) else Err(InvalidEtagValue)
  }

  // ---------------------------------------------------------------- decoding

  function ReadU64(b: seq<byte>, offset: nat): u64
    requires offset + 8 <= |b|
  {
    Pow256Values();
    LeBound(b, offset, 8);
    Le(b, offset, 8)
  }

  function DecodeSlot(b: byte): Result<Slot, DecodeError> {
    if b == 0 then Ok(A) else if b == 1 then Ok(B) else Err(InvalidSlot)
  }

  /** One kind's metadata, from its 40-byte value block and its 128-byte tag block. */
  function DecodeMetadata(v: seq<byte>, t: seq<byte>): Result<Metadata, DecodeError>
    requires |v| == 40 && |t| == MAX_ETAG_BYTES
  {
    var n := Le(v, 32, 2);
    if n > MAX_ETAG_BYTES then Err(InvalidEtagLength)
    else if t[n..] != Zeros(MAX_ETAG_BYTES - n) then Err(NonZeroReserved)
    else if !ValidStoredEtag(t[..n]) then Err(InvalidEtag)
    else Ok(Metadata(ReadU64(v, 0), ReadU64(v, 8), ReadU64(v, 16), ReadU64(v, 24), t[..n]))
  }

  function DecodeParts(h: seq<byte>, v1: seq<byte>, v2: seq<byte>, t1: seq<byte>, t2: seq<byte>)
    : Result<DatabaseState, DecodeError>
    requires |h| == 24 && |v1| == |v2| == 40 && |t1| == |t2| == MAX_ETAG_BYTES
  {
    if Le(h, 0, 4) != MAGIC then Err(InvalidMagic)
    else if Le(h, 4, 2) != FORMAT_VERSION then Err(UnsupportedVersion)
    else if Le(h, 6, 2) != STATE_LEN then Err(InvalidEncodedLength)
    else if h[18..] != Zeros(6) || v1[34..] != Zeros(6) || v2[34..] != Zeros(6) then Err(NonZeroReserved)
    else
      var trustSlot, revocationSlot := DecodeSlot(h[16]), DecodeSlot(h[17]);
      var trust, revocations := DecodeMetadata(v1, t1), DecodeMetadata(v2, t2);
      if trustSlot.Err? then Err(trustSlot.error)
      else if revocationSlot.Err? then Err(revocationSlot.error)
      else if trust.Err? then Err(trust.error)
      else if revocations.Err? then Err(revocations.error)
      else
        Ok(DatabaseState(ReadU64(h, 8), trustSlot.value, revocationSlot.value, trust.value, revocations.value))
  }

  function Decode(sha: Hash, b: seq<byte>): Result<DatabaseState, DecodeError> {
    if |b| != STATE_LEN then Err(InvalidLength(|b|))
    else
      var r := DecodeParts(b[0..24], b[24..64], b[64..104], b[104..232], b[232..360]);
      if r.Ok? && b[CHECKSUM_OFFSET..] != sha(b[..CHECKSUM_OFFSET]) then Err(ChecksumMismatch) else r
  }

  // ---------------------------------------------------------------- round trips

  lemma SliceValues(a: seq<byte>, b: seq<byte>, c: seq<byte>, d: seq<byte>, n: seq<byte>, z: seq<byte>)
    requires |a| == |b| == |c| == |d| == 8 && |n| == 2 && |z| == 6
    ensures var v := a + b + c + d + n + z;
      && v[0..8] == a && v[8..16] == b && v[16..24] == c && v[24..32] == d && v[32..34] == n && v[34..] == z
  {
  }

  lemma ValuesRoundTrip(m: Metadata)
    requires |m.etag| <= MAX_ETAG_BYTES
    ensures var v := Values(m);
      && Le(v, 0, 8) == m.version && Le(v, 8, 8) == m.generatedAt && Le(v, 16, 8) == m.expiresAt
      && Le(v, 24, 8) == m.lastCheckedAt && Le(v, 32, 2) == |m.etag| && v[34..] == Zeros(6)
  {
    Pow256Values();
    var v := Values(m);
    SliceValues(LeBytes(m.version, 8), LeBytes(m.generatedAt, 8), LeBytes(m.expiresAt, 8),
                LeBytes(m.lastCheckedAt, 8), LeBytes(|m.etag|, 2), Zeros(6));
    LeWritten(v, 0, m.version, 8);
    LeWritten(v, 8, m.generatedAt, 8);
    LeWritten(v, 16, m.expiresAt, 8);
    LeWritten(v, 24, m.lastCheckedAt, 8);
    LeWritten(v, 32, |m.etag|, 2);
  }

  lemma MetadataRoundTrip(m: Metadata)
    requires ValidStoredEtag(m.etag)
    ensures DecodeMetadata(Values(m), PaddedEtag(m)) == Ok(m) && Values(m)[34..] == Zeros(6)
  {
    ValuesRoundTrip(m);
    assert PaddedEtag(m)[..|m.etag|] == m.etag;
    assert PaddedEtag(m)[|m.etag|..] == Zeros(MAX_ETAG_BYTES - |m.etag|);
  }

  lemma HeaderRoundTrip(s: DatabaseState)
    ensures var h := Header(s);
      && Le(h, 0, 4) == MAGIC && Le(h, 4, 2) == FORMAT_VERSION && Le(h, 6, 2) == STATE_LEN
      && ReadU64(h, 8) == s.generation && h[18..] == Zeros(6)
      && DecodeSlot(h[16]) == Ok(s.trustSlot) && DecodeSlot(h[17]) == Ok(s.revocationSlot)
  {
    Pow256Values();
    var h := Header(s);
    assert h[0..4] == LeBytes(MAGIC, 4);
    LeWritten(h, 0, MAGIC, 4);
    assert h[4..6] == LeBytes(FORMAT_VERSION, 2);
    LeWritten(h, 4, FORMAT_VERSION, 2);
    assert h[6..8] == LeBytes(STATE_LEN, 2);
    LeWritten(h, 6, STATE_LEN, 2);
    assert h[8..16] == LeBytes(s.generation, 8);
    LeWritten(h, 8, s.generation, 8);
  }

  lemma SliceParts(h: seq<byte>, v1: seq<byte>, v2: seq<byte>, t1: seq<byte>, t2: seq<byte>, c: seq<byte>)
    requires |h| == 24 && |v1| == |v2| == 40 && |t1| == |t2| == MAX_ETAG_BYTES && |c| == CHECKSUM_LEN
    ensures var b := h + v1 + v2 + t1 + t2 + c;
      && b[0..24] == h && b[24..64] == v1 && b[64..104] == v2 && b[104..232] == t1 && b[232..360] == t2
      && b[..CHECKSUM_OFFSET] == h + v1 + v2 + t1 + t2 && b[CHECKSUM_OFFSET..] == c
  {
  }

  lemma JoinParts(b: seq<byte>)
    requires |b| == STATE_LEN
    ensures b[..CHECKSUM_OFFSET] == b[0..24] + b[24..64] + b[64..104] + b[104..232] + b[232..360]
    ensures b == b[..CHECKSUM_OFFSET] + b[CHECKSUM_OFFSET..]
  {
  }

  lemma PartsRoundTrip(s: DatabaseState)
    requires Storable(s)
    ensures DecodeParts(Header(s), Values(s.trust), Values(s.revocations),
                        PaddedEtag(s.trust), PaddedEtag(s.revocations)) == Ok(s)
  {
    HeaderRoundTrip(s);
    MetadataRoundTrip(s.trust);
    MetadataRoundTrip(s.revocations);
  }

  /** What is written is what is read. */
  lemma DecodeEncode(sha: Hash, s: DatabaseState)
    requires Storable(s)
    ensures Decode(sha, Encode(sha, s).value) == Ok(s)
  {
    PartsRoundTrip(s);
    SliceParts(Header(s), Values(s.trust), Values(s.revocations), PaddedEtag(s.trust),
               PaddedEtag(s.revocations), sha(Body(s)));
  }

  lemma FieldCanonical(b: seq<byte>, offset: nat, n: nat)
    requires offset + n <= |b|
    ensures LeBytes(Le(b, offset, n), n) == b[offset..offset + n]
  {
    LeIs(b, offset, n);
    LeCanonical(b[offset..offset + n]);
  }

  lemma FieldsJoined(v: seq<byte>, a: seq<byte>, b: seq<byte>, c: seq<byte>, d: seq<byte>, e: seq<byte>)
    requires |v| == 40 && a == v[0..8] && b == v[8..16] && c == v[16..24] && d == v[24..32] && e == v[32..34]
    ensures a + b + c + d + e + v[34..] == v
  {
    JoinValues(v);
  }

  lemma ValuesCanonical(v: seq<byte>)
    requires |v| == 40
    ensures LeBytes(Le(v, 0, 8), 8) + LeBytes(Le(v, 8, 8), 8) + LeBytes(Le(v, 16, 8), 8)
          + LeBytes(Le(v, 24, 8), 8) + LeBytes(Le(v, 32, 2), 2) + v[34..] == v
  {
    FieldCanonical(v, 0, 8);
    FieldCanonical(v, 8, 8);
    FieldCanonical(v, 16, 8);
    FieldCanonical(v, 24, 8);
    FieldCanonical(v, 32, 2);
    FieldsJoined(v, LeBytes(Le(v, 0, 8), 8), LeBytes(Le(v, 8, 8), 8), LeBytes(Le(v, 16, 8), 8),
                 LeBytes(Le(v, 24, 8), 8), LeBytes(Le(v, 32, 2), 2));
  }

  lemma MetadataCanonical(v: seq<byte>, t: seq<byte>, m: Metadata)
    requires |v| == 40 && |t| == MAX_ETAG_BYTES
    requires DecodeMetadata(v, t) == Ok(m) && v[34..] == Zeros(6)
    ensures ValidStoredEtag(m.etag) && Values(m) == v && PaddedEtag(m) == t
  {
    ValuesCanonical(v);
    assert t == t[..|m.etag|] + t[|m.etag|..];
  }

  lemma JoinValues(v: seq<byte>)
    requires |v| == 40
    ensures v == v[0..8] + v[8..16] + v[16..24] + v[24..32] + v[32..34] + v[34..]
  {
  }

  lemma JoinHeader(h: seq<byte>)
    requires |h| == 24
    ensures h == h[0..4] + h[4..6] + h[6..8] + h[8..16] + [h[16], h[17]] + h[18..]
  {
  }

  lemma HeaderCanonical(h: seq<byte>, s: DatabaseState)
    requires |h| == 24 && h[18..] == Zeros(6)
    requires Le(h, 0, 4) == MAGIC && Le(h, 4, 2) == FORMAT_VERSION && Le(h, 6, 2) == STATE_LEN
    requires DecodeSlot(h[16]) == Ok(s.trustSlot) && DecodeSlot(h[17]) == Ok(s.revocationSlot)
    requires ReadU64(h, 8) == s.generation
    ensures Header(s) == h
  {
    FieldCanonical(h, 0, 4);
    FieldCanonical(h, 4, 2);
    FieldCanonical(h, 6, 2);
    FieldCanonical(h, 8, 8);
    JoinHeader(h);
  }

  /** Every accepted record is the one encoding of the state it stands for. */
  lemma EncodeDecode(sha: Hash, b: seq<byte>)
    requires Decode(sha, b).Ok?
    ensures Encode(sha, Decode(sha, b).value) == Ok(b)
  {
    var s := Decode(sha, b).value;
    HeaderCanonical(b[0..24], s);
    MetadataCanonical(b[24..64], b[104..232], s.trust);
    MetadataCanonical(b[64..104], b[232..360], s.revocations);
    JoinParts(b);
    assert b[..CHECKSUM_OFFSET] == Body(s);
  }

  // ---------------------------------------------------------------- entity tags

  /** Visible characters other than the quote. */
  predicate TagText(s: seq<byte>) {
    forall i :: 0 <= i < |s| ==> s[i] == 0x21 || 0x23 <= s[i] <= 0x7e
  }

  /** A strong tag, or a weak one with its mark in front. */
  predicate TagOf(tag: seq<byte>, inner: seq<byte>) {
    TagText(inner) && (tag == [0x22] + inner + [0x22] || tag == [0x57, 0x2f, 0x22] + inner + [0x22])
  }

  lemma TagQuoted(tag: seq<byte>)
    requires ValidEtag(tag) && !(|tag| >= 4 && tag[..3] == [0x57, 0x2f, 0x22] && tag[|tag| - 1] == 0x22)
    ensures |tag| >= 2 && tag[0] == 0x22 && tag[|tag| - 1] == 0x22
  {
    var none: seq<byte> := [0];
    assert none[0] in none;
  }

  lemma TagShape(tag: seq<byte>) returns (inner: seq<byte>)
    requires ValidEtag(tag)
    ensures TagOf(tag, inner)
  {
    var n := |tag|;
    if n >= 4 && tag[..3] == [0x57, 0x2f, 0x22] && tag[n - 1] == 0x22 {
      inner := tag[3..n - 1];
      assert tag[n - 1..] == [0x22];
      assert tag == tag[..3] + inner + tag[n - 1..];
    } else {
      TagQuoted(tag);
      inner := tag[1..n - 1];
      assert tag == [0x22] + inner + [0x22];
    }
  }

  lemma TagValid(tag: seq<byte>, inner: seq<byte>)
    requires TagOf(tag, inner)
    ensures ValidEtag(tag)
  {
    var n := |tag|;
    if tag == [0x57, 0x2f, 0x22] + inner + [0x22] {
      assert tag[..3] == [0x57, 0x2f, 0x22] && tag[3..n - 1] == inner;
    } else {
      assert tag[0] == 0x22 && tag[1..n - 1] == inner;
      assert n >= 4 ==> tag[..3][0] == 0x22;
    }
  }

  /** A tag can be stored exactly when it is absent, or text in quotes, weak or strong, of at most 128 bytes. */
  lemma TagExactly(tag: seq<byte>)
    ensures ValidStoredEtag(tag) <==> tag == [] || (|tag| <= 128 && exists inner: seq<byte> :: TagOf(tag, inner))
  {
    if ValidEtag(tag) { var inner := TagShape(tag); }
    if exists inner: seq<byte> :: TagOf(tag, inner) {
      var inner: seq<byte> :| TagOf(tag, inner);
      TagValid(tag, inner);
    }
  }
}
