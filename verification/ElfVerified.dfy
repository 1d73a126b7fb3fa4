/**
 * What an accepted signature says about the file: the stored digest is the hash of the file
 * with the digest and signature fields zeroed, so a changed file is accepted only on a collision.
 */
module ElfVerified {
  import opened Machine
  import opened Pieces
  import opened ElfSpec
  import opened ElfTheorems

  /** The file with the 96 bytes of its digest and signature fields zeroed, and nothing else changed. */
  predicate Zeroed(b: Bytes, o: nat, z: Bytes) {
    && |z| == |b| && o + DESCRIPTOR_LEN <= |b|
    && forall i :: 0 <= i < |b| ==> z[i] == if o + 50 <= i < o + 146 then 0 else b[i]
  }

  lemma NormalizedIsZeroed(b: Bytes, o: nat)
    requires o + DESCRIPTOR_LEN <= |b|
    ensures Zeroed(b, o, Normalized(b, o))
  {
    var z := Normalized(b, o);
    assert b[o + DIGEST_OFFSET + 32..o + SIGNATURE_OFFSET] == [];
    assert z == b[..o + 50] + Zeros(32) + Zeros(64) + b[o + 146..];
  }

  lemma ZeroedUnique(b: Bytes, o: nat, z: Bytes, z': Bytes)
    requires Zeroed(b, o, z) && Zeroed(b, o, z')
    ensures z == z'
  {
  }

  /** The digest field of a located record is where the record says. */
  lemma LocatedDigest(e: Elf, sig: Bytes, r: Record)
    requires LocateRecordAs(e, sig) == Good(Some(r))
    ensures r.offset + DESCRIPTOR_LEN <= |e.bytes| && r.digest == e.bytes[r.offset + 50..r.offset + 82]
  {
  }

  predicate ZeroFrom(b: Bytes, lo: nat, hi: nat) {
    lo <= hi <= |b| && forall i :: lo <= i < hi ==> b[i] == 0
  }

  /** The bytes of an acceptable descriptor: kind, algorithms, reserved byte and flags; ad hoc, no key and no signature. */
  predicate FieldsAre(b: Bytes, o: nat, kind: Kind) {
    && o + DESCRIPTOR_LEN <= |b| && b[o + 10] == (if kind == AdHoc then 1 else 2) && b[o + 11] == 1
    && b[o + 12] == (if kind == AdHoc then 0 else 1) && b[o + 13] == 0 && Le(b, o + 14, 4) == 0
    && (kind == AdHoc ==> ZeroFrom(b, o + 18, o + 50) && ZeroFrom(b, o + 82, o + 146))
  }

  lemma SliceZero(b: Bytes, lo: nat, hi: nat)
    requires lo <= hi <= |b|
    ensures AllZero(b[lo..hi]) <==> ZeroFrom(b, lo, hi)
  {
    forall i | lo <= i < hi ensures b[i] == b[lo..hi][i - lo] {}
  }

  lemma RecordFields(b: Bytes, r: Record)
    requires ParseRecord(b, r.offset) == Good(r)
    ensures RecordOk(r) <==> FieldsAre(b, r.offset, r.kind)
  {
    SliceZero(b, r.offset + 18, r.offset + 50);
    SliceZero(b, r.offset + 82, r.offset + 146);
  }

  lemma LocatedParses(e: Elf, sig: Bytes, r: Record)
    requires LocateRecordAs(e, sig) == Good(Some(r))
    ensures ParseRecord(e.bytes, r.offset) == Good(r)
  {
  }

  lemma ParsedVerify(sha: Hash, keyed: Record -> bool, e: Elf, r: Record, z: Bytes)
    requires LocateRecord(e) == Good(Some(r)) && Zeroed(e.bytes, r.offset, z)
    ensures var v := VerifyParsed(sha, keyed, e);
      && (v.Good? <==> && FieldsAre(e.bytes, r.offset, r.kind)
                       && e.bytes[r.offset + 50..r.offset + 82] == sha(z) && (r.kind == Ed25519 ==> keyed(r)))
      && (v.Good? ==> v.value == Verified(r.kind, if r.kind == AdHoc then None else Some(r.keyId), sha(z)))
  {
    LocatedDigest(e, SIGNATURE_SECTION, r);
    LocatedParses(e, SIGNATURE_SECTION, r);
    RecordFields(e.bytes, r);
    NormalizedIsZeroed(e.bytes, r.offset);
    ZeroedUnique(e.bytes, r.offset, z, Normalized(e.bytes, r.offset));
  }

  /**
   * Exactly which files verify, among those with a located record and a readable manifest: the
   * descriptor's fields are acceptable, the stored digest is the hash of the zeroed file, and a
   * keyed record passes its key check.
   */
  lemma VerifiedExactly(sha: Hash, keyed: Record -> bool, b: Bytes, limits: Limits, e: Elf, r: Record, z: Bytes)
    requires ParseElf(b, limits) == Good(e) && LocateRecord(e) == Good(Some(r)) && Zeroed(b, r.offset, z)
    ensures var v := VerifyImage(sha, keyed, b, limits);
      && (v.Good? <==> && LocateManifest(e).Good? && FieldsAre(b, r.offset, r.kind)
                       && b[r.offset + 50..r.offset + 82] == sha(z) && (r.kind == Ed25519 ==> keyed(r)))
      && (v.Good? ==> && v.value.signature == Verified(r.kind, if r.kind == AdHoc then None else Some(r.keyId), sha(z))
                      && v.value.sourceDigest == sha(b) && Good(v.value.manifest) == LocateManifest(e))
  {
    ParsedVerify(sha, keyed, e, r, z);
  }

  lemma VerifiedHasRecord(sha: Hash, keyed: Record -> bool, b: Bytes) returns (e: Elf, r: Record)
    requires Verify(sha, keyed, b).Good?
    ensures ParseElf(b, DEFAULT_LIMITS) == Good(e) && LocateRecord(e) == Good(Some(r))
    ensures VerifyImage(sha, keyed, b, DEFAULT_LIMITS).Good?
    ensures Verify(sha, keyed, b).value == VerifyImage(sha, keyed, b, DEFAULT_LIMITS).value.signature
  {
    e := ParseElf(b, DEFAULT_LIMITS).value;
    r := LocateRecord(e).value.value;
  }

  /** Whatever verifies stores the hash of itself with the digest and signature fields zeroed. */
  lemma VerifiedIsHashed(sha: Hash, keyed: Record -> bool, b: Bytes) returns (r: Record, z: Bytes)
    requires Verify(sha, keyed, b).Good?
    ensures var v := Verify(sha, keyed, b).value;
      && Zeroed(b, r.offset, z) && b[r.offset + 50..r.offset + 82] == sha(z) == v.digest && v.kind == r.kind
      && (v.kind == Ed25519 ==> keyed(r) && v.keyId == Some(b[r.offset + 18..r.offset + 50]))
  {
    var e;
    e, r := VerifiedHasRecord(sha, keyed, b);
    z := Normalized(b, r.offset);
    NormalizedIsZeroed(b, r.offset);
    VerifiedExactly(sha, keyed, b, DEFAULT_LIMITS, e, r, z);
    LocatedParses(e, SIGNATURE_SECTION, r);
  }

  // ---------------------------------------------------------------- changed files

  predicate RecordIn(b: Bytes, e: Elf, r: Record) {
    ParseElf(b, DEFAULT_LIMITS) == Good(e) && LocateRecord(e) == Good(Some(r))
  }

  /** The signed file's record: ad hoc, with its fields and its digest in place. */
  lemma SignedIn(sha: Hash, b: Bytes, c: Bytes) returns (e: Elf, r: Record)
    requires SignAdHoc(sha, b) == Good(c)
    ensures RecordIn(c, e, r) && r.kind == AdHoc && ZeroFrom(c, r.offset + 82, r.offset + 146)
    ensures r.offset + DESCRIPTOR_LEN <= |c| && c[r.offset + 50..r.offset + 82] == sha(Normalized(c, r.offset))
  {
    var e0, out, e1, r0 := SignSteps(sha, b, c);
    SigningLocates(sha, b, e0, SIGNATURE_SECTION, NoteBytes(AdHoc, Zeros(32)), out, e1, r0, c);
    e, r := e1.(bytes := c), r0.(digest := sha(Normalized(c, r0.offset)));
    SignedFields(e, SIGNATURE_SECTION, r);
  }

  lemma SignedFields(e: Elf, sig: Bytes, r: Record)
    requires LocateRecordAs(e, sig) == Good(Some(r)) && r == BlankRecord(r.offset).(digest := r.digest)
    ensures ZeroFrom(e.bytes, r.offset + 82, r.offset + 146)
    ensures r.offset + DESCRIPTOR_LEN <= |e.bytes| && e.bytes[r.offset + 50..r.offset + 82] == r.digest
  {
    LocatedParses(e, sig, r);
    SliceZero(e.bytes, r.offset + 82, r.offset + 146);
  }

  /** Two files with the same zeroed form, digest field and empty signature are the same. */
  lemma SameFile(c: Bytes, c': Bytes, o: nat, z: Bytes)
    requires Zeroed(c, o, z) && Zeroed(c', o, z) && c[o + 50..o + 82] == c'[o + 50..o + 82]
    requires ZeroFrom(c, o + 82, o + 146) && ZeroFrom(c', o + 82, o + 146)
    ensures c' == c
  {
    forall i | 0 <= i < |c| ensures c'[i] == c[i] {
      if o + 50 <= i < o + 82 { assert c[i] == c[o + 50..o + 82][i - o - 50]; }
      assert z[i] == if o + 50 <= i < o + 146 then 0 else c[i];
      assert z[i] == if o + 50 <= i < o + 146 then 0 else c'[i];
    }
  }

  /** The kind of a located record is one of its bytes. */
  lemma KindByte(e: Elf, r: Record)
    requires LocateRecord(e) == Good(Some(r))
    ensures r.offset + DESCRIPTOR_LEN <= |e.bytes| && (r.kind == AdHoc <==> e.bytes[r.offset + 10] == 1)
  {
    LocatedParses(e, SIGNATURE_SECTION, r);
  }

  /** Files with the same zeroed form have records of the same kind. */
  lemma SameKind(c: Bytes, e: Elf, r: Record, c': Bytes, e': Elf, r': Record, z: Bytes)
    requires RecordIn(c, e, r) && RecordIn(c', e', r') && r'.offset == r.offset
    requires Zeroed(c, r.offset, z) && Zeroed(c', r.offset, z)
    ensures r.kind == r'.kind
  {
    KindByte(e, r);
    KindByte(e', r');
    assert z[r.offset + 10] == c[r.offset + 10] == c'[r.offset + 10];
  }

  lemma VerifiedFields(sha: Hash, keyed: Record -> bool, c: Bytes, e: Elf, r: Record, z: Bytes)
    requires RecordIn(c, e, r) && Zeroed(c, r.offset, z) && Verify(sha, keyed, c).Good?
    ensures c[r.offset + 50..r.offset + 82] == sha(z) && FieldsAre(c, r.offset, r.kind)
  {
    VerifiedExactly(sha, keyed, c, DEFAULT_LIMITS, e, r, z);
  }

  /**
   * A file made from a signed one that still has its record at the same place with the same
   * digest verifies only if its zeroed form has the hash of the signed file's zeroed form; and
   * then it is the signed file, or the two zeroed forms are a collision of the hash.
   */
  lemma ChangedIsRefused(sha: Hash, keyed: Record -> bool, b: Bytes, c: Bytes, c': Bytes, e': Elf, r': Record)
    returns (o: nat, z: Bytes, z': Bytes)
    requires SignAdHoc(sha, b) == Good(c) && RecordIn(c', e', r') && Verify(sha, keyed, c').Good?
    ensures Zeroed(c, o, z) && c[o + 50..o + 82] == sha(z)
    ensures r'.offset == o && r'.digest == sha(z) ==>
      Zeroed(c', o, z') && sha(z') == sha(z) && (c' == c || z' != z)
  {
    var e, r := SignedIn(sha, b, c);
    o, z, z' := r.offset, Normalized(c, r.offset), [];
    NormalizedIsZeroed(c, o);
    if r'.offset == o && r'.digest == sha(z) {
      LocatedDigest(e', SIGNATURE_SECTION, r');
      z' := Normalized(c', o);
      NormalizedIsZeroed(c', o);
      VerifiedFields(sha, keyed, c', e', r', z');
      if z' == z {
        SameKind(c, e, r, c', e', r', z);
        SameFile(c, c', o, z);
      }
    }
  }
}
