/**
 * The Internet checksum (RFC 1071): the 32-bit accumulator against the one's-complement sum,
 * exactly which inputs they agree on, and why a stored checksum verifies.
 */
module Checksum {
  import opened Machine

  type Bytes = seq<byte>

  const TWO32 := 0x1_0000_0000
  /** The longest input whose word sum always fits 32 bits: 65,537 words of 65,535. */
  const MAX_EXACT := 131074

  function Word(hi: byte, lo: byte): nat {
    256 * hi + lo
  }

  /** The exact sum of the 16-bit big-endian words; an odd last byte is a high half. */
  function Words(b: Bytes): nat {
    if b == [] then 0
    else if |b| == 1 then Word(b[0], 0)
    else Word(b[0], b[1]) + Words(b[2..])
  }

  /** End-around carries until the sum fits 16 bits. */
  function Fold(sum: nat): (r: nat)
    ensures r < 0x1_0000
  {
    if sum < 0x1_0000 then sum else Fold(sum % 0x1_0000 + sum / 0x1_0000)
  }

  /** What `checksum` computes: a wrapping 32-bit sum, folded and complemented. */
  function ChecksumOf(b: Bytes): (c: u16) {
    0xFFFF - Fold(Words(b) % TWO32)
  }

  // ---------------------------------------------------------------- the reference

  /** One's-complement addition: the carry comes around. */
  function OnesAdd(x: nat, y: nat): nat {
    if x + y < 0x1_0000 then x + y else x + y - 0xFFFF
  }

  /** The one's-complement sum of the words, the way RFC 1071 defines it. */
  function OnesSum(b: Bytes): nat {
    if b == [] then 0
    else if |b| == 1 then Word(b[0], 0)
    else OnesAdd(Word(b[0], b[1]), OnesSum(b[2..]))
  }

  /** The representative of a sum modulo 65,535 that is zero only for zero. */
  function Canonical(s: nat): nat {
    if s == 0 then 0 else (s - 1) % 0xFFFF + 1
  }

  lemma {:induction false} Multiples(x: nat, q: nat)
    ensures (x + 0xFFFF * q) % 0xFFFF == x % 0xFFFF
  {
    if q > 0 {
      Multiples(x, q - 1);
      assert x + 0xFFFF * q == (x + 0xFFFF * (q - 1)) + 0xFFFF;
    }
  }

  lemma {:induction false} FoldIsCanonical(s: nat)
    ensures Fold(s) == Canonical(s)
  {
    if s >= 0x1_0000 {
      var q, r := s / 0x1_0000, s % 0x1_0000;
      assert s == 0x1_0000 * q + r;
      FoldIsCanonical(r + q);
      assert s - 1 == (r + q - 1) + 0xFFFF * q;
      Multiples(r + q - 1, q);
    }
  }

  lemma AddCanonical(w: nat, s: nat)
    requires w < 0x1_0000
    ensures OnesAdd(w, Canonical(s)) == Canonical(w + s)
  {
    if s > 0 {
      var q, r := (s - 1) / 0xFFFF, (s - 1) % 0xFFFF;
      assert s - 1 == 0xFFFF * q + r;
      assert w + s - 1 == (w + r) + 0xFFFF * q;
      Multiples(w + r, q);
    }
  }

  lemma {:induction false} OnesSumIsCanonical(b: Bytes)
    ensures OnesSum(b) == Canonical(Words(b))
  {
    if |b| >= 2 {
      OnesSumIsCanonical(b[2..]);
      AddCanonical(Word(b[0], b[1]), Words(b[2..]));
    }
  }

  // ---------------------------------------------------------------- the bound

  lemma {:induction false} WordsBound(b: Bytes)
    ensures Words(b) <= 0xFFFF * ((|b| + 1) / 2)
  {
    if |b| >= 2 { WordsBound(b[2..]); }
  }

  lemma Exact(b: Bytes)
    requires |b| <= MAX_EXACT
    ensures Words(b) < TWO32
  {
    WordsBound(b);
  }

  /** Dropping q carries out of 32 bits is harmless exactly when there are none, or a multiple of 65,535. */
  lemma WrappedCanonical(r: nat, q: nat)
    requires r < TWO32
    ensures Canonical(r) == Canonical(r + q * TWO32) <==> q == 0 || (r != 0 && q % 0xFFFF == 0)
  {
    if q > 0 && r > 0 {
      assert r + q * TWO32 - 1 == (r - 1 + q) + 0xFFFF * (65537 * q);
      Multiples(r - 1 + q, 65537 * q);
      SameResidue(r - 1, q);
    }
  }

  lemma SameResidue(x: nat, q: nat)
    ensures (x + q) % 0xFFFF == x % 0xFFFF <==> q % 0xFFFF == 0
  {
    var a, b := x % 0xFFFF, q % 0xFFFF;
    assert x + q == (a + b) + 0xFFFF * (x / 0xFFFF + q / 0xFFFF);
    Multiples(a + b, x / 0xFFFF + q / 0xFFFF);
  }

  /**
   * Exactly which inputs, of any length, have the RFC checksum: those whose word sum fits 32
   * bits, and those that lose a multiple of 65,535 carries and keep something.
   */
  lemma ChecksumExactly(b: Bytes)
    ensures ChecksumOf(b) == 0xFFFF - OnesSum(b)
       <==> Words(b) < TWO32 || (Words(b) % TWO32 != 0 && Words(b) / TWO32 % 0xFFFF == 0)
  {
    var w := Words(b);
    FoldIsCanonical(w % TWO32);
    OnesSumIsCanonical(b);
    assert w == w % TWO32 + w / TWO32 * TWO32;
    WrappedCanonical(w % TWO32, w / TWO32);
  }

  /** Up to 131,074 bytes the accumulator does not wrap and the checksum is the complemented RFC sum. */
  lemma ChecksumIsOnesComplement(b: Bytes)
    requires |b| <= MAX_EXACT
    ensures ChecksumOf(b) == 0xFFFF - OnesSum(b)
  {
    Exact(b);
    ChecksumExactly(b);
  }

  function AllOnes(n: nat): (b: Bytes)
    ensures |b| == n
  {
    seq(n, i => 0xFF)
  }

  lemma {:induction false} WordsOfOnes(n: nat)
    ensures Words(AllOnes(2 * n + 1)) == 0xFFFF * n + 0xFF00
  {
    var b := AllOnes(2 * n + 1);
    if n > 0 {
      assert b[2..] == AllOnes(2 * (n - 1) + 1);
      WordsOfOnes(n - 1);
    }
  }

  /** One byte more and it is wrong: 131,075 bytes of ones wrap the accumulator. */
  lemma BoundIsExact()
    ensures ChecksumOf(AllOnes(MAX_EXACT + 1)) != 0xFFFF - OnesSum(AllOnes(MAX_EXACT + 1))
  {
    WordsOfOnes(65537);
    var s := Words(AllOnes(MAX_EXACT + 1));
    assert s == TWO32 + 65279;
    FoldIsCanonical(s % TWO32);
    FoldIsCanonical(s);
    OnesSumIsCanonical(AllOnes(MAX_EXACT + 1));
    assert s - 1 == 65279 + 0xFFFF * 65537;
    Multiples(65279, 65537);
  }

  // ---------------------------------------------------------------- storing a checksum

  lemma {:induction false} WordsJoin(a: Bytes, b: Bytes)
    requires |a| % 2 == 0
    ensures Words(a + b) == Words(a) + Words(b)
  {
    if a == [] {
      assert a + b == b;
    } else {
      assert (a + b)[2..] == a[2..] + b;
      WordsJoin(a[2..], b);
    }
  }

  function Be16(v: u16): Bytes {
    [v / 256, v % 256]
  }

  function ReadBe16(b: Bytes, o: nat): (v: u16)
    requires o + 2 <= |b|
  {
    Word(b[o], b[o + 1])
  }

  /** Bytes with a 16-bit field replaced. */
  function Stored(b: Bytes, o: nat, v: u16): (r: Bytes)
    requires o + 2 <= |b|
    ensures |r| == |b|
  {
    b[..o] + Be16(v) + b[o + 2..]
  }

  lemma WordsMiddle(pre: Bytes, mid: Bytes, post: Bytes)
    requires |pre| % 2 == 0 && |mid| == 2
    ensures Words(pre + mid + post) == Words(pre) + Word(mid[0], mid[1]) + Words(post)
  {
    assert pre + mid + post == pre + (mid + post);
    WordsJoin(pre, mid + post);
    assert (mid + post)[2..] == post;
  }

  lemma SplitField(b: Bytes, o: nat)
    requires o + 2 <= |b| && b[o] == 0 && b[o + 1] == 0
    ensures b == b[..o] + [0, 0] + b[o + 2..]
  {
  }

  lemma Be16Is(v: u16)
    ensures Word(Be16(v)[0], Be16(v)[1]) == v
  {
  }

  lemma WordsStored(b: Bytes, o: nat, v: u16)
    requires o % 2 == 0 && o + 2 <= |b| && b[o] == 0 && b[o + 1] == 0
    ensures Words(Stored(b, o, v)) == Words(b) + v
  {
    SplitField(b, o);
    WordsMiddle(b[..o], [0, 0], b[o + 2..]);
    WordsMiddle(b[..o], Be16(v), b[o + 2..]);
    Be16Is(v);
  }

  /** A sum and the complement of its fold fold to all ones, also when a zero complement is sent as all ones. */
  lemma ComplementFolds(s: nat, c: nat)
    requires c == 0xFFFF - Fold(s) || (c == 0xFFFF && Fold(s) == 0xFFFF)
    ensures Fold(s + c) == 0xFFFF
  {
    FoldIsCanonical(s);
    FoldIsCanonical(s + c);
    if s > 0 {
      var q, r := (s - 1) / 0xFFFF, (s - 1) % 0xFFFF;
      assert s - 1 == 0xFFFF * q + r;
      if c == 0xFFFF - Fold(s) {
        assert s + c - 1 == 65534 + 0xFFFF * q;
        Multiples(65534, q);
      } else {
        assert s + c - 1 == 65534 + 0xFFFF * (q + 1);
        Multiples(65534, q + 1);
      }
    }
  }

  /** A 32-bit sum and the complement of its fold still fit 32 bits. */
  lemma ComplementFits(r: nat)
    requires r < TWO32
    ensures r + (0xFFFF - Fold(r)) < TWO32
  {
    FoldIsCanonical(r);
    var t := r - 1 - 0xFFFF * 65536;
    if t >= 0 {
      assert r - 1 == t + 0xFFFF * 65536;
      Multiples(t, 65536);
    }
  }

  /** Storing the checksum in a zeroed even-offset field makes verification succeed, at any length. */
  lemma StoredVerifies(b: Bytes, o: nat)
    requires o % 2 == 0 && o + 2 <= |b| && b[o] == 0 && b[o + 1] == 0
    ensures ChecksumOf(Stored(b, o, ChecksumOf(b))) == 0
  {
    WordsStored(b, o, ChecksumOf(b));
    ComplementWraps(Words(b), ChecksumOf(b));
  }

  lemma ComplementWraps(w: nat, c: nat)
    requires c == 0xFFFF - Fold(w % TWO32)
    ensures Fold((w + c) % TWO32) == 0xFFFF
  {
    ComplementFits(w % TWO32);
    WrapAdd(w, c);
    ComplementFolds(w % TWO32, c);
  }

  // ---------------------------------------------------------------- the loops

  lemma WrapAdd(x: nat, y: nat)
    ensures (x % TWO32 + y) % TWO32 == (x + y) % TWO32
  {
    var q, r := x / TWO32, x % TWO32;
    assert x == q * TWO32 + r;
    WrapMultiple(r + y, q);
  }

  lemma {:induction false} WrapMultiple(x: nat, q: nat)
    ensures (x + q * TWO32) % TWO32 == x % TWO32
  {
    if q > 0 {
      WrapMultiple(x, q - 1);
      assert x + q * TWO32 == (x + (q - 1) * TWO32) + TWO32;
    }
  }

  lemma WordsSnoc(b: Bytes, i: nat)
    requires i % 2 == 0 && i + 2 <= |b|
    ensures Words(b[..i + 2]) == Words(b[..i]) + Word(b[i], b[i + 1])
  {
    var pair := [b[i], b[i + 1]];
    assert b[..i + 2] == b[..i] + pair;
    WordsJoin(b[..i], pair);
    assert Words(pair) == Word(b[i], b[i + 1]) + Words(pair[2..]) && pair[2..] == [];
  }

  method FoldLoop(sum: nat) returns (r: nat)
    ensures r == Fold(sum)
  {
    r := sum;
    while r >= 0x1_0000
      invariant Fold(r) == Fold(sum)
    {
      r := r % 0x1_0000 + r / 0x1_0000;
    }
  }

  method ChecksumLoop(b: Bytes) returns (c: u16)
    ensures c == ChecksumOf(b)
  {
    var sum, i := 0, 0;
    while i + 2 <= |b|
      invariant i % 2 == 0 && i <= |b| && sum == Words(b[..i]) % TWO32
    {
      WordsSnoc(b, i);
      WrapAdd(Words(b[..i]), Word(b[i], b[i + 1]));
      sum := (sum + Word(b[i], b[i + 1])) % TWO32;
      i := i + 2;
    }
    if i < |b| {
      assert b == b[..i] + [b[i]];
      WordsJoin(b[..i], [b[i]]);
      WrapAdd(Words(b[..i]), Word(b[i], 0));
      sum := (sum + Word(b[i], 0)) % TWO32;
    } else {
      assert b[..i] == b;
    }
    var folded := FoldLoop(sum);
    c := 0xFFFF - folded;
  }
}
