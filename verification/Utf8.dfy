/** The UTF-8 check against the encoding itself: exactly the encodings of scalar values pass it (RFC 3629). */
module Utf8 {
  import opened Machine
  import opened Text

  /** A Unicode scalar value: a code point that is no surrogate. */
  predicate Scalar(c: nat) {
    c < 0xD800 || 0xE000 <= c < 0x11_0000
  }

  predicate Scalars(cs: seq<nat>) {
    forall i :: 0 <= i < |cs| ==> Scalar(cs[i])
  }

  /** The one to four bytes of a scalar value, six bits to a continuation byte. */
  function EncodeScalar(c: nat): (s: seq<byte>)
    requires Scalar(c)
    ensures s != []
  {
    if c < 0x80 then [c]
    else if c < 0x800 then [0xC0 + c / 64, 0x80 + c % 64]
    else if c < 0x1_0000 then [0xE0 + c / 4096, 0x80 + c / 64 % 64, 0x80 + c % 64]
    else [0xF0 + c / 0x4_0000, 0x80 + c / 4096 % 64, 0x80 + c / 64 % 64, 0x80 + c % 64]
  }

  function EncodeAll(cs: seq<nat>): seq<byte>
    requires Scalars(cs)
  {
    if cs == [] then [] else EncodeScalar(cs[0]) + EncodeAll(cs[1..])
  }

  lemma TwoLead(a: byte, b: byte, t: seq<byte>)
    requires 0xC2 <= a <= 0xDF && Continuation(b)
    ensures LeadLength([a, b] + t) == 2
  {
  }

  lemma ThreeLead(a: byte, b: byte, c: byte, t: seq<byte>)
    requires 0xE0 <= a <= 0xEF && Continuation(b) && Continuation(c)
    requires (a == 0xE0 ==> b >= 0xA0) && (a == 0xED ==> b <= 0x9F)
    ensures LeadLength([a, b, c] + t) == 3
  {
  }

  lemma FourLead(a: byte, b: byte, c: byte, d: byte, t: seq<byte>)
    requires 0xF0 <= a <= 0xF4 && Continuation(b) && Continuation(c) && Continuation(d)
    requires (a == 0xF0 ==> b >= 0x90) && (a == 0xF4 ==> b <= 0x8F)
    ensures LeadLength([a, b, c, d] + t) == 4
  {
  }

  lemma ScalarLeads(c: nat, t: seq<byte>)
    requires Scalar(c)
    ensures LeadLength(EncodeScalar(c) + t) == |EncodeScalar(c)|
  {
    if c < 0x80 {
    } else if c < 0x800 {
      TwoLead(0xC0 + c / 64, 0x80 + c % 64, t);
    } else if c < 0x1_0000 {
      ThreeLead(0xE0 + c / 4096, 0x80 + c / 64 % 64, 0x80 + c % 64, t);
    } else {
      FourLead(0xF0 + c / 0x4_0000, 0x80 + c / 4096 % 64, 0x80 + c / 64 % 64, 0x80 + c % 64, t);
    }
  }

  lemma LeadIsScalar(s: seq<byte>) returns (c: nat)
    requires LeadLength(s) > 0
    ensures LeadLength(s) <= |s| && Scalar(c) && EncodeScalar(c) == s[..LeadLength(s)]
  {
    var n := LeadLength(s);
    if n == 1 {
      c := s[0];
    } else if n == 2 {
      c := 64 * (s[0] as int - 0xC0) + (s[1] as int - 0x80);
    } else if n == 3 {
      c := 4096 * (s[0] as int - 0xE0) + 64 * (s[1] as int - 0x80) + (s[2] as int - 0x80);
      ThreeDigits(s[0] as int - 0xE0, s[1] as int - 0x80, s[2] as int - 0x80);
    } else {
      c := 0x4_0000 * (s[0] as int - 0xF0) + 4096 * (s[1] as int - 0x80) + 64 * (s[2] as int - 0x80)
           + (s[3] as int - 0x80);
      FourDigits(s[0] as int - 0xF0, s[1] as int - 0x80, s[2] as int - 0x80, s[3] as int - 0x80);
    }
  }

  lemma ThreeDigits(a: nat, b: nat, d: nat)
    requires b < 64 && d < 64
    ensures var c := 4096 * a + 64 * b + d; c / 4096 == a && c / 64 % 64 == b && c % 64 == d
  {
    var c := 4096 * a + 64 * b + d;
    assert c / 64 == 64 * a + b;
  }

  lemma FourDigits(a: nat, b: nat, d: nat, e: nat)
    requires b < 64 && d < 64 && e < 64
    ensures var c := 0x4_0000 * a + 4096 * b + 64 * d + e;
      c / 0x4_0000 == a && c / 4096 % 64 == b && c / 64 % 64 == d && c % 64 == e
  {
    var c := 0x4_0000 * a + 4096 * b + 64 * d + e;
    assert c / 64 == 4096 * a + 64 * b + d && c / 4096 == 64 * a + b;
  }

  lemma {:induction false} ValidIsEncoded(s: seq<byte>) returns (cs: seq<nat>)
    requires ValidUtf8(s)
    ensures Scalars(cs) && s == EncodeAll(cs)
    decreases |s|
  {
    cs := [];
    if s != [] {
      var n := LeadLength(s);
      var c := LeadIsScalar(s);
      var rest := ValidIsEncoded(s[n..]);
      cs := [c] + rest;
      assert cs[1..] == rest;
      assert s == s[..n] + s[n..];
    }
  }

  lemma {:induction false} EncodedIsValid(cs: seq<nat>)
    requires Scalars(cs)
    ensures ValidUtf8(EncodeAll(cs))
  {
    if cs != [] {
      var first, rest := EncodeScalar(cs[0]), EncodeAll(cs[1..]);
      EncodedIsValid(cs[1..]);
      ScalarLeads(cs[0], rest);
      assert (first + rest)[|first|..] == rest;
    }
  }

  /** A byte string is valid exactly when it is the encoding of some scalar values. */
  lemma ValidExactly(s: seq<byte>)
    ensures ValidUtf8(s) <==> exists cs: seq<nat> :: Scalars(cs) && s == EncodeAll(cs)
  {
    if ValidUtf8(s) { var cs := ValidIsEncoded(s); }
    if exists cs: seq<nat> :: Scalars(cs) && s == EncodeAll(cs) {
      var cs: seq<nat> :| Scalars(cs) && s == EncodeAll(cs);
      EncodedIsValid(cs);
    }
  }
}
