/** Fixed-width integers, wrapping and saturating arithmetic, and the two byte orders. */
module Machine {

  type byte = x: int | 0 <= x < 0x100
  type u16 = x: int | 0 <= x < 0x1_0000
  type u32 = x: int | 0 <= x < 0x1_0000_0000
  type u64 = x: int | 0 <= x < 0x1_0000_0000_0000_0000

  const U32_SPAN := 0x1_0000_0000
  const U64_MAX := 0xFFFF_FFFF_FFFF_FFFF

  datatype Option<+T> = None | Some(value: T)

  datatype Result<+T, +E> = Ok(value: T) | Err(error: E)

  function Min(a: int, b: int): int {
    if a < b then a else b
  }

  function Max(a: int, b: int): int {
    if a < b then b else a
  }

  /** Reduction of an unbounded integer to 32 bits. */
  function Wrap32(x: int): u32 {
    x % U32_SPAN
  }

  function SaturatingAdd64(a: u64, b: u64): u64 {
    Min(a + b, U64_MAX)
  }

  function SaturatingSub64(a: u64, b: u64): u64 {
    Max(a - b, 0)
  }

  function SaturatingMul64(a: u64, b: u64): u64 {
    assert a * b >= 0;
    Min(a * b, U64_MAX)
  }

  function Pow2(n: nat): nat
    ensures 1 <= Pow2(n)
  {
    if n == 0 then 1 else 2 * Pow2(n - 1)
  }

  /** 256 to the power n: one more than the largest n-byte value. */
  function Pow256(n: nat): nat
    ensures 1 <= Pow256(n)
  {
    if n == 0 then 1 else 256 * Pow256(n - 1)
  }

  /** SHA-256 stands for an arbitrary function to 32 bytes. */
  type Hash = f: seq<byte> -> seq<byte> | forall x :: |f(x)| == 32
    witness x => seq(32, i => 0)

  function Zeros(n: nat): (z: seq<byte>)
    ensures |z| == n
  {
    seq(n, i => 0)
  }

  /** The value of a little-endian byte string. */
  function LeValue(s: seq<byte>): (v: nat)
    ensures v < Pow256(|s|)
  {
    if s == [] then 0 else s[0] + 256 * LeValue(s[1..])
  }

  /** The n little-endian bytes of a value. */
  function LeBytes(v: nat, n: nat): (s: seq<byte>)
    ensures |s| == n
  {
    if n == 0 then [] else [v % 256] + LeBytes(v / 256, n - 1)
  }

  lemma {:induction false} LeRoundTrip(v: nat, n: nat)
    requires v < Pow256(n)
    ensures LeValue(LeBytes(v, n)) == v
  {
    if n != 0 {
      LeRoundTrip(v / 256, n - 1);
      assert LeBytes(v, n)[1..] == LeBytes(v / 256, n - 1);
    }
  }

  lemma {:induction false} LeCanonical(s: seq<byte>)
    ensures LeBytes(LeValue(s), |s|) == s
  {
    if s != [] {
      LeCanonical(s[1..]);
      assert LeValue(s) % 256 == s[0];
      assert LeValue(s) / 256 == LeValue(s[1..]);
    }
  }

  /** The little-endian value of the n bytes at an offset; zero past the end. */
  function ValueAt(b: seq<byte>, offset: nat, n: nat): nat {
    if offset + n <= |b| then LeValue(b[offset..offset + n]) else 0
  }

  /**
   * Reading an integer. The type says it is `ValueAt`; proofs meet that value only where
   * they name it, so mentioning a field costs them nothing.
   */
  type IntReader = f: (seq<byte>, nat, nat) -> nat |
      forall b: seq<byte>, offset: nat, n: nat {:trigger ValueAt(b, offset, n)} ::
        f(b, offset, n) == ValueAt(b, offset, n)
    witness ValueAt

  const READ: IntReader

  /** The little-endian integer in the n bytes at an offset. */
  function Le(b: seq<byte>, offset: nat, n: nat): nat
    requires offset + n <= |b|
  {
    READ(b, offset, n)
  }

  lemma LeIs(b: seq<byte>, offset: nat, n: nat)
    requires offset + n <= |b|
    ensures Le(b, offset, n) == LeValue(b[offset..offset + n])
  {
    assert Le(b, offset, n) == ValueAt(b, offset, n);
  }

  lemma Regrouped<T>(a: seq<T>, b: seq<T>, c: seq<T>)
    ensures a + b + c == a + (b + c)
  {
  }
}
