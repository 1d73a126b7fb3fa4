/** Byte strings that hold other byte strings and integers at known places. */
module Pieces {
  import opened Machine

  lemma SliceSlice(c: seq<byte>, a: nat, z: nat, lo: nat, hi: nat)
    requires a <= z <= |c| && lo <= hi <= z - a
    ensures c[a..z][lo..hi] == c[a + lo..a + hi]
  {
    forall i | 0 <= i < hi - lo ensures c[a..z][lo..hi][i] == c[a + lo..a + hi][i] {
      assert c[a..z][lo..hi][i] == c[a..z][lo + i];
    }
  }

  predicate Holds(c: seq<byte>, at: nat, piece: seq<byte>) {
    at + |piece| <= |c| && c[at..at + |piece|] == piece
  }

  lemma HoldsGrows(c: seq<byte>, at: nat, piece: seq<byte>, more: seq<byte>)
    requires Holds(c, at, piece)
    ensures Holds(c + more, at, piece)
  {
    assert (c + more)[at..at + |piece|] == c[at..at + |piece|];
  }

  lemma HoldsLast(c: seq<byte>, piece: seq<byte>)
    ensures Holds(c + piece, |c|, piece)
  {
  }

  lemma HoldsPart(c: seq<byte>, at: nat, piece: seq<byte>, lo: nat, hi: nat)
    requires Holds(c, at, piece) && lo <= hi <= |piece|
    ensures Holds(c, at + lo, piece[lo..hi])
  {
    SliceSlice(c, at, at + |piece|, lo, hi);
  }

  lemma Pow256Values()
    ensures Pow256(2) == 0x1_0000 && Pow256(4) == 0x1_0000_0000 && Pow256(8) == 0x1_0000_0000_0000_0000
  {
    assert Pow256(3) == 256 * Pow256(2) && Pow256(5) == 256 * Pow256(4) && Pow256(6) == 256 * Pow256(5);
    assert Pow256(7) == 256 * Pow256(6);
  }

  lemma LeBound(b: seq<byte>, offset: nat, n: nat)
    requires offset + n <= |b|
    ensures Le(b, offset, n) < Pow256(n)
  {
    LeIs(b, offset, n);
  }

  lemma LeWritten(b: seq<byte>, offset: nat, v: nat, n: nat)
    requires offset + n <= |b| && b[offset..offset + n] == LeBytes(v, n) && v < Pow256(n)
    ensures Le(b, offset, n) == v
  {
    LeIs(b, offset, n);
    LeRoundTrip(v, n);
  }

  lemma LongWritten(p: seq<byte>, offset: nat, v: nat)
    requires offset + 8 <= |p| && p[offset..offset + 8] == LeBytes(v, 8) && v < 0x1_0000_0000
    ensures Le(p, offset, 8) == v
  {
    Pow256Values();
    LeWritten(p, offset, v, 8);
  }

  lemma ShortWritten(p: seq<byte>, offset: nat, v: nat)
    requires offset + 2 <= |p| && p[offset..offset + 2] == LeBytes(v, 2) && v < 0x1_0000
    ensures Le(p, offset, 2) == v
  {
    Pow256Values();
    LeWritten(p, offset, v, 2);
  }

  lemma FieldRead(c: seq<byte>, at: nat, h: seq<byte>, o: nat, v: nat, n: nat)
    requires Holds(c, at, h) && o + n <= |h| && h[o..o + n] == LeBytes(v, n) && v < Pow256(n)
    ensures Le(c, at + o, n) == v
  {
    HoldsPart(c, at, h, o, o + n);
    LeWritten(c, at + o, v, n);
  }
}
