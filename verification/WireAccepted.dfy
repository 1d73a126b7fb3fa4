/** Exactly which packets the UDP and TCP decoders accept, and which damage their checksum finds. */
module WireAccepted {
  import opened Machine
  import opened Checksum
  import opened UdpSpec
  import opened Wire

  /** The one's-complement sum of a packet behind its pseudo-header is all ones. */
  predicate SumsToOnes(source: Address, destination: Address, protocol: byte, packet: Bytes) {
    |packet| <= 0xFFFF && OnesSum(Pseudo(source, destination, protocol, |packet|) + packet) == 0xFFFF
  }

  lemma ValidIsOnes(source: Address, destination: Address, protocol: byte, packet: Bytes)
    requires |packet| <= 0xFFFF
    ensures SumValid(Pseudo(source, destination, protocol, |packet|), packet)
       <==> SumsToOnes(source, destination, protocol, packet)
  {
    var pseudo := Pseudo(source, destination, protocol, |packet|);
    WordsJoin(pseudo, packet);
    FoldIsCanonical(PacketSum(pseudo, packet));
    OnesSumIsCanonical(pseudo + packet);
  }

  /**
   * A UDP packet decodes to a datagram exactly when its length field lies between a header and
   * the bytes at hand, its checksum field is zero or its sum is all ones, and the datagram is
   * what the ports and the bytes after the header say.
   */
  lemma UdpAcceptedExactly(source: Address, destination: Address, b: Bytes, d: Datagram)
    ensures DecodeUdp(source, destination, b) == Ok(d)
       <==> && |b| >= 8 && 8 <= ReadBe16(b, 4) <= |b|
            && ((b[6] == 0 && b[7] == 0) || SumsToOnes(source, destination, 17, b[..ReadBe16(b, 4)]))
            && d.sourcePort == ReadBe16(b, 0) && d.destinationPort == ReadBe16(b, 2)
            && d.payload == b[8..ReadBe16(b, 4)]
  {
    if |b| >= 8 && 8 <= ReadBe16(b, 4) <= |b| {
      ValidIsOnes(source, destination, 17, b[..ReadBe16(b, 4)]);
    }
  }

  // ---------------------------------------------------------------- TCP options

  /** A parsed TCP option other than the end of the list. */
  datatype TcpOption = Nop | Mss(size: u16) | Other(kind: byte, data: Bytes)

  predicate OptionOk(o: TcpOption) {
    o.Other? ==> o.kind > 2 && |o.data| <= 253
  }

  predicate AllOk(os: seq<TcpOption>) {
    forall i :: 0 <= i < |os| ==> OptionOk(os[i])
  }

  function OptionImage(o: TcpOption): Bytes
    requires OptionOk(o)
  {
    match o
    case Nop => [1]
    case Mss(size) => [2, 4] + Be16(size)
    case Other(kind, data) => [kind, 2 + |data|] + data
  }

  /** The bytes of a list of options. */
  function Image(os: seq<TcpOption>): Bytes
    requires AllOk(os)
  {
    if os == [] then [] else OptionImage(os[0]) + Image(os[1..])
  }

  /** The last maximum segment size of a list, or what was known before it. */
  function LastMss(os: seq<TcpOption>, known: Option<u16>): Option<u16> {
    if os == [] then known
    else LastMss(os[1..], if os[0].Mss? then Some(os[0].size) else known)
  }

  /** A list ends with the bytes, or at an end marker whatever follows it. */
  predicate Ends(rest: Bytes) {
    rest == [] || rest[0] == 0
  }

  lemma OneOption(o: TcpOption, rest: Bytes, all: Bytes, offset: nat, known: Option<u16>)
    requires OptionOk(o) && offset <= |all| && all[offset..] == OptionImage(o) + rest
    ensures offset + |OptionImage(o)| <= |all| && all[offset + |OptionImage(o)|..] == rest
    ensures ParseOptions(all, offset, known)
         == ParseOptions(all, offset + |OptionImage(o)|, if o.Mss? then Some(o.size) else known)
  {
    var m := OptionImage(o);
    assert forall i :: 0 <= i < |m| ==> all[offset + i] == all[offset..][i] == m[i];
    assert all[offset + |m|..] == all[offset..][|m|..];
    if o.Mss? {
      Be16Is(o.size);
      assert all[offset + 2] == m[2] && all[offset + 3] == m[3];
    }
  }

  lemma ImageFirst(o: TcpOption, tail: seq<TcpOption>, rest: Bytes)
    requires OptionOk(o) && AllOk(tail)
    ensures AllOk([o] + tail) && Image([o] + tail) + rest == OptionImage(o) + (Image(tail) + rest)
  {
    assert ([o] + tail)[1..] == tail;
    Regrouped(OptionImage(o), Image(tail), rest);
  }

  lemma EndParses(rest: Bytes, all: Bytes, offset: nat, known: Option<u16>)
    requires Ends(rest) && offset <= |all| && all[offset..] == rest
    ensures ParseOptions(all, offset, known) == Ok(known)
  {
    if offset < |all| { assert all[offset] == all[offset..][0]; }
  }

  lemma FirstImage(os: seq<TcpOption>, rest: Bytes)
    requires os != [] && AllOk(os)
    ensures AllOk(os[1..]) && Image(os) + rest == OptionImage(os[0]) + (Image(os[1..]) + rest)
  {
    assert os == [os[0]] + os[1..];
    ImageFirst(os[0], os[1..], rest);
  }

  /** Past the first option of a list the rest of the list remains. */
  lemma FirstParses(os: seq<TcpOption>, rest: Bytes, all: Bytes, offset: nat, known: Option<u16>)
    returns (next: nat, after: Option<u16>)
    requires os != [] && AllOk(os) && offset <= |all| && all[offset..] == Image(os) + rest
    ensures AllOk(os[1..]) && next <= |all| && all[next..] == Image(os[1..]) + rest
    ensures ParseOptions(all, offset, known) == ParseOptions(all, next, after)
    ensures LastMss(os, known) == LastMss(os[1..], after)
  {
    FirstImage(os, rest);
    OneOption(os[0], Image(os[1..]) + rest, all, offset, known);
    next, after := offset + |OptionImage(os[0])|, if os[0].Mss? then Some(os[0].size) else known;
  }

  lemma {:induction false} ImageParses(os: seq<TcpOption>, rest: Bytes, all: Bytes, offset: nat, known: Option<u16>)
    requires AllOk(os) && Ends(rest) && offset <= |all| && all[offset..] == Image(os) + rest
    ensures ParseOptions(all, offset, known) == Ok(LastMss(os, known))
    decreases |os|
  {
    if os == [] {
      assert Image(os) + rest == rest;
      EndParses(rest, all, offset, known);
    } else {
      var next, after := FirstParses(os, rest, all, offset, known);
      ImageParses(os[1..], rest, all, next, after);
    }
  }

  /** The option at an offset the parser gets past. */
  lemma OptionThere(all: Bytes, offset: nat, known: Option<u16>) returns (o: TcpOption)
    requires offset < |all| && all[offset] != 0 && ParseOptions(all, offset, known).Ok?
    ensures OptionOk(o) && offset + |OptionImage(o)| <= |all|
    ensures all[offset..] == OptionImage(o) + all[offset + |OptionImage(o)|..]
  {
    if all[offset] == 1 {
      o := Nop;
    } else {
      var n := all[offset + 1];
      if all[offset] == 2 {
        o := Mss(ReadBe16(all, offset + 2));
        assert OptionImage(o) == all[offset..offset + 4];
      } else {
        o := Other(all[offset], all[offset + 2..offset + n]);
        assert OptionImage(o) == all[offset..offset + n];
      }
    }
    assert all[offset..] == all[offset..offset + |OptionImage(o)|] + all[offset + |OptionImage(o)|..];
  }

  lemma {:induction false} ParsedIsImage(all: Bytes, offset: nat, known: Option<u16>)
    returns (os: seq<TcpOption>, rest: Bytes)
    requires offset <= |all| && ParseOptions(all, offset, known).Ok?
    ensures AllOk(os) && Ends(rest) && all[offset..] == Image(os) + rest
    decreases |all| - offset
  {
    if offset == |all| || all[offset] == 0 {
      os, rest := [], all[offset..];
    } else {
      var o := OptionThere(all, offset, known);
      var next := offset + |OptionImage(o)|;
      OneOption(o, all[next..], all, offset, known);
      var tail;
      tail, rest := ParsedIsImage(all, next, if o.Mss? then Some(o.size) else known);
      os := [o] + tail;
      ImageFirst(o, tail, rest);
    }
  }

  /** The bytes are a list of options that says this maximum segment size. */
  ghost predicate Says(b: Bytes, mss: Option<u16>) {
    exists os: seq<TcpOption>, rest: Bytes :: AllOk(os) && Ends(rest) && b == Image(os) + rest && mss == LastMss(os, None)
  }

  /** The option bytes of a header are read exactly when they spell a list, and its last size counts. */
  lemma OptionsExactly(b: Bytes, mss: Option<u16>)
    ensures ParseOptions(b, 0, None) == Ok(mss) <==> Says(b, mss)
  {
    assert b[0..] == b;
    if ParseOptions(b, 0, None).Ok? {
      var os, rest := ParsedIsImage(b, 0, None);
      ImageParses(os, rest, b, 0, None);
    }
    if Says(b, mss) {
      var os, rest: Bytes :| AllOk(os) && Ends(rest) && b == Image(os) + rest && mss == LastMss(os, None);
      ImageParses(os, rest, b, 0, None);
    }
  }

  // ---------------------------------------------------------------- TCP

  /** A header of a legal size with supported flags and no urgent pointer. */
  predicate HeaderFits(b: Bytes) {
    && 20 <= |b| <= 0xFFFF && 20 <= 4 * (b[12] / 16) <= |b| && b[12] % 2 == 0 && b[13] < 32
    && b[18] == 0 && b[19] == 0
  }

  /** A big-endian 32-bit number. */
  function Number(a: int, b: int, c: int, d: int): int {
    0x100_0000 * a + 0x1_0000 * b + 0x100 * c + d
  }

  /** The fields of a segment as the packet spells them. */
  predicate Spells(b: Bytes, s: Segment)
    requires |b| >= 20
  {
    && s.sourcePort == ReadBe16(b, 0) && s.destinationPort == ReadBe16(b, 2)
    && s.sequence == Number(b[4], b[5], b[6], b[7])
    && s.acknowledgment == Number(b[8], b[9], b[10], b[11])
    && s.flags == b[13] && s.window == ReadBe16(b, 14) && s.urgent == 0
  }

  lemma FieldsExactly(b: Bytes, s: Segment)
    requires 20 <= |b| <= 0xFFFF && 20 <= 4 * (b[12] / 16) <= |b|
    ensures FieldsOf(b, 4 * (b[12] / 16), FlagsOf(b[12], b[13])) == Ok(s)
       <==> HeaderFits(b) && Spells(b, s) && Says(b[20..4 * (b[12] / 16)], s.mss) && s.payload == b[4 * (b[12] / 16)..]
  {
    OptionsExactly(b[20..4 * (b[12] / 16)], s.mss);
  }

  /**
   * A TCP packet decodes to a segment exactly when its header is legal, its sum with the
   * pseudo-header is all ones, its options spell a list whose last maximum segment size is the
   * segment's, and the other fields are what the bytes say.
   */
  lemma TcpAcceptedExactly(source: Address, destination: Address, b: Bytes, s: Segment)
    ensures DecodeTcp(source, destination, b) == Ok(s)
       <==> && HeaderFits(b) && SumsToOnes(source, destination, 6, b) && Spells(b, s)
            && Says(b[20..4 * (b[12] / 16)], s.mss) && s.payload == b[4 * (b[12] / 16)..]
  {
    if 20 <= |b| <= 0xFFFF && 20 <= 4 * (b[12] / 16) <= |b| {
      ValidIsOnes(source, destination, 6, b);
      FieldsExactly(b, s);
    }
  }

  // ---------------------------------------------------------------- what is sent

  /** A datagram is encoded exactly when it fits a packet and the buffer, and then reads back whatever follows it. */
  lemma UdpSentExactly(source: Address, destination: Address, d: Datagram, capacity: nat, more: Bytes)
    ensures var r, length := EncodeUdp(source, destination, d, capacity), 8 + |d.payload|;
      if length > 0xFFFF then r == Err(InvalidLength)
      else if length > capacity then r == Err(Truncated)
      else r.Ok? && |r.value| == length && DecodeUdp(source, destination, r.value + more) == Ok(d)
  {
    if 8 + |d.payload| <= Min(capacity, 0xFFFF) { UdpRoundTrip(source, destination, d, capacity, more); }
  }

  /** A segment is encoded exactly when its flags are supported, it has no urgent pointer, and it fits. */
  lemma TcpSentExactly(source: Address, destination: Address, s: Segment, capacity: nat)
    ensures var r, length := EncodeTcp(source, destination, s, capacity), (if s.mss.None? then 20 else 24) + |s.payload|;
      if s.flags >= 32 || s.urgent != 0 then r == Err(Unsupported)
      else if length > 0xFFFF then r == Err(InvalidLength)
      else if length > capacity then r == Err(Truncated)
      else r.Ok? && |r.value| == length && DecodeTcp(source, destination, r.value) == Ok(s)
  {
    if FlagsSupported(s.flags) && s.urgent == 0 && HeaderLength(s.mss) + |s.payload| <= Min(capacity, 0xFFFF) {
      TcpRoundTrip(source, destination, s, capacity);
    }
  }

  // ---------------------------------------------------------------- damage

  /** Two 16-bit words with the same one's-complement value. */
  predicate SameValue(v: u16, w: u16) {
    v == w || (v == 0 && w == 0xFFFF) || (v == 0xFFFF && w == 0)
  }

  lemma WordsChanged(b: Bytes, o: nat, v: u16)
    requires o % 2 == 0 && o + 2 <= |b|
    ensures Words(Stored(b, o, v)) + ReadBe16(b, o) == Words(b) + v
  {
    var was := b[o..o + 2];
    assert b == b[..o] + was + b[o + 2..] && was[0] == b[o] && was[1] == b[o + 1];
    WordsMiddle(b[..o], was, b[o + 2..]);
    WordsMiddle(b[..o], Be16(v), b[o + 2..]);
    Be16Is(v);
  }

  lemma AllOnesIsMultiple(s: nat)
    ensures Fold(s) == 0xFFFF <==> s > 0 && s % 0xFFFF == 0
  {
    FoldIsCanonical(s);
    if s > 0 {
      assert (s - 1) % 0xFFFF == 0xFFFE <==> s % 0xFFFF == 0;
    }
  }

  /** Changing one word keeps a right sum right exactly when the two words have the same value. */
  lemma OneWordChanged(pseudo: Bytes, b: Bytes, o: nat, v: u16)
    requires o % 2 == 0 && o + 2 <= |b| && SumValid(pseudo, b) && Words(pseudo) > 0
    ensures SumValid(pseudo, Stored(b, o, v)) <==> SameValue(ReadBe16(b, o), v)
  {
    var s, u := PacketSum(pseudo, b), ReadBe16(b, o);
    WordsChanged(b, o, v);
    AllOnesIsMultiple(s);
    AllOnesIsMultiple(s - u + v);
    SameResidueExactly(s, u, v);
  }

  lemma SameResidueExactly(s: nat, u: u16, v: u16)
    requires s % 0xFFFF == 0 && s - u + v >= 0
    ensures (s - u + v) % 0xFFFF == 0 <==> SameValue(u, v)
  {
  }

  lemma PseudoIsPositive(source: Address, destination: Address, protocol: byte, length: u16)
    requires protocol > 0
    ensures Words(Pseudo(source, destination, protocol, length)) > 0
  {
    var before, after: Bytes := source + destination, Be16(length);
    assert Pseudo(source, destination, protocol, length) == before + [0, protocol] + after;
    WordsMiddle(before, [0, protocol], after);
  }

  /**
   * Changing any one 16-bit word of an accepted TCP packet to another value makes it refused, and
   * for its checksum unless the word is the one with the header length.
   */
  lemma TcpDamageIsFound(source: Address, destination: Address, b: Bytes, o: nat, v: u16)
    requires DecodeTcp(source, destination, b).Ok? && o % 2 == 0 && o + 2 <= |b| && !SameValue(ReadBe16(b, o), v)
    ensures DecodeTcp(source, destination, Stored(b, o, v)).Err?
    ensures o != 12 ==> DecodeTcp(source, destination, Stored(b, o, v)) == Err(InvalidChecksum)
  {
    var pseudo := Pseudo(source, destination, 6, |b|);
    PseudoIsPositive(source, destination, 6, |b|);
    OneWordChanged(pseudo, b, o, v);
    StoredReads(b, o, v);
  }

  /**
   * A changed word of an accepted, checksummed UDP packet is found too, except in its length
   * field, which also changes the pseudo-header, and except for clearing the checksum itself.
   */
  lemma UdpDamageIsFound(source: Address, destination: Address, b: Bytes, o: nat, v: u16)
    requires DecodeUdp(source, destination, b).Ok? && ReadBe16(b, 6) != 0 && |b| == ReadBe16(b, 4)
    requires o % 2 == 0 && o + 2 <= |b| && o != 4 && !SameValue(ReadBe16(b, o), v)
    ensures DecodeUdp(source, destination, Stored(b, o, v)) == Err(InvalidChecksum) <==> !(o == 6 && v == 0)
  {
    var c, pseudo := Stored(b, o, v), Pseudo(source, destination, 17, |b|);
    PseudoIsPositive(source, destination, 17, |b|);
    assert b[..|b|] == b && c[..|c|] == c;
    OneWordChanged(pseudo, b, o, v);
    StoredReads(b, o, v);
    assert ReadBe16(c, 4) == ReadBe16(b, 4);
    if o != 6 { assert ReadBe16(c, 6) == ReadBe16(b, 6); }
  }
}
