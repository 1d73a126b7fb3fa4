/** UDP datagrams and TCP segments on the wire, with the pseudo-header checksum. */
module Wire {
  import opened Machine
  import opened Checksum
  import opened UdpSpec

  datatype WireError = Truncated | InvalidLength | InvalidHeader | InvalidChecksum | Unsupported

  type Address = a: Bytes | |a| == 4 witness [0, 0, 0, 0]

  const UDP_PROTOCOL: byte := 17
  const TCP_PROTOCOL: byte := 6

  function Pseudo(source: Address, destination: Address, protocol: byte, length: u16): (p: Bytes)
    ensures |p| == 12
  {
    source + destination + [0, protocol] + Be16(length)
  }

  /** The sum both codecs fold: the pseudo-header's words and the packet's. */
  function PacketSum(pseudo: Bytes, packet: Bytes): nat {
    Words(pseudo) + Words(packet)
  }

  /** The sum of a pseudo-header and any packet fits 32 bits, so neither codec's accumulator overflows or saturates. */
  lemma PacketSumFits(pseudo: Bytes, packet: Bytes)
    requires |pseudo| == 12 && |packet| <= 0xFFFF
    ensures PacketSum(pseudo, packet) < TWO32
  {
    WordsBound(pseudo);
    WordsBound(packet);
  }

  predicate SumValid(pseudo: Bytes, packet: Bytes) {
    Fold(PacketSum(pseudo, packet)) == 0xFFFF
  }

  /** Storing the complement of the fold, or all ones for a zero complement, makes a packet valid. */
  lemma StoredSumValid(pseudo: Bytes, packet: Bytes, o: nat, c: u16)
    requires o % 2 == 0 && o + 2 <= |packet| && packet[o] == 0 && packet[o + 1] == 0
    requires var f := Fold(PacketSum(pseudo, packet)); c == 0xFFFF - f || (c == 0xFFFF && f == 0xFFFF)
    ensures SumValid(pseudo, Stored(packet, o, c))
  {
    WordsStored(packet, o, c);
    ComplementFolds(PacketSum(pseudo, packet), c);
  }

  lemma StoredReads(packet: Bytes, o: nat, c: u16)
    requires o + 2 <= |packet|
    ensures ReadBe16(Stored(packet, o, c), o) == c
    ensures forall i :: 0 <= i < |packet| && i != o && i != o + 1 ==> Stored(packet, o, c)[i] == packet[i]
    ensures Stored(packet, o, c)[o + 2..] == packet[o + 2..]
  {
    Be16Is(c);
  }

  // ---------------------------------------------------------------- UDP

  function UdpHeader(d: Datagram, length: u16): (h: Bytes)
    ensures |h| == 8
  {
    Be16(d.sourcePort) + Be16(d.destinationPort) + Be16(length) + [0, 0]
  }

  /** A zero checksum means none was computed, so it is sent as all ones. */
  function UdpChecksum(sum: nat): u16 {
    if Fold(sum) == 0xFFFF then 0xFFFF else 0xFFFF - Fold(sum)
  }

  function EncodeUdp(source: Address, destination: Address, d: Datagram, capacity: nat): Result<Bytes, WireError> {
    var length := 8 + |d.payload|;
    if length > 0xFFFF then Err(InvalidLength)
    else if capacity < length then Err(Truncated)
    else
      var packet := UdpHeader(d, length) + d.payload;
      Ok(Stored(packet, 6, UdpChecksum(PacketSum(Pseudo(source, destination, UDP_PROTOCOL, length), packet))))
  }

  function DecodeUdp(source: Address, destination: Address, b: Bytes): Result<Datagram, WireError> {
    if |b| < 8 then Err(Truncated)
    else
      var length := ReadBe16(b, 4);
      if length < 8 || length > |b| then Err(InvalidLength)
      else if ReadBe16(b, 6) != 0 && !SumValid(Pseudo(source, destination, UDP_PROTOCOL, length), b[..length])
      then Err(InvalidChecksum)
      else Ok(Datagram(ReadBe16(b, 0), ReadBe16(b, 2), b[8..length]))
  }

  lemma UdpHeaderReads(d: Datagram, length: u16, packet: Bytes)
    requires packet == UdpHeader(d, length) + d.payload
    ensures |packet| == 8 + |d.payload| && packet[6] == 0 && packet[7] == 0 && packet[8..] == d.payload
    ensures ReadBe16(packet, 0) == d.sourcePort && ReadBe16(packet, 2) == d.destinationPort
    ensures ReadBe16(packet, 4) == length
  {
    var s, t, l := Be16(d.sourcePort), Be16(d.destinationPort), Be16(length);
    Be16Is(d.sourcePort);
    Be16Is(d.destinationPort);
    Be16Is(length);
    assert packet[0] == s[0] && packet[1] == s[1] && packet[2] == t[0] && packet[3] == t[1];
    assert packet[4] == l[0] && packet[5] == l[1];
  }

  lemma UdpEncoded(source: Address, destination: Address, d: Datagram, capacity: nat, b: Bytes, more: Bytes)
    requires EncodeUdp(source, destination, d, capacity) == Ok(b)
    ensures |b| == 8 + |d.payload| && ReadBe16(b, 6) != 0
    ensures DecodeUdp(source, destination, b + more) == Ok(d)
  {
    var length := 8 + |d.payload|;
    var packet, pseudo := UdpHeader(d, length) + d.payload, Pseudo(source, destination, UDP_PROTOCOL, length);
    var c := UdpChecksum(PacketSum(pseudo, packet));
    UdpHeaderReads(d, length, packet);
    StoredSumValid(pseudo, packet, 6, c);
    StoredReads(packet, 6, c);
    UdpDecodes(source, destination, d, length, b, more);
  }

  /**
   * Every datagram that fits a packet and the buffer is encoded, with a checksum that is never
   * zero, and decodes to itself, whatever follows it in the buffer.
   */
  lemma UdpRoundTrip(source: Address, destination: Address, d: Datagram, capacity: nat, more: Bytes)
    requires 8 + |d.payload| <= Min(capacity, 0xFFFF)
    ensures var r := EncodeUdp(source, destination, d, capacity);
      && r.Ok? && |r.value| == 8 + |d.payload| && ReadBe16(r.value, 6) != 0
      && DecodeUdp(source, destination, r.value + more) == Ok(d)
  {
    UdpEncoded(source, destination, d, capacity, EncodeUdp(source, destination, d, capacity).value, more);
  }

  lemma UdpDecodes(source: Address, destination: Address, d: Datagram, length: u16, b: Bytes, more: Bytes)
    requires |b| == length == 8 + |d.payload| && ReadBe16(b, 4) == length && b[8..] == d.payload
    requires ReadBe16(b, 0) == d.sourcePort && ReadBe16(b, 2) == d.destinationPort
    requires SumValid(Pseudo(source, destination, UDP_PROTOCOL, length), b)
    ensures DecodeUdp(source, destination, b + more) == Ok(d)
  {
    var all := b + more;
    assert all[..length] == b && all[8..length] == b[8..];
    assert ReadBe16(all, 0) == ReadBe16(b, 0) && ReadBe16(all, 2) == ReadBe16(b, 2);
    assert ReadBe16(all, 4) == ReadBe16(b, 4);
  }

  // ---------------------------------------------------------------- TCP

  datatype Segment = Segment(
    sourcePort: u16, destinationPort: u16, sequence: u32, acknowledgment: u32, flags: u16, window: u16,
    urgent: u16, mss: Option<u16>, payload: Bytes)

  /** FIN, SYN, RST, PSH and ACK are the five low bits. */
  predicate FlagsSupported(flags: u16) {
    flags < 32
  }

  function Be32(v: u32): (b: Bytes)
    ensures |b| == 4
  {
    Be16(v / 0x1_0000) + Be16(v % 0x1_0000)
  }

  function ReadBe32(b: Bytes, o: nat): u32
    requires o + 4 <= |b|
  {
    var hi: int, lo: int := ReadBe16(b, o), ReadBe16(b, o + 2);
    0x1_0000 * hi + lo
  }

  function OptionBytes(mss: Option<u16>): Bytes {
    if mss.None? then [] else [2, 4] + Be16(mss.value)
  }

  function HeaderLength(mss: Option<u16>): nat {
    if mss.None? then 20 else 24
  }

  function TcpHeader(s: Segment): (h: Bytes)
    ensures |h| == HeaderLength(s.mss)
  {
    Be16(s.sourcePort) + Be16(s.destinationPort) + Be32(s.sequence) + Be32(s.acknowledgment)
    + [HeaderLength(s.mss) / 4 * 16, s.flags % 256] + Be16(s.window) + [0, 0] + Be16(s.urgent) + OptionBytes(s.mss)
  }

  function EncodeTcp(source: Address, destination: Address, s: Segment, capacity: nat): Result<Bytes, WireError> {
    var total := HeaderLength(s.mss) + |s.payload|;
    if !FlagsSupported(s.flags) || s.urgent != 0 then Err(Unsupported)
    else if total > 0xFFFF then Err(InvalidLength)
    else if capacity < total then Err(Truncated)
    else
      var packet := TcpHeader(s) + s.payload;
      Ok(Stored(packet, 16, 0xFFFF - Fold(PacketSum(Pseudo(source, destination, TCP_PROTOCOL, total), packet))))
  }

  /** The options from an offset on, after the maximum segment size read so far. */
  function ParseOptions(o: Bytes, offset: nat, mss: Option<u16>): Result<Option<u16>, WireError>
    requires offset <= |o|
    decreases |o| - offset
  {
    if offset == |o| || o[offset] == 0 then Ok(mss)
    else if o[offset] == 1 then ParseOptions(o, offset + 1, mss)
    else if offset + 1 == |o| || o[offset + 1] < 2 || offset + o[offset + 1] > |o| then Err(InvalidHeader)
    else if o[offset] == 2 && o[offset + 1] != 4 then Err(InvalidHeader)
    else
      ParseOptions(o, offset + o[offset + 1], if o[offset] == 2 then Some(ReadBe16(o, offset + 2)) else mss)
  }

  function FlagsOf(hi: byte, lo: byte): u16 {
    var low: int, high: int := lo, hi % 2;
    low + 256 * high
  }

  /** The fields of a packet whose length and checksum are right. */
  function FieldsOf(b: Bytes, header: nat, flags: u16): Result<Segment, WireError>
    requires 20 <= header <= |b|
  {
    var urgent := ReadBe16(b, 18);
    if !FlagsSupported(flags) || urgent != 0 then Err(Unsupported)
    else
      var options := ParseOptions(b[20..header], 0, None);
      if options.Err? then Err(options.error)
      else
        Ok(Segment(ReadBe16(b, 0), ReadBe16(b, 2), ReadBe32(b, 4), ReadBe32(b, 8), flags, ReadBe16(b, 14),
                   urgent, options.value, b[header..]))
  }

  function DecodeTcp(source: Address, destination: Address, b: Bytes): Result<Segment, WireError> {
    if |b| < 20 then Err(Truncated)
    else
      var header := 4 * (b[12] / 16);
      if header < 20 then Err(InvalidHeader)
      else if header > |b| then Err(Truncated)
      else if |b| > 0xFFFF then Err(InvalidLength)
      else if !SumValid(Pseudo(source, destination, TCP_PROTOCOL, |b|), b) then Err(InvalidChecksum)
      else FieldsOf(b, header, FlagsOf(b[12], b[13]))
  }

  lemma Be32Is(v: u32, b: Bytes, o: nat)
    requires o + 4 <= |b| && b[o..o + 4] == Be32(v)
    ensures ReadBe32(b, o) == v
  {
    var w := Be32(v);
    assert b[o] == b[o..o + 4][0] && b[o + 1] == b[o..o + 4][1] && b[o + 2] == b[o..o + 4][2]
        && b[o + 3] == b[o..o + 4][3];
    Be16Is(v / 0x1_0000);
    Be16Is(v % 0x1_0000);
  }

  lemma Be16At(v: u16, b: Bytes, o: nat)
    requires o + 2 <= |b| && b[o..o + 2] == Be16(v)
    ensures ReadBe16(b, o) == v
  {
    assert b[o] == b[o..o + 2][0] && b[o + 1] == b[o..o + 2][1];
    Be16Is(v);
  }

  lemma OwnOptions(mss: Option<u16>)
    ensures ParseOptions(OptionBytes(mss), 0, None) == Ok(mss)
  {
    var o := OptionBytes(mss);
    if mss.Some? {
      assert o[0] == 2 && o[1] == 4 && o[2..4] == Be16(mss.value);
      Be16At(mss.value, o, 2);
      assert ParseOptions(o, 4, mss) == Ok(mss);
    }
  }

  lemma TcpPieces(a: Bytes, b: Bytes, c: Bytes, d: Bytes, e: Bytes, f: Bytes, z: Bytes, g: Bytes, o: Bytes,
                  p: Bytes, all: Bytes)
    requires all == a + b + c + d + e + f + z + g + o + p
    requires |a| == 2 && |b| == 2 && |c| == 4 && |d| == 4 && |e| == 2 && |f| == 2 && |z| == 2 && |g| == 2
    ensures |all| == 20 + |o| + |p| && all[0..2] == a && all[2..4] == b && all[4..8] == c && all[8..12] == d
    ensures all[12..14] == e && all[14..16] == f && all[16..18] == z && all[18..20] == g
    ensures all[20..20 + |o|] == o && all[20 + |o|..] == p
  {
  }

  /** The fields of a packet with a given header, before or after its checksum is stored. */
  predicate Carries(b: Bytes, s: Segment) {
    var header := HeaderLength(s.mss);
    && |b| == header + |s.payload| && b[0..2] == Be16(s.sourcePort) && b[2..4] == Be16(s.destinationPort)
    && b[4..8] == Be32(s.sequence) && b[8..12] == Be32(s.acknowledgment)
    && b[12] == header / 4 * 16 && b[13] == s.flags % 256 && b[14..16] == Be16(s.window)
    && b[18..20] == Be16(s.urgent) && b[20..header] == OptionBytes(s.mss) && b[header..] == s.payload
  }

  lemma HeaderCarries(s: Segment, packet: Bytes)
    requires packet == TcpHeader(s) + s.payload
    ensures Carries(packet, s) && packet[16] == 0 && packet[17] == 0
  {
    var e: Bytes, z: Bytes := [HeaderLength(s.mss) / 4 * 16, s.flags % 256], [0, 0];
    TcpPieces(Be16(s.sourcePort), Be16(s.destinationPort), Be32(s.sequence), Be32(s.acknowledgment), e,
              Be16(s.window), z, Be16(s.urgent), OptionBytes(s.mss), s.payload, packet);
    assert packet[12] == packet[12..14][0] && packet[13] == packet[12..14][1];
    assert packet[16] == packet[16..18][0] && packet[17] == packet[16..18][1];
  }

  lemma StoredSlices(b: Bytes, o: nat, c: u16)
    requires o + 2 <= |b|
    ensures forall i, j :: 0 <= i <= j <= o ==> Stored(b, o, c)[i..j] == b[i..j]
    ensures forall i, j :: o + 2 <= i <= j <= |b| ==> Stored(b, o, c)[i..j] == b[i..j]
    ensures forall i :: o + 2 <= i <= |b| ==> Stored(b, o, c)[i..] == b[i..]
  {
    StoredReads(b, o, c);
  }

  lemma StoredCarries(b: Bytes, s: Segment, c: u16)
    requires Carries(b, s)
    ensures Carries(Stored(b, 16, c), s)
  {
    StoredSlices(b, 16, c);
    StoredReads(b, 16, c);
  }

  lemma FieldsRead(b: Bytes, s: Segment)
    requires Carries(b, s)
    ensures ReadBe16(b, 0) == s.sourcePort && ReadBe16(b, 2) == s.destinationPort && ReadBe32(b, 4) == s.sequence
    ensures ReadBe32(b, 8) == s.acknowledgment && ReadBe16(b, 14) == s.window && ReadBe16(b, 18) == s.urgent
    ensures ParseOptions(b[20..HeaderLength(s.mss)], 0, None) == Ok(s.mss)
  {
    Be16At(s.sourcePort, b, 0);
    Be16At(s.destinationPort, b, 2);
    Be32Is(s.sequence, b, 4);
    Be32Is(s.acknowledgment, b, 8);
    Be16At(s.window, b, 14);
    Be16At(s.urgent, b, 18);
    OwnOptions(s.mss);
  }

  lemma FieldsCarried(b: Bytes, s: Segment)
    requires Carries(b, s) && FlagsSupported(s.flags) && s.urgent == 0
    ensures FieldsOf(b, HeaderLength(s.mss), s.flags) == Ok(s)
  {
    FieldsRead(b, s);
  }

  lemma OffsetAndFlags(hi: byte, lo: byte, mss: Option<u16>, flags: u16)
    requires hi == HeaderLength(mss) / 4 * 16 && lo == flags % 256 && FlagsSupported(flags)
    ensures 4 * (hi / 16) == HeaderLength(mss) && FlagsOf(hi, lo) == flags
  {
  }

  lemma TcpDecodes(source: Address, destination: Address, s: Segment, b: Bytes)
    requires Carries(b, s) && FlagsSupported(s.flags) && s.urgent == 0 && |b| <= 0xFFFF
    requires SumValid(Pseudo(source, destination, TCP_PROTOCOL, |b|), b)
    ensures DecodeTcp(source, destination, b) == Ok(s)
  {
    OffsetAndFlags(b[12], b[13], s.mss, s.flags);
    FieldsCarried(b, s);
  }

  lemma TcpEncoded(source: Address, destination: Address, s: Segment, capacity: nat, b: Bytes)
    requires EncodeTcp(source, destination, s, capacity) == Ok(b)
    ensures |b| == HeaderLength(s.mss) + |s.payload|
    ensures DecodeTcp(source, destination, b) == Ok(s)
  {
    var total := HeaderLength(s.mss) + |s.payload|;
    var packet, pseudo := TcpHeader(s) + s.payload, Pseudo(source, destination, TCP_PROTOCOL, total);
    var c := 0xFFFF - Fold(PacketSum(pseudo, packet));
    HeaderCarries(s, packet);
    StoredSumValid(pseudo, packet, 16, c);
    StoredCarries(packet, s, c);
    TcpDecodes(source, destination, s, b);
  }

  /**
   * Every segment with supported flags and no urgent pointer that fits a packet and the buffer
   * is encoded and decodes to itself.
   */
  lemma TcpRoundTrip(source: Address, destination: Address, s: Segment, capacity: nat)
    requires FlagsSupported(s.flags) && s.urgent == 0
    requires HeaderLength(s.mss) + |s.payload| <= Min(capacity, 0xFFFF)
    ensures var r := EncodeTcp(source, destination, s, capacity);
      && r.Ok? && |r.value| == HeaderLength(s.mss) + |s.payload| && DecodeTcp(source, destination, r.value) == Ok(s)
  {
    TcpEncoded(source, destination, s, capacity, EncodeTcp(source, destination, s, capacity).value);
  }

  // ---------------------------------------------------------------- loops

  method SumLoop(b: Bytes) returns (sum: nat)
    requires |b| <= 0xFFFF
    ensures sum == Words(b) && sum < TWO32
  {
    var i := 0;
    sum := 0;
    while i + 2 <= |b|
      invariant i % 2 == 0 && i <= |b| && sum == Words(b[..i])
    {
      WordsSnoc(b, i);
      sum := sum + Word(b[i], b[i + 1]);
      i := i + 2;
    }
    if i < |b| {
      assert b == b[..i] + [b[i]];
      WordsJoin(b[..i], [b[i]]);
      sum := sum + Word(b[i], 0);
    } else {
      assert b[..i] == b;
    }
    Exact(b);
  }

  method OptionsLoop(o: Bytes) returns (r: Result<Option<u16>, WireError>)
    ensures r == ParseOptions(o, 0, None)
  {
    var offset, mss: Option<u16> := 0, None;
    while offset < |o|
      invariant offset <= |o| && ParseOptions(o, offset, mss) == ParseOptions(o, 0, None)
    {
      if o[offset] == 0 { break; }
      if o[offset] == 1 {
        offset := offset + 1;
      } else {
        if offset + 1 == |o| { return Err(InvalidHeader); }
        var length := o[offset + 1];
        if length < 2 || offset + length > |o| { return Err(InvalidHeader); }
        if o[offset] == 2 {
          if length != 4 { return Err(InvalidHeader); }
          mss := Some(ReadBe16(o, offset + 2));
        }
        offset := offset + length;
      }
    }
    r := Ok(mss);
  }
}
