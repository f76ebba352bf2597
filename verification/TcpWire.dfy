/** TCP segments as bytes: what tcp_send_segment builds is what
    net_handle_tcp_segment parses, checksum included. */
module TcpWire {
  import opened Wrappers
  import opened Bytes
  import opened Checksum
  import opened Tcp
  import opened Ipv4

  datatype Ends = Ends(srcIp: u32, dstIp: u32, srcPort: u16, dstPort: u16)

  function FlagByte(f: Flags): byte
  {
    (if f.fin then 1 else 0) + (if f.syn then 2 else 0) + (if f.rst then 4 else 0)
    + (if f.psh then 8 else 0) + if f.ack then 16 else 0
  }

  function FlagsOf(b: byte): Flags
  {
    Flags(b % 2 == 1, b / 2 % 2 == 1, b / 4 % 2 == 1, b / 8 % 2 == 1, b / 16 % 2 == 1)
  }

  /** The flag bits of section 3.1 of RFC 793. */
  lemma FlagBits(f: Flags)
    ensures FlagByte(SYN) == 0x02 && FlagByte(SYNACK) == 0x12 && FlagByte(ACK) == 0x10
    ensures FlagByte(PSHACK) == 0x18 && FlagByte(FINACK) == 0x11
    ensures FlagByte(f.(rst := true)) == FlagByte(f.(rst := false)) + 0x04
  {
  }

  lemma FlagsRoundTrip(f: Flags)
    ensures FlagsOf(FlagByte(f)) == f
  {
  }

  /** The addresses, the protocol number of TCP and the segment's length (section 3.1 of RFC 793). */
  function Pseudo(e: Ends, len: u16): (r: seq<byte>)
    ensures |r| == 12 && r[0..4] == Be32(e.srcIp) && r[4..8] == Be32(e.dstIp)
    ensures r[8] == 0 && r[9] == 6 && r[10..12] == Be16(len)
  {
    Be32(e.srcIp) + Be32(e.dstIp) + [0, 6] + Be16(len)
  }

  /** The segment with a zero checksum and a window of 4096. */
  function RawSegment(e: Ends, s: Segment): (r: seq<byte>)
    ensures |r| == 20 + |s.payload|
    ensures r[20..] == s.payload
    ensures r[0..2] == Be16(e.srcPort) && r[2..4] == Be16(e.dstPort)
    ensures r[4..8] == Be32(s.seqno) && r[8..12] == Be32(s.ackno)
    ensures r[12] == 0x50 && r[13] == FlagByte(s.flags)
  {
    Be16(e.srcPort) + Be16(e.dstPort) + Be32(s.seqno) + Be32(s.ackno)
    + [0x50, FlagByte(s.flags)] + Be16(4096) + [0, 0, 0, 0] + s.payload
  }

  /** `body` with the checksum of `prefix + body` stored at its offset `off`. */
  function Sealed(prefix: seq<byte>, body: seq<byte>, off: nat): (r: seq<byte>)
    requires |prefix| % 2 == 0 && off % 2 == 0 && off + 2 <= |body|
    ensures |r| == |body|
    ensures forall i :: 0 <= i < |r| && i != off && i != off + 1 ==> r[i] == body[i]
    ensures InternetChecksum(prefix + r) == 0
  {
    var whole := Checksummed(prefix + body, |prefix| + off);
    assert whole == prefix + whole[|prefix|..];
    whole[|prefix|..]
  }

  /** tcp_send_segment: the checksum covers the pseudo-header and the segment. */
  function Encode(e: Ends, s: Segment): (r: seq<byte>)
    requires |s.payload| <= 1300
  {
    Sealed(Pseudo(e, 20 + |s.payload|), RawSegment(e, s), 16)
  }

  /** The checks and field reads of net_handle_tcp_segment. */
  function Decode(srcIp: u32, dstIp: u32, tcp: seq<byte>): Option<(Ends, Segment)>
  {
    if |tcp| < 20 || 12 + |tcp| > 1600 then None
    else
      var e := Ends(srcIp, dstIp, ReadBe16(tcp, 0), ReadBe16(tcp, 2));
      var headerLen := tcp[12] as int / 16 * 4;
      if InternetChecksum(Pseudo(e, |tcp|) + tcp) != 0 then None
      else if headerLen < 20 || headerLen > |tcp| then None
      else Some((e, Segment(ReadBe32(tcp, 4), ReadBe32(tcp, 8), FlagsOf(tcp[13]), tcp[headerLen..])))
  }

  lemma SegmentFields(e: Ends, s: Segment, r: seq<byte>)
    requires |r| == 20 + |s.payload|
    requires forall i :: 0 <= i < |r| && i != 16 && i != 17 ==> r[i] == RawSegment(e, s)[i]
    ensures ReadBe16(r, 0) == e.srcPort && ReadBe16(r, 2) == e.dstPort
    ensures ReadBe32(r, 4) == s.seqno && ReadBe32(r, 8) == s.ackno
    ensures r[12] == 0x50 && FlagsOf(r[13]) == s.flags && r[20..] == s.payload
  {
    var raw := RawSegment(e, s);
    assert r[0..2] == raw[0..2] && r[2..4] == raw[2..4];
    assert r[4..8] == raw[4..8] && r[8..12] == raw[8..12] && r[20..] == raw[20..];
    FieldRoundTrip16(r, 0, e.srcPort);
    FieldRoundTrip16(r, 2, e.dstPort);
    FieldRoundTrip32(r, 4, s.seqno);
    FieldRoundTrip32(r, 8, s.ackno);
    FlagsRoundTrip(s.flags);
  }

  /** Every segment offers a window of 4096 bytes and a header of five words. */
  lemma WindowAndLength(e: Ends, s: Segment)
    requires |s.payload| <= 1300
    ensures var r := Encode(e, s); |r| == 20 + |s.payload| && ReadBe16(r, 14) == 4096 && r[12] / 16 == 5
  {
    SegmentFields(e, s, Encode(e, s));
    assert RawSegment(e, s)[14..16] == Be16(4096);
  }

  /** What is accepted is intact: its checksum verifies and its header lies within it. */
  lemma AcceptedIsIntact(srcIp: u32, dstIp: u32, tcp: seq<byte>)
    requires Decode(srcIp, dstIp, tcp).Some?
    ensures var (e, s) := Decode(srcIp, dstIp, tcp).value;
      && e.srcIp == srcIp && e.dstIp == dstIp && |tcp| >= 20 + |s.payload|
      && tcp[|tcp| - |s.payload|..] == s.payload && InternetChecksum(Pseudo(e, |tcp|) + tcp) == 0
  {
  }

  /** A sent segment one word of whose numbers, flags or payload has changed on the way is
      refused, but for a word that turned from 0 into 0xFFFF or back. */
  lemma CorruptIsRefused(e: Ends, s: Segment, off: nat, v: u16)
    requires |s.payload| <= 1300 && 4 <= off && off % 2 == 0 && off + 2 <= 20 + |s.payload|
    requires v != ReadBe16(Encode(e, s), off) && {v, ReadBe16(Encode(e, s), off)} != {0, 0xFFFF}
    ensures Decode(e.srcIp, e.dstIp, Splice(Encode(e, s), off, Be16(v))) == None
  {
    var r := Encode(e, s);
    SegmentFields(e, s, r);
    WordChanged(Pseudo(e, |r|), r, off, v);
    BadSumRefused(e, Splice(r, off, Be16(v)));
  }

  lemma WordChanged(p: seq<byte>, r: seq<byte>, off: nat, v: u16)
    requires |p| % 2 == 0 && off % 2 == 0 && off + 2 <= |r| && InternetChecksum(p + r) == 0
    requires v != ReadBe16(r, off) && {v, ReadBe16(r, off)} != {0, 0xFFFF}
    ensures InternetChecksum(p + Splice(r, off, Be16(v))) != 0
  {
    assert ReadBe16(p + r, |p| + off) == ReadBe16(r, off);
    assert Splice(p + r, |p| + off, Be16(v)) == p + Splice(r, off, Be16(v));
    WordErrorDetected(p + r, |p| + off, v);
  }

  lemma BadSumRefused(e: Ends, tcp: seq<byte>)
    requires |tcp| >= 20 && ReadBe16(tcp, 0) == e.srcPort && ReadBe16(tcp, 2) == e.dstPort
    requires |tcp| < 0x1_0000 && InternetChecksum(Pseudo(e, |tcp|) + tcp) != 0
    ensures Decode(e.srcIp, e.dstIp, tcp) == None
  {
  }

  /** Every segment sent passes the receiver's checksum and is read back unchanged. */
  lemma SegmentRoundTrip(e: Ends, s: Segment)
    requires |s.payload| <= 1300
    ensures Decode(e.srcIp, e.dstIp, Encode(e, s)) == Some((e, s))
  {
    SegmentFields(e, s, Encode(e, s));
  }
}
