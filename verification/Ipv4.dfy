/** IPv4 packets of kernel/net.c: the headers it builds, forwards and checks, and
    the fragmenter (section 3.2 of RFC 791). A packet here starts at the IP header. */
module Ipv4 {
  import opened Wrappers
  import opened Bytes
  import opened Checksum

  const MTU: nat := 1500
  const HEADER: nat := 20
  const MAX_HEADER: nat := 60
  /** Largest fragment payload: what fits the MTU, rounded down to 8 bytes. */
  const FRAG: nat := 1480
  const MORE: nat := 0x2000


  /** The fields of a header without options. */
  datatype Head = Head(totalLen: u16, ident: u16, flagsOff: u16, ttl: byte, proto: byte, src: u32, dst: u32)

  /** A packet that passed the receive checks. */
  datatype Incoming = Incoming(
    header: seq<byte>, payload: seq<byte>,
    src: u32, dst: u32, proto: byte, ident: u16, fragOff: u16)

  /** Zero the checksum field at `off`, then store the checksum of the whole there. */
  function Checksummed(b: seq<byte>, off: nat): (r: seq<byte>)
    requires off % 2 == 0 && off + 2 <= |b|
    ensures |r| == |b|
    ensures forall i :: 0 <= i < |b| && i != off && i != off + 1 ==> r[i] == b[i]
    ensures InternetChecksum(r) == 0
  {
    var z := Splice(b, off, [0, 0]);
    StoredChecksumVerifies(z, off, InternetChecksum(z));
    Splice(z, off, Be16(InternetChecksum(z)))
  }

  /** Checksumming again, or with the field in any state, gives the same bytes. */
  lemma ChecksummedAgain(a: seq<byte>, b: seq<byte>, off: nat)
    requires off % 2 == 0 && off + 2 <= |b| && |a| == |b|
    requires forall i :: 0 <= i < |b| && i != off && i != off + 1 ==> a[i] == b[i]
    ensures Checksummed(a, off) == Checksummed(b, off)
  {
    assert Splice(a, off, [0, 0]) == Splice(b, off, [0, 0]);
  }

  function RawHeader(h: Head): (r: seq<byte>)
    ensures |r| == HEADER
  {
    [0x45, 0] + Be16(h.totalLen) + Be16(h.ident) + Be16(h.flagsOff) + [h.ttl, h.proto, 0, 0] + Be32(h.src) + Be32(h.dst)
  }

  function Header(h: Head): (r: seq<byte>)
    ensures |r| == HEADER && InternetChecksum(r) == 0
  {
    Checksummed(RawHeader(h), 10)
  }

  /** The fields at their offsets. */
  predicate Fields(r: seq<byte>, h: Head)
    requires |r| == HEADER
  {
    && r[0] == 0x45 && r[8] == h.ttl && r[9] == h.proto
    && ReadBe16(r, 2) == h.totalLen && ReadBe16(r, 4) == h.ident && ReadBe16(r, 6) == h.flagsOff
    && ReadBe32(r, 12) == h.src && ReadBe32(r, 16) == h.dst
  }

  lemma RawFields(h: Head)
    ensures Fields(RawHeader(h), h)
  {
    var r := RawHeader(h);
    assert r[2..4] == Be16(h.totalLen) && r[4..6] == Be16(h.ident) && r[6..8] == Be16(h.flagsOff);
    FieldRoundTrip16(r, 2, h.totalLen);
    FieldRoundTrip16(r, 4, h.ident);
    FieldRoundTrip16(r, 6, h.flagsOff);
    assert r[12..16] == Be32(h.src);
    var front := [0x45, 0] + Be16(h.totalLen) + Be16(h.ident) + Be16(h.flagsOff) + [h.ttl, h.proto, 0, 0] + Be32(h.src);
    TailOf(front, Be32(h.dst), r);
    FieldRoundTrip32(r, 12, h.src);
    FieldRoundTrip32(r, 16, h.dst);
  }

  lemma FieldsKept(a: seq<byte>, b: seq<byte>, h: Head)
    requires |a| == |b| == HEADER && Fields(a, h) && forall i :: 0 <= i < HEADER && i != 10 && i != 11 ==> b[i] == a[i]
    ensures Fields(b, h)
  {
  }

  lemma HeaderFields(h: Head)
    ensures Fields(Header(h), h)
  {
    RawFields(h);
    FieldsKept(RawHeader(h), Header(h), h);
  }

  /** The receive checks of net_handle_ipv4_frame; trailing bytes are Ethernet padding. */
  function Accept(pkt: seq<byte>): Option<Incoming>
  {
    if |pkt| < HEADER || pkt[0] / 16 != 4 then None
    else
      var headerLen := pkt[0] as int % 16 * 4;
      if headerLen < 20 || headerLen > 60 || |pkt| < headerLen then None
      else
        var totalLen := ReadBe16(pkt, 2);
        if totalLen < headerLen || |pkt| < totalLen then None
        else if InternetChecksum(pkt[..headerLen]) != 0 then None
        else
          Some(Incoming(pkt[..headerLen], pkt[headerLen..totalLen],
                        ReadBe32(pkt, 12), ReadBe32(pkt, 16), pkt[9], ReadBe16(pkt, 4), ReadBe16(pkt, 6)))
  }

  /** Every packet built here passes the receive checks, with its fields and payload intact. */
  lemma BuiltIsAccepted(h: Head, payload: seq<byte>, padding: seq<byte>)
    requires h.totalLen == HEADER + |payload|
    ensures Accept(Header(h) + payload + padding)
         == Some(Incoming(Header(h), payload, h.src, h.dst, h.proto, h.ident, h.flagsOff))
  {
    var p := Header(h) + payload + padding;
    HeaderFields(h);
    assert p[..20] == Header(h);
    assert p[20..h.totalLen] == payload;
    assert forall i :: 0 <= i < 20 ==> p[i] == Header(h)[i];
  }

  /** A built packet one word of whose header has changed on the way is refused, but for a word
      that turned from 0 into 0xFFFF or back; the first word holds version and header length. */
  lemma CorruptIsRefused(h: Head, payload: seq<byte>, off: nat, v: u16)
    requires h.totalLen == HEADER + |payload| && 2 <= off && off % 2 == 0 && off + 2 <= HEADER
    requires v != ReadBe16(Header(h), off) && {v, ReadBe16(Header(h), off)} != {0, 0xFFFF}
    ensures Accept(Splice(Header(h) + payload, off, Be16(v))) == None
  {
    var r := Splice(Header(h), off, Be16(v));
    SpliceInFront(Header(h), payload, off, Be16(v));
    HeaderFields(h);
    WordErrorDetected(Header(h), off, v);
    BadSumRefused(r, payload);
  }

  lemma SpliceInFront(a: seq<byte>, b: seq<byte>, off: nat, data: seq<byte>)
    requires off + |data| <= |a|
    ensures Splice(a + b, off, data) == Splice(a, off, data) + b
  {
  }

  lemma BadSumRefused(header: seq<byte>, payload: seq<byte>)
    requires |header| == HEADER && header[0] == 0x45 && InternetChecksum(header) != 0
    ensures Accept(header + payload) == None
  {
    assert (header + payload)[..HEADER] == header;
  }

  /** net_forward_ipv4_packet, given that a route exists. */
  function Forward(pkt: seq<byte>): Option<seq<byte>>
  {
    if |pkt| < HEADER || |pkt| > MTU then None
    else
      var ihl := pkt[0] as int % 16 * 4;
      if ihl < 20 || ihl > |pkt| || pkt[8] <= 1 then None
      else Some(Checksummed(pkt[8 := pkt[8] - 1][..ihl], 10) + pkt[ihl..])
  }

  /** A forwarded packet differs only in its TTL, one lower, and its checksum, which verifies. */
  lemma ForwardedIsAccepted(pkt: seq<byte>)
    requires Forward(pkt).Some? && Accept(pkt).Some?
    ensures var q := Forward(pkt).value;
      && |q| == |pkt| && q[8] == pkt[8] - 1
      && (forall i :: 0 <= i < |pkt| && i != 8 && i != 10 && i != 11 ==> q[i] == pkt[i])
      && Accept(q) == Some(Accept(pkt).value.(header := q[..|Accept(pkt).value.header|]))
  {
    var ihl := pkt[0] as int % 16 * 4;
    var q := Forward(pkt).value;
    assert q[..ihl] == Checksummed(pkt[8 := pkt[8] - 1][..ihl], 10);
    assert q[ihl..ReadBe16(pkt, 2)] == pkt[ihl..ReadBe16(pkt, 2)];
    assert InternetChecksum(q[..ihl]) == 0 && q[0] == pkt[0] && ReadBe16(q, 2) == ReadBe16(pkt, 2);
  }

  /** `q` is the packet with a TTL that is lower by `n`; its header length and all behind the
      first 20 bytes are the same. */
  predicate Hopped(pkt: seq<byte>, q: seq<byte>, n: nat)
    requires HEADER <= |pkt|
  {
    |q| == |pkt| && q[0] == pkt[0] && q[8] as int == pkt[8] - n && q[20..] == pkt[20..]
  }

  predicate Routable(pkt: seq<byte>) { HEADER <= |pkt| <= MTU && 20 <= pkt[0] as int % 16 * 4 <= |pkt| }

  /** A packet on its way through routers that each forward it: after `n` of them its TTL is
      lower by `n` and still positive, and it goes on exactly if that is more than 1. */
  lemma HopLimit(hops: seq<seq<byte>>)
    requires hops != [] && Routable(hops[0]) && forall k :: 0 < k < |hops| ==> Forward(hops[k - 1]) == Some(hops[k])
    ensures var n := |hops| - 1;
      && (n > 0 ==> n < hops[0][8]) && Hopped(hops[0], hops[n], n)
      && (Forward(hops[n]).Some? <==> hops[0][8] as int - n > 1)
  {
    var n := 0;
    while n < |hops| - 1
      invariant n < |hops| && Routable(hops[n]) && (n > 0 ==> n < hops[0][8]) && Hopped(hops[0], hops[n], n)
    {
      OneHop(hops[n]);
      HopsAdd(hops[0], hops[n], hops[n + 1], n + 1);
      n := n + 1;
    }
    OneHop(hops[n]);
  }

  lemma HopsAdd(pkt: seq<byte>, q: seq<byte>, r: seq<byte>, n: nat)
    requires Routable(pkt) && n > 0 && Hopped(pkt, q, n - 1) && Hopped(q, r, 1)
    ensures Hopped(pkt, r, n) && Routable(r)
  {
  }

  lemma OneHop(pkt: seq<byte>)
    requires Routable(pkt)
    ensures Forward(pkt).Some? <==> pkt[8] > 1
    ensures Forward(pkt).Some? ==> Hopped(pkt, Forward(pkt).value, 1)
  {
    if Forward(pkt).Some? {
      var q := Forward(pkt).value;
      assert forall i :: 20 <= i < |pkt| ==> q[i] == pkt[i];
    }
  }

  // ---- Fragmenter ------------------------------------------------------

  /** What a datagram carries besides its payload. */
  datatype Datagram = Datagram(src: u32, dst: u32, proto: byte, ttl: byte, ident: u16, payload: seq<byte>)

  /** A packet before it is laid out: its header fields and its payload. */
  datatype Packet = Packet(head: Head, payload: seq<byte>)

  function Wire(p: Packet): seq<byte> { Header(p.head) + p.payload }

  /** A packet for `payload` at fragment field `flagsOff` of the datagram. */
  function PacketOf(d: Datagram, flagsOff: u16, payload: seq<byte>): Packet
    requires |payload| <= 0xFFFF - HEADER
  {
    Packet(Head(HEADER + |payload|, d.ident, flagsOff, d.ttl, d.proto, d.src, d.dst), payload)
  }

  /** The packet the datagram would be if it fitted. */
  function Whole(d: Datagram): Packet
    requires |d.payload| <= 0xFFFF - HEADER
  {
    PacketOf(d, 0, d.payload)
  }

  function FragmentCount(n: nat): nat { (n + FRAG - 1) / FRAG }

  function FragmentEnd(n: nat, i: nat): nat { if (i + 1) * FRAG < n then (i + 1) * FRAG else n }

  /** The `i`-th fragment: 1480 bytes, or what is left, at its offset in units of 8. */
  function Fragment(d: Datagram, i: nat): Packet
    requires i * FRAG < |d.payload| <= 0xFFFF - HEADER
  {
    var end := FragmentEnd(|d.payload|, i);
    PacketOf(d, i * 185 + if end < |d.payload| then MORE else 0, d.payload[i * FRAG..end])
  }

  /** The end of the piece the loop of net_send_ipv4_raw cuts at `offset`. */
  function CutEnd(len: nat, offset: nat): (r: nat)
    requires offset < len
    ensures offset < r <= len && r - offset <= FRAG
  {
    if len - offset > FRAG then offset + FRAG - FRAG % 8 else len
  }

  function Cut(d: Datagram, offset: nat): Packet
    requires offset < |d.payload| <= 0xFFFF - HEADER
  {
    var end := CutEnd(|d.payload|, offset);
    PacketOf(d, offset / 8 % 0x2000 + if end < |d.payload| then MORE else 0, d.payload[offset..end])
  }

  function CutsFrom(d: Datagram, offset: nat): seq<Packet>
    requires offset <= |d.payload| <= 0xFFFF - HEADER
    decreases |d.payload| - offset
  {
    if offset == |d.payload| then [] else [Cut(d, offset)] + CutsFrom(d, CutEnd(|d.payload|, offset))
  }

  /** Every fragment, and the packet that needs none, carries the datagram's addresses, protocol,
      identification and TTL on the wire, and its own length. */
  lemma WireFields(d: Datagram, p: Packet)
    requires |d.payload| <= 0xFFFF - HEADER
    requires p == Whole(d) || exists i: nat :: i * FRAG < |d.payload| && p == Fragment(d, i)
    ensures var w := Wire(p);
      && w[8] == d.ttl && w[9] == d.proto && ReadBe16(w, 4) == d.ident && ReadBe16(w, 2) == |w|
      && ReadBe32(w, 12) == d.src && ReadBe32(w, 16) == d.dst && w[20..] == p.payload
  {
    HeaderFields(p.head);
    var w := Wire(p);
    assert forall k :: 0 <= k < 20 ==> w[k] == Header(p.head)[k];
    assert w[20..] == p.payload;
  }

  /** net_send_ipv4_raw with a working driver: the packets handed to it, in order.
      The code's 16-bit arithmetic and frame buffer bound the payload. */
  method SendRaw(d: Datagram) returns (log: seq<Packet>)
    requires |d.payload| <= 0xFFFF - HEADER
    ensures HEADER + |d.payload| <= MTU ==> log == [Whole(d)]
    ensures HEADER + |d.payload| > MTU ==>
      && |log| == FragmentCount(|d.payload|)
      && forall i :: 0 <= i < |log| ==> i * FRAG < |d.payload| && log[i] == Fragment(d, i)
  {
    if HEADER + |d.payload| <= MTU {
      log := [Whole(d)];
    } else {
      log := SendFragments(d);
      CutsAreFragments(d, 0);
    }
  }

  method SendFragments(d: Datagram) returns (log: seq<Packet>)
    requires |d.payload| <= 0xFFFF - HEADER
    ensures log == CutsFrom(d, 0)
  {
    log := [];
    var offset := 0;
    while offset < |d.payload|
      invariant 0 <= offset <= |d.payload|
      invariant log + CutsFrom(d, offset) == CutsFrom(d, 0)
    {
      ghost var rest := CutsFrom(d, CutEnd(|d.payload|, offset));
      assert log + ([Cut(d, offset)] + rest) == log + [Cut(d, offset)] + rest;
      log := log + [Cut(d, offset)];
      offset := CutEnd(|d.payload|, offset);
    }
  }

  lemma FragmentArithmetic(n: nat, i: nat)
    requires i * FRAG < n <= 0xFFFF - HEADER
    ensures CutEnd(n, i * FRAG) == FragmentEnd(n, i)
    ensures i * FRAG / 8 % 0x2000 == i * 185
    ensures FragmentEnd(n, i) == n <==> i + 1 == FragmentCount(n)
    ensures FragmentEnd(n, i) == n || FragmentEnd(n, i) == (i + 1) * FRAG < n
  {
    assert i * FRAG / 8 == i * 185;
  }

  ghost predicate IsFragment(p: Packet, d: Datagram, i: nat)
    requires |d.payload| <= 0xFFFF - HEADER
  {
    i * FRAG < |d.payload| && p == Fragment(d, i)
  }

  /** Packets that are the fragments from the `i`-th on. */
  ghost predicate AreFragments(packets: seq<Packet>, d: Datagram, i: nat)
    requires |d.payload| <= 0xFFFF - HEADER
  {
    forall k :: 0 <= k < |packets| ==> IsFragment(packets[k], d, i + k)
  }

  /** The fragmenter's packets, counted from the `i`-th: fragment after fragment to the last. */
  lemma {:induction false} CutsAreFragments(d: Datagram, i: nat)
    requires i * FRAG < |d.payload| <= 0xFFFF - HEADER
    ensures |CutsFrom(d, i * FRAG)| == FragmentCount(|d.payload|) - i
    ensures AreFragments(CutsFrom(d, i * FRAG), d, i)
  {
    FragmentArithmetic(|d.payload|, i);
    CutsRun(d, i, FragmentCount(|d.payload|));
  }

  /** The same for a given number of fragments in all. */
  lemma {:induction false} CutsRun(d: Datagram, i: nat, count: nat)
    requires i < count && (count - 1) * FRAG < |d.payload| <= count * FRAG && |d.payload| <= 0xFFFF - HEADER
    requires i * FRAG < |d.payload|
    ensures |CutsFrom(d, i * FRAG)| == count - i
    ensures AreFragments(CutsFrom(d, i * FRAG), d, i)
    decreases count - i
  {
    FirstCut(d, i);
    if i + 1 == count {
      Prepend(d, i, []);
    } else {
      CutsRun(d, i + 1, count);
      Prepend(d, i, CutsFrom(d, (i + 1) * FRAG));
    }
  }

  lemma Prepend(d: Datagram, i: nat, rest: seq<Packet>)
    requires i * FRAG < |d.payload| <= 0xFFFF - HEADER && AreFragments(rest, d, i + 1)
    ensures AreFragments([Fragment(d, i)] + rest, d, i)
  {
    var packets := [Fragment(d, i)] + rest;
    forall k | 0 <= k < |packets| ensures IsFragment(packets[k], d, i + k) {
      if k > 0 { assert packets[k] == rest[k - 1] && i + k == i + 1 + (k - 1); }
    }
  }

  /** The first cut is the fragment, and the others are those from the next on. */
  lemma FirstCut(d: Datagram, i: nat)
    requires i * FRAG < |d.payload| <= 0xFFFF - HEADER
    ensures CutsFrom(d, i * FRAG) == [Fragment(d, i)] +
      if (i + 1) * FRAG < |d.payload| then CutsFrom(d, (i + 1) * FRAG) else []
  {
    FragmentArithmetic(|d.payload|, i);
    assert Cut(d, i * FRAG) == Fragment(d, i);
  }
}
