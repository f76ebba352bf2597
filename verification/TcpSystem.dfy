/** Two endpoints running kernel/net.c's TCP over a channel that may drop,
    duplicate and reorder: everything one side ever sent may reach the other at
    any later time, any number of times, or never. */
module TcpSystem {
  import opened Bytes
  import opened Tcp

  /** One end of the connection (a single incarnation) with its history. */
  datatype Endpoint = Endpoint(
    iss: u32,
    conn: Conn,
    started: bool,          // the slot was filled in
    synced: bool,           // rcvNxt was taken from the peer's SYN
    sent: seq<byte>,        // bytes accepted by net_tcp_send
    finSent: bool,
    delivered: seq<byte>,   // bytes handed out by net_tcp_recv
    finTaken: bool,
    net: set<Segment>)      // every segment handed to the driver

  datatype Event =
    | Open(now: u32)
    | Deliver(seg: Segment, lossy: bool, now: u32)
    | Write(payload: seq<byte>, now: u32, nic: bool)
    | Read(maxLen: nat)
    | Shut(now: u32, nic: bool)
    | Tick(now: u32, nic: bool)

  function Elems(s: seq<Segment>): set<Segment> { set x | x in s }

  function Flatten(q: seq<seq<byte>>): seq<byte>
  {
    if q == [] then [] else Flatten(q[..|q| - 1]) + q[|q| - 1]
  }

  /** Bytes handed out plus those still queued. */
  function Received(e: Endpoint): seq<byte> { e.delivered + Flatten(e.conn.rx) }

  /** How far the peer's sequence space has been taken, after its SYN. */
  function Taken(e: Endpoint): nat { |Received(e)| + if e.finTaken then 1 else 0 }

  function Fresh(iss: u32, c: Conn): Endpoint
  {
    Endpoint(iss, c, false, false, [], false, [], false, {})
  }

  /** One step of an endpoint. An unopened endpoint answers a bare SYN as a listener. */
  function Step(e: Endpoint, ev: Event): Endpoint
  {
    match ev
    case Open(now) =>
      if e.started then e
      else
        var c := Connect(e.iss, now);
        e.(conn := c, started := true, net := e.net + {c.last})
    case Deliver(seg, lossy, now) =>
      if e.started then
        var (c, _, out) := Handle(e.conn, seg, lossy);
        e.(conn := c, net := e.net + Elems(out),
           synced := e.synced || (e.conn.state.SynSent? && c.state.Established?),
           finTaken := e.finTaken || (e.synced && seg.flags.fin && c.rcvNxt != e.conn.rcvNxt))
      else if seg.flags.syn && !seg.flags.ack then
        var c := AcceptSyn(e.iss, seg, now);
        e.(conn := c, started := true, synced := true, net := e.net + {c.last})
      else e
    case Write(payload, now, nic) =>
      if !e.started then e
      else
        var (c, n, out) := AppSend(e.conn, payload, now, nic);
        e.(conn := c, sent := e.sent + payload[..n], net := e.net + Elems(out))
    case Read(maxLen) =>
      if !e.started then e
      else
        var (c, data) := Recv(e.conn, maxLen);
        e.(conn := c, delivered := e.delivered + data)
    case Shut(now, nic) =>
      if !e.started then e
      else
        var (c, _, out) := Close(e.conn, now, nic);
        e.(conn := c, finSent := e.finSent || out != [], net := e.net + Elems(out))
    case Tick(now, nic) =>
      if !e.started then e
      else
        var (c, _, out) := Poll(e.conn, now, nic);
        e.(conn := c, net := e.net + Elems(out))
  }

  /** What the channel and the applications may do next at endpoint `e`. Stream and
      FIN have together less than 2^32 numbers, and readers pass buffers that hold a
      whole segment. */
  predicate Enabled(e: Endpoint, peer: Endpoint, ev: Event)
  {
    match ev
    case Deliver(seg, _, _) => seg in peer.net
    case Write(payload, _, _) => |e.sent| + |payload| < TWO32
    case Shut(_, _) => |e.sent| + 1 < TWO32
    case Read(maxLen) => maxLen >= MAX_PAYLOAD
    case _ => true
  }

  datatype System = System(a: Endpoint, b: Endpoint)

  /** `true` selects endpoint a. */
  function Next(s: System, side: bool, ev: Event): System
  {
    if side then s.(a := Step(s.a, ev)) else s.(b := Step(s.b, ev))
  }

  function Run(s: System, run: seq<(bool, Event)>): System
  {
    if run == [] then s
    else Next(Run(s, run[..|run| - 1]), run[|run| - 1].0, run[|run| - 1].1)
  }

  /** Every event of the run was possible when it happened. */
  predicate Admissible(s: System, run: seq<(bool, Event)>)
  {
    run == [] ||
    var before := Run(s, run[..|run| - 1]);
    var (side, ev) := run[|run| - 1];
    && Admissible(s, run[..|run| - 1])
    && if side then Enabled(before.a, before.b, ev) else Enabled(before.b, before.a, ev)
  }

  // ---- Invariant -------------------------------------------------------

  /** A segment of a sender with stream `sent`: a SYN at the initial number, the
      FIN right after the stream, or a piece of the stream at its own offset. */
  predicate Genuine(seg: Segment, iss: u32, sent: seq<byte>, finSent: bool)
  {
    && !seg.flags.rst
    && (seg.flags.syn ==> seg.seqno == iss && seg.payload == [] && !seg.flags.fin)
    && (seg.flags.fin ==> finSent && seg.payload == [] && seg.seqno == Add32(iss, 1 + |sent|))
    && (seg.payload != [] ==> PieceOf(seg, iss, sent, Sub32(seg.seqno, Add32(iss, 1))))
  }

  predicate PieceOf(seg: Segment, iss: u32, sent: seq<byte>, off: nat)
  {
    && |seg.payload| <= MAX_PAYLOAD
    && off + |seg.payload| <= |sent| && sent[off..off + |seg.payload|] == seg.payload
    && seg.seqno == Add32(iss, 1 + off)
  }

  predicate SenderConnOk(c: Conn, iss: u32, sent: seq<byte>, finSent: bool, synced: bool)
  {
    && Genuine(c.last, iss, sent, finSent)
    && c.sndNxt == Add32(iss, 1 + |sent| + if finSent then 1 else 0)
    && (c.state.SynSent? || c.state.SynRcvd? ==> sent == [])
    && (c.state.Established? || c.state.CloseWait? || c.state.Closing? || c.state.SynRcvd? ==> synced)
    && (c.state.SynSent? ==> !synced)
    && (finSent ==> c.state.Closing? || c.state.Closed?)
  }

  /** Stream and FIN together have less than 2^32 numbers. */
  predicate Room(sent: seq<byte>, fin: bool) { |sent| + (if fin then 1 else 0) < TWO32 }

  ghost predicate SenderOk(e: Endpoint)
  {
    && Room(e.sent, e.finSent)
    && (forall seg :: seg in e.net ==> Genuine(seg, e.iss, e.sent, e.finSent))
    && (!e.started ==> e.net == {} && e.sent == [] && !e.finSent && !e.synced)
    && (e.started ==> SenderConnOk(e.conn, e.iss, e.sent, e.finSent, e.synced))
  }

  predicate ReceiverOk(e: Endpoint, peerIss: u32, peerSent: seq<byte>, peerFin: bool)
  {
    && Received(e) <= peerSent
    && (e.finTaken ==> peerFin && Received(e) == peerSent)
    && (!e.synced ==> Received(e) == [] && !e.finTaken)
    && (e.synced ==> e.conn.rcvNxt == Add32(peerIss, 1 + Taken(e)))
    && (forall i :: 0 <= i < |e.conn.rx| ==> |e.conn.rx[i]| <= MAX_PAYLOAD)
  }

  ghost predicate Inv(s: System)
  {
    && SenderOk(s.a) && SenderOk(s.b)
    && ReceiverOk(s.a, s.b.iss, s.b.sent, s.b.finSent)
    && ReceiverOk(s.b, s.a.iss, s.a.sent, s.a.finSent)
  }

  // ---- Sequence numbers ------------------------------------------------

  lemma Add32Is(x: u32, n: nat)
    requires n <= TWO32
    ensures Add32(x, n) == if x + n < TWO32 then x + n else x + n - TWO32
  {
  }

  lemma Sub32Is(x: u32, y: u32)
    ensures Sub32(x, y) == if x >= y then x - y else x - y + TWO32
  {
  }

  lemma OffsetsDiffer(iss: u32, x: nat, y: nat)
    requires x < TWO32 && y < TWO32
    ensures Add32(iss, 1 + x) == Add32(iss, 1 + y) ==> x == y
    ensures Sub32(Add32(iss, 1 + x), Add32(iss, 1)) == x
  {
    Add32Is(iss, 1);
    Add32Is(iss, 1 + x);
    Add32Is(iss, 1 + y);
    Sub32Is(Add32(iss, 1 + x), Add32(iss, 1));
  }

  lemma AddAssoc(iss: u32, x: nat, y: nat)
    ensures Add32(Add32(iss, x), y) == Add32(iss, x + y)
  {
  }

  // ---- Sender ----------------------------------------------------------

  lemma GenuineGrows(seg: Segment, iss: u32, sent: seq<byte>, more: seq<byte>)
    requires Genuine(seg, iss, sent, false)
    ensures Genuine(seg, iss, sent + more, false)
  {
    if seg.payload != [] {
      var off := Sub32(seg.seqno, Add32(iss, 1));
      assert (sent + more)[off..off + |seg.payload|] == sent[off..off + |seg.payload|];
    }
  }

  /** The next piece of the stream, sent at its end, is genuine. */
  lemma NewPiece(iss: u32, sent: seq<byte>, piece: seq<byte>, seg: Segment)
    requires seg.seqno == Add32(iss, 1 + |sent|) && seg.payload == piece && 0 < |piece| <= MAX_PAYLOAD
    requires |sent| + |piece| < TWO32 && !seg.flags.rst && !seg.flags.syn && !seg.flags.fin
    ensures Genuine(seg, iss, sent + piece, false)
  {
    OffsetsDiffer(iss, |sent|, 0);
    assert (sent + piece)[|sent|..|sent| + |piece|] == piece;
  }

  lemma SenderWrite(e: Endpoint, payload: seq<byte>, now: u32, nic: bool)
    requires SenderOk(e) && |e.sent| + |payload| < TWO32
    ensures SenderOk(Step(e, Write(payload, now, nic)))
  {
    var e' := Step(e, Write(payload, now, nic));
    if e.started {
      var (c, n, out) := AppSend(e.conn, payload, now, nic);
      if out != [] {
        var seg := out[0];
        assert e'.sent == e.sent + payload[..n];
        forall g | g in e.net + {e.conn.last} ensures Genuine(g, e.iss, e'.sent, false) {
          GenuineGrows(g, e.iss, e.sent, payload[..n]);
        }
        NewPiece(e.iss, e.sent, payload[..n], seg);
        AddAssoc(e.iss, 1 + |e.sent|, n);
      } else {
        assert e'.sent == e.sent;
      }
    }
  }

  lemma SenderShut(e: Endpoint, now: u32, nic: bool)
    requires SenderOk(e) && |e.sent| + 1 < TWO32
    ensures SenderOk(Step(e, Shut(now, nic)))
  {
    if e.started {
      var (c, _, out) := Close(e.conn, now, nic);
      if out != [] {
        assert !e.finSent;
        AddAssoc(e.iss, 1 + |e.sent|, 1);
        forall seg | seg in e.net ensures Genuine(seg, e.iss, e.sent, true) {
          assert Genuine(seg, e.iss, e.sent, false);
        }
      }
    }
  }

  /** Handling a segment sends only bare acknowledgements and leaves the send side alone. */
  lemma HandleSends(c: Conn, seg: Segment, lossy: bool)
    ensures var (c', _, out) := Handle(c, seg, lossy);
      && c'.last == c.last && c'.sndNxt == c.sndNxt
      && (forall o :: o in out ==> o.flags == ACK && o.payload == [])
      && (c'.state == c.state || c'.state.Closed?
          || (c'.state.Established? && (c.state.SynSent? || c.state.SynRcvd?))
          || (c'.state.CloseWait? && c.state.Established?))
  {
    if c.state.Established? || c.state.CloseWait? {
      OpenSends(TakeAck(c, seg), seg, lossy);
    } else if c.state.Closing? {
      ClosingSends(c, seg);
    }
  }

  lemma OpenSends(c: Conn, seg: Segment, lossy: bool)
    ensures var (c', _, out) := HandleOpen(c, seg, lossy);
      && c'.last == c.last && c'.sndNxt == c.sndNxt && (c'.state == c.state || c'.state.CloseWait?)
      && (forall o :: o in out ==> o.flags == ACK && o.payload == [])
  {
  }

  lemma ClosingSends(c: Conn, seg: Segment)
    ensures var (c', _, out) := HandleClosing(c, seg);
      && c'.last == c.last && c'.sndNxt == c.sndNxt && (c'.state == c.state || c'.state.Closed?)
      && (forall o :: o in out ==> o.flags == ACK && o.payload == [])
  {
  }

  lemma SenderDeliver(e: Endpoint, seg: Segment, lossy: bool, now: u32)
    requires SenderOk(e)
    ensures SenderOk(Step(e, Deliver(seg, lossy, now)))
  {
    if e.started {
      HandleSends(e.conn, seg, lossy);
    }
  }

  lemma SenderTick(e: Endpoint, now: u32, nic: bool)
    requires SenderOk(e)
    ensures SenderOk(Step(e, Tick(now, nic)))
  {
    if e.started {
      var (c, _, out) := Poll(e.conn, now, nic);
      assert forall o :: o in out ==> o == e.conn.last;
    }
  }

  /** An endpoint only ever sends genuine segments, and a stream only grows until its FIN. */
  lemma SenderStep(e: Endpoint, peer: Endpoint, ev: Event)
    requires SenderOk(e) && Enabled(e, peer, ev)
    ensures var e' := Step(e, ev);
      && SenderOk(e') && e'.iss == e.iss && e.sent <= e'.sent
      && (e.finSent ==> e'.finSent && e'.sent == e.sent)
  {
    match ev
    case Write(payload, now, nic) => SenderWrite(e, payload, now, nic);
    case Shut(now, nic) => SenderShut(e, now, nic);
    case Deliver(seg, lossy, now) => SenderDeliver(e, seg, lossy, now);
    case Tick(now, nic) => SenderTick(e, now, nic);
    case _ =>
  }

  // ---- Receiver --------------------------------------------------------

  lemma FlattenSnoc(q: seq<seq<byte>>, x: seq<byte>)
    ensures Flatten(q + [x]) == Flatten(q) + x
  {
    assert (q + [x])[..|q|] == q;
  }

  lemma {:induction false} FlattenHead(q: seq<seq<byte>>)
    requires q != []
    ensures Flatten(q) == q[0] + Flatten(q[1..])
  {
    if |q| == 1 {
      assert q[..0] == [] && q[1..] == [];
    } else {
      var front, last := q[..|q| - 1], q[|q| - 1];
      FlattenHead(front);
      assert q[1..] == front[1..] + [last];
      FlattenSnoc(front[1..], last);
      assert (q[0] + Flatten(front[1..])) + last == q[0] + (Flatten(front[1..]) + last);
    }
  }

  /** Taking a genuine data segment appends the peer's next bytes, or nothing. */
  lemma ReceiverData(e: Endpoint, seg: Segment, iss: u32, sent: seq<byte>, fin: bool)
    requires e.synced && ReceiverOk(e, iss, sent, fin) && Room(sent, fin)
    requires Genuine(seg, iss, sent, fin)
    ensures ReceiverOk(e.(conn := TakeData(e.conn, seg)), iss, sent, fin)
  {
    var c := TakeData(e.conn, seg);
    if c != e.conn {
      var off := Sub32(seg.seqno, Add32(iss, 1));
      OffsetsDiffer(iss, off, Taken(e));
      assert off == Taken(e) == |Received(e)|;
      DataAppended(e, seg.payload, c);
      NextPiece(sent, Received(e), seg.payload);
      AddAssoc(iss, 1 + off, |seg.payload|);
    }
  }

  lemma NextPiece(sent: seq<byte>, got: seq<byte>, piece: seq<byte>)
    requires got <= sent && |got| + |piece| <= |sent| && sent[|got|..|got| + |piece|] == piece
    ensures got + piece <= sent
  {
  }

  lemma DataAppended(e: Endpoint, payload: seq<byte>, c: Conn)
    requires c.rx == e.conn.rx + [payload]
    ensures Received(e.(conn := c)) == Received(e) + payload
  {
    FlattenSnoc(e.conn.rx, payload);
  }

  /** A genuine FIN at the expected number means the whole stream is in. */
  lemma ReceiverFin(e: Endpoint, seg: Segment, iss: u32, sent: seq<byte>, fin: bool)
    requires e.synced && ReceiverOk(e, iss, sent, fin) && Room(sent, fin)
    requires Genuine(seg, iss, sent, fin) && seg.flags.fin
    ensures var c := TakeFin(e.conn, seg);
      ReceiverOk(e.(conn := c, finTaken := e.finTaken || c.rcvNxt != e.conn.rcvNxt), iss, sent, fin)
  {
    var c := TakeFin(e.conn, seg);
    if seg.seqno == e.conn.rcvNxt {
      OffsetsDiffer(iss, |sent|, Taken(e));
      assert !e.finTaken && Received(e) == sent;
      AddAssoc(iss, 1 + |sent|, 1);
    }
  }

  /** The receive side of `c'` is that of `c` after at most one of the two receive steps. */
  predicate Receives(c: Conn, c': Conn, seg: Segment)
  {
    || (c'.rx == c.rx && c'.rcvNxt == c.rcvNxt)
    || (c'.rx == TakeData(c, seg).rx && c'.rcvNxt == TakeData(c, seg).rcvNxt && !seg.flags.fin)
    || (c'.rx == c.rx && c'.rcvNxt == TakeFin(c, seg).rcvNxt && seg.flags.fin)
  }

  lemma ReceiverTakes(e: Endpoint, e': Endpoint, seg: Segment, iss: u32, sent: seq<byte>, fin: bool)
    requires e.synced && ReceiverOk(e, iss, sent, fin) && Room(sent, fin)
    requires Genuine(seg, iss, sent, fin) && Receives(e.conn, e'.conn, seg)
    requires e'.synced && e'.delivered == e.delivered
    requires e'.finTaken == (e.finTaken || (seg.flags.fin && e'.conn.rcvNxt != e.conn.rcvNxt))
    ensures ReceiverOk(e', iss, sent, fin)
  {
    if e'.conn.rx == e.conn.rx && e'.conn.rcvNxt == e.conn.rcvNxt {
      SameReceiver(e, e', iss, sent, fin);
    } else if seg.flags.fin {
      ReceiverFin(e, seg, iss, sent, fin);
      var c := TakeFin(e.conn, seg);
      SameReceiver(e.(conn := c, finTaken := e.finTaken || c.rcvNxt != e.conn.rcvNxt), e', iss, sent, fin);
    } else {
      ReceiverData(e, seg, iss, sent, fin);
      SameReceiver(e.(conn := TakeData(e.conn, seg)), e', iss, sent, fin);
    }
  }

  /** The receive invariant is about the receive side only. */
  lemma SameReceiver(e: Endpoint, e': Endpoint, iss: u32, sent: seq<byte>, fin: bool)
    requires ReceiverOk(e, iss, sent, fin) && e'.delivered == e.delivered && e'.conn.rx == e.conn.rx
    requires e'.conn.rcvNxt == e.conn.rcvNxt && e'.finTaken == e.finTaken && e'.synced == e.synced
    ensures ReceiverOk(e', iss, sent, fin)
  {
    assert Received(e') == Received(e);
  }

  lemma ReceiverDeliver(e: Endpoint, seg: Segment, lossy: bool, now: u32, iss: u32, sent: seq<byte>, fin: bool)
    requires SenderOk(e) && ReceiverOk(e, iss, sent, fin) && Room(sent, fin)
    requires Genuine(seg, iss, sent, fin)
    ensures ReceiverOk(Step(e, Deliver(seg, lossy, now)), iss, sent, fin)
  {
    if e.started && e.synced {
      HandleReceives(e.conn, seg, lossy);
      ReceiverTakes(e, Step(e, Deliver(seg, lossy, now)), seg, iss, sent, fin);
    } else if e.started {
      ReceiverSyncs(e, seg, lossy, now, iss, sent, fin);
    }
  }

  /** Before the handshake is over nothing but the peer's SYN is taken. */
  lemma ReceiverSyncs(e: Endpoint, seg: Segment, lossy: bool, now: u32, iss: u32, sent: seq<byte>, fin: bool)
    requires e.started && !e.synced && SenderOk(e) && ReceiverOk(e, iss, sent, fin) && Genuine(seg, iss, sent, fin)
    ensures ReceiverOk(Step(e, Deliver(seg, lossy, now)), iss, sent, fin)
  {
    assert e.conn.state.SynSent? || e.conn.state.Closed? || e.conn.state.Listen?;
  }

  /** The receive side changes only as one of the two receive steps, or at the handshake. */
  lemma HandleReceives(c: Conn, seg: Segment, lossy: bool)
    requires !(seg.flags.fin && seg.payload != [])
    ensures var c' := Handle(c, seg, lossy).0;
      || Receives(c, c', seg)
      || (c'.rx == c.rx && c.state.SynSent? && c'.state.Established? && seg.flags.syn
          && c'.rcvNxt == Add32(seg.seqno, 1))
  {
    if c.state.Established? || c.state.CloseWait? {
      OpenReceives(c, seg, lossy);
    }
  }

  lemma OpenReceives(c: Conn, seg: Segment, lossy: bool)
    requires !(seg.flags.fin && seg.payload != [])
    ensures Receives(c, HandleOpen(TakeAck(c, seg), seg, lossy).0, seg)
  {
  }

  lemma ReceiverRead(e: Endpoint, maxLen: nat, iss: u32, sent: seq<byte>, fin: bool)
    requires ReceiverOk(e, iss, sent, fin) && maxLen >= MAX_PAYLOAD
    ensures ReceiverOk(Step(e, Read(maxLen)), iss, sent, fin)
  {
    var e' := Step(e, Read(maxLen));
    if e.conn.rx != [] {
      FlattenHead(e.conn.rx);
      if e' != e {
        assert Received(e') == Received(e);
      }
    }
  }

  lemma ReceiverStep(e: Endpoint, peer: Endpoint, ev: Event)
    requires SenderOk(e) && SenderOk(peer) && Enabled(e, peer, ev)
    requires ReceiverOk(e, peer.iss, peer.sent, peer.finSent)
    ensures ReceiverOk(Step(e, ev), peer.iss, peer.sent, peer.finSent)
  {
    match ev
    case Deliver(seg, lossy, now) =>
      ReceiverDeliver(e, seg, lossy, now, peer.iss, peer.sent, peer.finSent);
    case Read(maxLen) => ReceiverRead(e, maxLen, peer.iss, peer.sent, peer.finSent);
    case _ => ReceiveSideIdle(e, ev);
  }

  lemma ReceiveSideIdle(e: Endpoint, ev: Event)
    requires SenderOk(e) && !ev.Deliver? && !ev.Read?
    ensures var e' := Step(e, ev);
      && e'.delivered == e.delivered && e'.synced == e.synced && e'.finTaken == e.finTaken
      && (e.started ==> e'.conn.rx == e.conn.rx && e'.conn.rcvNxt == e.conn.rcvNxt)
      && (!e.started ==> e' == e || e'.conn.rx == [])
  {
  }

  /** A read keeps the stream intact exactly when the buffer holds the whole head
      segment: a shorter buffer drops the segment's tail for good. */
  lemma ReadIntactIff(e: Endpoint, maxLen: nat)
    requires e.started && e.conn.used && e.conn.rx != [] && maxLen > 0
    ensures Received(Step(e, Read(maxLen))) == Received(e) <==> |e.conn.rx[0]| <= maxLen
  {
    FlattenHead(e.conn.rx);
    var e' := Step(e, Read(maxLen));
    if |e.conn.rx[0]| <= maxLen {
      assert Received(e') == Received(e);
    } else {
      assert |Received(e')| < |Received(e)|;
    }
  }

  /** A one-byte buffer for a segment of two bytes loses the second. */
  lemma ShortReadLoses(e: Endpoint)
    requires e.started && e.conn.used && e.conn.rx == [[1, 2]] && e.delivered == []
    ensures Received(e) == [1, 2] && Received(Step(e, Read(1))) == [1]
  {
    FlattenHead(e.conn.rx);
    assert e.conn.rx[1..] == [];
  }

  lemma InvStep(s: System, side: bool, ev: Event)
    requires Inv(s)
    requires if side then Enabled(s.a, s.b, ev) else Enabled(s.b, s.a, ev)
    ensures Inv(Next(s, side, ev))
  {
    if side {
      SenderStep(s.a, s.b, ev);
      ReceiverStep(s.a, s.b, ev);
    } else {
      SenderStep(s.b, s.a, ev);
      ReceiverStep(s.b, s.a, ev);
    }
  }

  lemma {:induction false} InvRun(s: System, run: seq<(bool, Event)>)
    requires Inv(s) && Admissible(s, run)
    ensures Inv(Run(s, run))
  {
    if run != [] {
      InvRun(s, run[..|run| - 1]);
      InvStep(Run(s, run[..|run| - 1]), run[|run| - 1].0, run[|run| - 1].1);
    }
  }

  /** What a side received is a prefix of what its peer's application sent, in
      order and without gaps or repeats; the next expected sequence number counts
      exactly those bytes and a consumed FIN, and a FIN is consumed only behind
      the whole stream. */
  predicate PrefixSafe(e: Endpoint, peer: Endpoint)
  {
    && Received(e) <= peer.sent
    && (e.synced ==> e.conn.rcvNxt == Add32(peer.iss, 1 + Taken(e)))
    && (e.finTaken ==> peer.finSent && Received(e) == peer.sent)
  }

  /** Prefix safety holds in both directions after every run from two unopened ends. */
  lemma PrefixSafety(issA: u32, issB: u32, unused: Conn, run: seq<(bool, Event)>)
    requires !unused.used && unused.rx == []
    requires Admissible(System(Fresh(issA, unused), Fresh(issB, unused)), run)
    ensures var t := Run(System(Fresh(issA, unused), Fresh(issB, unused)), run);
      PrefixSafe(t.a, t.b) && PrefixSafe(t.b, t.a)
  {
    InvRun(System(Fresh(issA, unused), Fresh(issB, unused)), run);
  }
}
