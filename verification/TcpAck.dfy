/** What an acknowledgement means: while sequence numbers do not wrap, a sender
    that stopped waiting has been received in full. */
module TcpAck {
  import opened Bytes
  import opened Tcp
  import opened TcpSystem

  /** The number behind the SYN of `e`, the oldest that an acknowledgement can carry. */
  function Base(e: Endpoint): u32 { Add32(e.iss, 1) }

  /** From there on the stream and the FIN of `e` do not wrap. */
  predicate NoWrap(e: Endpoint) { Base(e) + |e.sent| + (if e.finSent then 1 else 0) < TWO32 }

  /** The peer's stream, and its FIN if it sent one, are in at `e`. */
  predicate AllTaken(e: Endpoint, peer: Endpoint)
  {
    Received(e) == peer.sent && (peer.finSent ==> e.finTaken)
  }

  /** An acknowledgement names a point of the peer's sequence space already taken. */
  predicate Earned(seg: Segment, e: Endpoint, peer: Endpoint)
  {
    seg.flags.ack ==> e.synced && Base(peer) <= seg.ackno <= Base(peer) + Taken(e)
  }

  ghost predicate AckOk(e: Endpoint, peer: Endpoint)
  {
    && (forall seg :: seg in e.net ==> Earned(seg, e, peer))
    && (e.started ==> Earned(e.conn.last, e, peer))
    && (e.started && !e.conn.waitingAck ==> AllTaken(peer, e))
  }

  ghost predicate AckInv(s: System)
  {
    Inv(s) && AckOk(s.a, s.b) && AckOk(s.b, s.a)
  }

  /** An earned acknowledgement at or past snd_nxt means everything was taken. */
  lemma FullAck(e: Endpoint, peer: Endpoint, seg: Segment)
    requires SenderOk(e) && e.started && NoWrap(e)
    requires ReceiverOk(peer, e.iss, e.sent, e.finSent)
    requires Earned(seg, peer, e) && seg.flags.ack && seg.ackno >= e.conn.sndNxt
    ensures AllTaken(peer, e)
  {
    assert e.conn.sndNxt == Base(e) + |e.sent| + if e.finSent then 1 else 0;
    assert |Received(peer)| == |e.sent|;
  }

  lemma RcvNxtNoWrap(e: Endpoint, peer: Endpoint)
    requires e.synced && NoWrap(peer)
    requires ReceiverOk(e, peer.iss, peer.sent, peer.finSent)
    ensures e.conn.rcvNxt == Base(peer) + Taken(e)
  {
  }

  /** Acknowledgements clear the wait only through a test against snd_nxt. */
  lemma HandleClears(c: Conn, seg: Segment, lossy: bool)
    ensures var (c', _, out) := Handle(c, seg, lossy);
      && (!c'.waitingAck ==> !c.waitingAck || (seg.flags.ack && seg.ackno >= c.sndNxt))
      && ((seg.flags.fin && seg.payload != []) || forall o :: o in out ==> o.ackno == c'.rcvNxt)
      && (out != [] ==> !c'.state.SynSent? && !c'.state.SynRcvd? && !c'.state.Closed?)
  {
  }

  predicate Advances(e: Endpoint, e': Endpoint)
  {
    Received(e) <= Received(e') && (e.finTaken ==> e'.finTaken) && (e.synced ==> e'.synced)
  }

  lemma TakenGrowsDeliver(e: Endpoint, seg: Segment, lossy: bool, now: u32)
    requires SenderOk(e) && (e.synced || Received(e) == []) && !(seg.flags.fin && seg.payload != [])
    ensures Advances(e, Step(e, Deliver(seg, lossy, now)))
  {
    if e.started && e.synced {
      HandleReceives(e.conn, seg, lossy);
      ReceivedGrows(e, Step(e, Deliver(seg, lossy, now)), seg);
    }
  }

  lemma ReceivedGrows(e: Endpoint, e': Endpoint, seg: Segment)
    requires Receives(e.conn, e'.conn, seg) && e'.delivered == e.delivered
    ensures Received(e) <= Received(e')
  {
    FlattenSnoc(e.conn.rx, seg.payload);
  }

  /** A step only moves an endpoint's own receive progress forward. */
  lemma TakenGrows(e: Endpoint, peer: Endpoint, ev: Event)
    requires SenderOk(e) && SenderOk(peer) && Enabled(e, peer, ev)
    requires ReceiverOk(e, peer.iss, peer.sent, peer.finSent)
    ensures Advances(e, Step(e, ev))
  {
    match ev
    case Deliver(seg, lossy, now) => TakenGrowsDeliver(e, seg, lossy, now);
    case Read(maxLen) =>
      if e.started && e.conn.used && e.conn.rx != [] { ReadIntactIff(e, maxLen); }
    case _ => ReceiveSideIdle(e, ev);
  }

  lemma DeliverEarned(e: Endpoint, peer: Endpoint, seg: Segment, lossy: bool, now: u32)
    requires AckOk(e, peer) && NoWrap(peer) && SenderOk(e) && SenderOk(peer) && seg in peer.net
    requires ReceiverOk(e, peer.iss, peer.sent, peer.finSent)
    ensures var e' := Step(e, Deliver(seg, lossy, now));
      && (forall o :: o in e'.net ==> Earned(o, e', peer))
      && (e'.started ==> Earned(e'.conn.last, e', peer))
  {
    var e' := Step(e, Deliver(seg, lossy, now));
    TakenGrowsDeliver(e, seg, lossy, now);
    ReceiverDeliver(e, seg, lossy, now, peer.iss, peer.sent, peer.finSent);
    SenderDeliver(e, seg, lossy, now);
    if e'.synced { RcvNxtNoWrap(e', peer); }
    if e.started {
      HandleClears(e.conn, seg, lossy);
      HandleSends(e.conn, seg, lossy);
    }
  }

  lemma AckDeliver(e: Endpoint, peer: Endpoint, seg: Segment, lossy: bool, now: u32)
    requires SenderOk(e) && SenderOk(peer) && seg in peer.net
    requires ReceiverOk(e, peer.iss, peer.sent, peer.finSent)
    requires ReceiverOk(peer, e.iss, e.sent, e.finSent)
    requires AckOk(e, peer) && AckOk(peer, e) && NoWrap(e) && NoWrap(peer)
    ensures AckOk(Step(e, Deliver(seg, lossy, now)), peer)
  {
    DeliverEarned(e, peer, seg, lossy, now);
    if e.started {
      HandleClears(e.conn, seg, lossy);
      if seg.flags.ack && seg.ackno >= e.conn.sndNxt { FullAck(e, peer, seg); }
    }
  }

  lemma TickEarned(e: Endpoint, peer: Endpoint, now: u32, nic: bool)
    requires AckOk(e, peer)
    ensures AckOk(Step(e, Tick(now, nic)), peer)
  {
    if e.started {
      assert forall o :: o in Poll(e.conn, now, nic).2 ==> o == e.conn.last;
    }
  }

  lemma AckOther(e: Endpoint, peer: Endpoint, ev: Event)
    requires SenderOk(e) && SenderOk(peer) && Enabled(e, peer, ev) && !ev.Deliver?
    requires ReceiverOk(e, peer.iss, peer.sent, peer.finSent)
    requires AckOk(e, peer) && NoWrap(peer)
    ensures AckOk(Step(e, ev), peer)
  {
    match ev
    case Tick(now, nic) => TickEarned(e, peer, now, nic);
    case Read(maxLen) => TakenGrows(e, peer, ev);
    case _ => AckSends(e, peer, ev);
  }

  lemma AckSends(e: Endpoint, peer: Endpoint, ev: Event)
    requires SenderOk(e) && SenderOk(peer) && Enabled(e, peer, ev) && (ev.Open? || ev.Write? || ev.Shut?)
    requires ReceiverOk(e, peer.iss, peer.sent, peer.finSent)
    requires AckOk(e, peer) && NoWrap(peer)
    ensures AckOk(Step(e, ev), peer)
  {
    if e.synced { RcvNxtNoWrap(e, peer); }
    ReceiveSideIdle(e, ev);
  }

  /** The peer's claims survive a step of `e`. */
  lemma AckKept(e: Endpoint, peer: Endpoint, ev: Event)
    requires SenderOk(e) && SenderOk(peer) && Enabled(e, peer, ev)
    requires ReceiverOk(e, peer.iss, peer.sent, peer.finSent)
    requires AckOk(peer, e)
    ensures AckOk(peer, Step(e, ev))
  {
    SenderStep(e, peer, ev);
    ReceiverStep(e, peer, ev);
    TakenGrows(e, peer, ev);
  }

  lemma AckStep(e: Endpoint, peer: Endpoint, ev: Event)
    requires SenderOk(e) && SenderOk(peer) && Enabled(e, peer, ev)
    requires ReceiverOk(e, peer.iss, peer.sent, peer.finSent)
    requires ReceiverOk(peer, e.iss, e.sent, e.finSent)
    requires AckOk(e, peer) && AckOk(peer, e) && NoWrap(e) && NoWrap(peer)
    ensures AckOk(Step(e, ev), peer) && AckOk(peer, Step(e, ev))
  {
    AckKept(e, peer, ev);
    if ev.Deliver? {
      AckDeliver(e, peer, ev.seg, ev.lossy, ev.now);
    } else {
      AckOther(e, peer, ev);
    }
  }

  lemma {:induction false} AckRun(s: System, run: seq<(bool, Event)>)
    requires AckInv(s) && Admissible(s, run)
    requires NoWrap(Run(s, run).a) && NoWrap(Run(s, run).b)
    ensures AckInv(Run(s, run))
  {
    if run != [] {
      var before := Run(s, run[..|run| - 1]);
      var (side, ev) := run[|run| - 1];
      InvRun(s, run[..|run| - 1]);
      InvStep(before, side, ev);
      if side { SenderStep(before.a, before.b, ev); } else { SenderStep(before.b, before.a, ev); }
      AckRun(s, run[..|run| - 1]);
      if side { AckStep(before.a, before.b, ev); } else { AckStep(before.b, before.a, ev); }
    }
  }

  /** In every run whose numbers do not wrap, an endpoint that is no longer waiting
      for an acknowledgement has had every byte it accepted, and its FIN, received. */
  lemma AckedMeansReceived(issA: u32, issB: u32, unused: Conn, run: seq<(bool, Event)>)
    requires !unused.used && unused.rx == []
    requires Admissible(System(Fresh(issA, unused), Fresh(issB, unused)), run)
    requires var t := Run(System(Fresh(issA, unused), Fresh(issB, unused)), run); NoWrap(t.a) && NoWrap(t.b)
    ensures var t := Run(System(Fresh(issA, unused), Fresh(issB, unused)), run);
      && (t.a.started && !t.a.conn.waitingAck ==> AllTaken(t.b, t.a))
      && (t.b.started && !t.b.conn.waitingAck ==> AllTaken(t.a, t.b))
  {
    AckRun(System(Fresh(issA, unused), Fresh(issB, unused)), run);
  }

  /** An acknowledgement of `k` numbers from `base` on. */
  function AckOf(c: Conn, base: u32, k: nat): Segment { Segment(c.rcvNxt, Add32(base, k), ACK, []) }

  /** Of `total` numbers sent from `base` on, some are unanswered. */
  predicate Unanswered(c: Conn, base: u32, una: nat, total: u32)
  {
    una < total && c.sndUna == Add32(base, una) && c.sndNxt == Add32(base, total)
  }

  lemma Numbers(base: u32, total: u32)
    ensures forall k: nat :: k <= total ==> Add32(base, k) == if base + k < TWO32 then base + k else base + k - TWO32
  {
    forall k: nat | k <= total
      ensures Add32(base, k) == if base + k < TWO32 then base + k else base + k - TWO32
    {
      Add32Is(base, k);
    }
  }

  /** In an open connection, of all acknowledgements the peer can have sent exactly the one
      for everything ends the wait, if and only if the numbers do not wrap. */
  lemma AckTestExactIff(c: Conn, base: u32, una: nat, total: u32)
    requires c.waitingAck && Unanswered(c, base, una, total)
    ensures (forall k: nat :: k <= total ==> (TakeAck(c, AckOf(c, base, k)).waitingAck <==> k < total))
       <==> base + total < TWO32
  {
    Numbers(base, total);
    if base + total >= TWO32 {
      if base + una >= TWO32 {
        assert !TakeAck(c, AckOf(c, base, 0)).waitingAck;
      } else {
        assert TakeAck(c, AckOf(c, base, total)).waitingAck;
      }
    }
  }

  /** While closing, where the number is not compared with snd_una, exactly the
      acknowledgement of everything frees the slot, under the same condition. */
  lemma ClosingTestExactIff(c: Conn, base: u32, una: nat, total: u32)
    requires c.used && Unanswered(c, base, una, total)
    ensures (forall k: nat :: k <= total ==> (HandleClosing(c, AckOf(c, base, k)).0.used <==> k < total))
       <==> base + total < TWO32
  {
    Numbers(base, total);
    if base + total >= TWO32 {
      assert !HandleClosing(c, AckOf(c, base, 0)).0.used;
    }
  }

  /** With three bytes outstanding from 2^32 - 2 on, the acknowledgement of one ends the wait. */
  lemma WrappedAckEndsWait(c: Conn)
    requires c.waitingAck && c.sndUna == TWO32 - 2 && c.sndNxt == 1
    ensures !TakeAck(c, AckOf(c, TWO32 - 2, 1)).waitingAck
  {
  }
}
