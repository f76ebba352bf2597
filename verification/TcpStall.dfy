/** Only the last segment is kept for retransmission: bytes sent before it are never
    sent again, and if no copy of them arrives the stream stops there for good. */
module TcpStall {
  import opened Bytes
  import opened Tcp
  import opened TcpSystem

  /** The segment carries byte `x` of its sender's stream. */
  predicate Covers(seg: Segment, iss: u32, x: nat)
  {
    seg.payload != [] && Sub32(seg.seqno, Add32(iss, 1)) <= x < Sub32(seg.seqno, Add32(iss, 1)) + |seg.payload|
  }

  /** What a step hands to the driver, retransmissions included. */
  function Emitted(e: Endpoint, ev: Event): seq<Segment>
  {
    match ev
    case Open(now) => if e.started then [] else [Connect(e.iss, now).last]
    case Deliver(seg, lossy, now) =>
      if e.started then Handle(e.conn, seg, lossy).2
      else if seg.flags.syn && !seg.flags.ack then [AcceptSyn(e.iss, seg, now).last] else []
    case Write(payload, now, nic) => if e.started then AppSend(e.conn, payload, now, nic).2 else []
    case Read(_) => []
    case Shut(now, nic) => if e.started then Close(e.conn, now, nic).2 else []
    case Tick(now, nic) => if e.started then Poll(e.conn, now, nic).2 else []
  }

  lemma EmittedReachNet(e: Endpoint, ev: Event)
    ensures Step(e, ev).net == e.net + Elems(Emitted(e, ev))
  {
  }

  /** The segment kept for retransmission carries byte `x` and will still be repeated. */
  predicate Kept(e: Endpoint, x: nat)
  {
    && e.started && e.conn.used && e.conn.waitingAck && e.conn.retries < MaxRetries(e.conn.state)
    && Covers(e.conn.last, e.iss, x)
  }

  /** Byte `x` was accepted, and will not be repeated. */
  predicate Abandoned(e: Endpoint, x: nat) { e.started && x < |e.sent| && !Kept(e, x) }

  lemma NewPieceStarts(iss: u32, n: nat)
    requires n < TWO32
    ensures Sub32(Add32(iss, 1 + n), Add32(iss, 1)) == n
  {
    OffsetsDiffer(iss, n, 0);
  }

  /** A second segment, which net_tcp_send accepts while the first is unanswered, abandons
      everything before it. */
  lemma SecondSendAbandons(e: Endpoint, payload: seq<byte>, now: u32, x: nat)
    requires SenderOk(e) && e.started && e.conn.used && e.conn.state.Established?
    requires payload != [] && x < |e.sent| && |e.sent| + |payload| < TWO32
    ensures Abandoned(Step(e, Write(payload, now, true)), x)
  {
    NewPieceStarts(e.iss, |e.sent|);
  }

  /** So does closing: the FIN is kept instead, or the slot is given up. */
  lemma CloseAbandons(e: Endpoint, now: u32, nic: bool, x: nat)
    requires SenderOk(e) && e.started && e.conn.used && x < |e.sent|
    ensures Abandoned(Step(e, Shut(now, nic)), x)
  {
  }

  // ---- One step ---------------------------------------------------------

  /** An abandoned byte stays abandoned and is in nothing the step sends. */
  lemma NeverAgain(e: Endpoint, peer: Endpoint, ev: Event, x: nat)
    requires SenderOk(e) && Enabled(e, peer, ev) && Abandoned(e, x)
    ensures Abandoned(Step(e, ev), x) && forall o :: o in Emitted(e, ev) ==> !Covers(o, e.iss, x)
  {
    match ev
    case Deliver(seg, lossy, _) => HandleKeepsLast(e.conn, seg, lossy);
    case Write(payload, now, nic) => NewPieceStarts(e.iss, |e.sent|);
    case Tick(now, nic) => PollSendsLast(e.conn, now, nic);
    case _ =>
  }

  /** Handling a segment never starts a wait or renews the retries. */
  lemma HandleKeepsLast(c: Conn, seg: Segment, lossy: bool)
    ensures var (c', _, out) := Handle(c, seg, lossy);
      && c'.last == c.last && c'.retries == c.retries && (c'.waitingAck ==> c.waitingAck) && (c'.used ==> c.used)
      && (c'.used ==> MaxRetries(c'.state) <= MaxRetries(c.state)) && (forall o :: o in out ==> o.payload == [])
  {
    HandleSends(c, seg, lossy);
  }

  lemma PollSendsLast(c: Conn, now: u32, nic: bool)
    ensures var (c', _, out) := Poll(c, now, nic);
      && c'.last == c.last && c'.retries >= c.retries && c'.waitingAck == c.waitingAck
      && (c'.used ==> c' == c || c.used)
      && (c'.used ==> c'.state == c.state)
      && (out != [] ==> out == [c.last] && c.used && c.waitingAck && c.retries < MaxRetries(c.state))
  {
  }

  /** The byte is kept exactly when some poll sends it again. */
  lemma PolledAgainIff(e: Endpoint, x: nat)
    requires SenderOk(e) && e.started
    ensures (exists now: u32 :: PollCarries(e, now, x)) <==> Kept(e, x)
  {
    if Kept(e, x) {
      var now := Add32(e.conn.lastTick, Timeout(e.conn.retries));
      TimeoutSmall(e.conn.retries);
      Add32Is(e.conn.lastTick, Timeout(e.conn.retries));
      Sub32Is(now, e.conn.lastTick);
      assert PollCarries(e, now, x);
    }
    if now: u32 :| PollCarries(e, now, x) { PollSendsLast(e.conn, now, true); }
  }

  predicate PollCarries(e: Endpoint, now: u32, x: nat)
  {
    exists o :: o in Emitted(e, Tick(now, true)) && Covers(o, e.iss, x)
  }

  lemma TimeoutSmall(r: nat)
    ensures 0 < Timeout(r) < TWO32
  {
  }

  // ---- Runs -------------------------------------------------------------

  function Sender(s: System, side: bool): Endpoint { if side then s.a else s.b }

  /** Event `k` of the run makes the sender send byte `x`. */
  predicate SendsAt(s: System, side: bool, run: seq<(bool, Event)>, x: nat, k: nat)
  {
    && k < |run| && run[k].0 == side
    && exists o :: o in Emitted(Sender(Run(s, run[..k]), side), run[k].1) && Covers(o, Sender(s, side).iss, x)
  }

  ghost predicate SendsAgain(s: System, side: bool, run: seq<(bool, Event)>, x: nat)
  {
    Admissible(s, run) && exists k: nat :: SendsAt(s, side, run, x, k)
  }

  /** Through every run an abandoned byte stays abandoned, and what carries it was sent before. */
  lemma {:induction false} StaysAbandoned(s: System, side: bool, run: seq<(bool, Event)>, x: nat)
    requires Inv(s) && Admissible(s, run) && Abandoned(Sender(s, side), x)
    ensures var e, e' := Sender(s, side), Sender(Run(s, run), side);
      && Abandoned(e', x) && e'.iss == e.iss
      && (forall seg :: seg in e'.net && Covers(seg, e.iss, x) ==> seg in e.net)
  {
    if run != [] {
      var front := run[..|run| - 1];
      var (who, ev) := run[|run| - 1];
      var t := Run(s, front);
      StaysAbandoned(s, side, front, x);
      InvRun(s, front);
      if who == side { OneStep(Sender(t, side), Sender(t, !side), ev, x); }
    }
  }

  lemma OneStep(e: Endpoint, peer: Endpoint, ev: Event, x: nat)
    requires SenderOk(e) && Enabled(e, peer, ev) && Abandoned(e, x)
    ensures var e' := Step(e, ev);
      && Abandoned(e', x) && e'.iss == e.iss
      && (forall seg :: seg in e'.net && Covers(seg, e.iss, x) ==> seg in e.net)
  {
    NeverAgain(e, peer, ev, x);
    SenderStep(e, peer, ev);
    EmittedReachNet(e, ev);
  }

  lemma {:induction false} Prefix(s: System, run: seq<(bool, Event)>, k: nat)
    requires Admissible(s, run) && k < |run|
    ensures Admissible(s, run[..k])
    ensures var t := Run(s, run[..k]); var (who, ev) := run[k];
      if who then Enabled(t.a, t.b, ev) else Enabled(t.b, t.a, ev)
  {
    if k < |run| - 1 {
      var front := run[..|run| - 1];
      assert front[..k] == run[..k] && front[k] == run[k];
      Prefix(s, front, k);
    }
  }

  /** No event of any continuation sends an abandoned byte again. */
  lemma NeverSentAgain(s: System, side: bool, run: seq<(bool, Event)>, x: nat, k: nat)
    requires Inv(s) && Admissible(s, run) && Abandoned(Sender(s, side), x)
    ensures !SendsAt(s, side, run, x, k)
  {
    if SendsAt(s, side, run, x, k) {
      Prefix(s, run, k);
      StaysAbandoned(s, side, run[..k], x);
      InvRun(s, run[..k]);
      var t := Run(s, run[..k]);
      NeverAgain(Sender(t, side), Sender(t, !side), run[k].1, x);
    }
  }

  /** Of an accepted byte, some continuation sends it again if and only if it is kept. */
  lemma SentAgainIff(s: System, side: bool, x: nat)
    requires Inv(s) && Sender(s, side).started && x < |Sender(s, side).sent|
    ensures (exists run :: SendsAgain(s, side, run, x)) <==> Kept(Sender(s, side), x)
  {
    var e := Sender(s, side);
    if Kept(e, x) {
      PolledAgainIff(e, x);
      var now: u32 :| PollCarries(e, now, x);
      var run := [(side, Tick(now, true))];
      assert run[..0] == [] && SendsAt(s, side, run, x, 0);
      assert SendsAgain(s, side, run, x);
    }
    if run :| SendsAgain(s, side, run, x) {
      if !Kept(e, x) {
        var k: nat :| SendsAt(s, side, run, x, k);
        NeverSentAgain(s, side, run, x, k);
      }
    }
  }

  // ---- The peer ---------------------------------------------------------

  /** What the peer has never passes a byte that does not arrive. */
  lemma PeerWaits(e: Endpoint, peer: Endpoint, ev: Event, x: nat)
    requires SenderOk(e) && SenderOk(peer) && Enabled(peer, e, ev)
    requires ReceiverOk(peer, e.iss, e.sent, e.finSent) && |Received(peer)| <= x
    requires ev.Deliver? ==> !Covers(ev.seg, e.iss, x)
    ensures |Received(Step(peer, ev))| <= x
  {
    match ev
    case Deliver(seg, lossy, now) =>
      if peer.started { DeliverWaits(e, peer, seg, lossy, now, x); }
    case Read(maxLen) =>
      if peer.started && peer.conn.used && peer.conn.rx != [] { ReadIntactIff(peer, maxLen); }
    case _ => ReceiveSideIdle(peer, ev);
  }

  lemma DeliverWaits(e: Endpoint, peer: Endpoint, seg: Segment, lossy: bool, now: u32, x: nat)
    requires SenderOk(e) && SenderOk(peer) && seg in e.net && peer.started
    requires ReceiverOk(peer, e.iss, e.sent, e.finSent) && |Received(peer)| <= x && !Covers(seg, e.iss, x)
    ensures |Received(Step(peer, Deliver(seg, lossy, now)))| <= x
  {
    HandleReceives(peer.conn, seg, lossy);
    var c := Handle(peer.conn, seg, lossy).0;
    if peer.synced && c.rx != peer.conn.rx {
      AppendWaits(e, peer, seg, c, x);
    }
  }

  /** A segment that is appended starts where the stream ended. */
  lemma AppendWaits(e: Endpoint, peer: Endpoint, seg: Segment, c: Conn, x: nat)
    requires Genuine(seg, e.iss, e.sent, e.finSent) && Room(e.sent, e.finSent) && peer.synced
    requires ReceiverOk(peer, e.iss, e.sent, e.finSent) && |Received(peer)| <= x && !Covers(seg, e.iss, x)
    requires c.rx == TakeData(peer.conn, seg).rx != peer.conn.rx
    ensures |Received(peer.(conn := c))| <= x
  {
    DataAppended(peer, seg.payload, c);
    OffsetsDiffer(e.iss, Sub32(seg.seqno, Add32(e.iss, 1)), Taken(peer));
  }

  /** The stream stops at an abandoned byte for good, unless a copy sent before arrives. */
  lemma {:induction false} StreamStalls(s: System, side: bool, run: seq<(bool, Event)>, x: nat)
    requires Inv(s) && Admissible(s, run) && Abandoned(Sender(s, side), x) && |Received(Sender(s, !side))| <= x
    requires forall k ::
      0 <= k < |run| && run[k].0 != side && run[k].1.Deliver? && Covers(run[k].1.seg, Sender(s, side).iss, x) ==>
      run[k].1.seg !in Sender(s, side).net
    ensures |Received(Sender(Run(s, run), !side))| <= x
  {
    if run != [] {
      var front := run[..|run| - 1];
      var (who, ev) := run[|run| - 1];
      var t := Run(s, front);
      assert forall k :: 0 <= k < |front| ==> front[k] == run[k];
      StreamStalls(s, side, front, x);
      StaysAbandoned(s, side, front, x);
      InvRun(s, front);
      if who != side {
        assert run[|run| - 1] == (who, ev);
        PeerWaits(Sender(t, side), Sender(t, !side), ev, x);
      }
    }
  }
}
