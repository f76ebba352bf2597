/** What arrives is answered: whatever an end has taken, it has acknowledged, and that
    acknowledgement ends the peer's wait. */
module TcpAnswer {
  import opened Bytes
  import opened Tcp
  import opened TcpSystem
  import opened TcpAck
  import opened TcpStall

  predicate IsOpen(c: Conn) { c.used && (c.state.Established? || c.state.CloseWait?) }

  // ---- One call ---------------------------------------------------------

  /** Data and FINs, new or old, are answered by where the stream stands now. */
  lemma Answered(c: Conn, seg: Segment, lossy: bool)
    requires IsOpen(c) && !seg.flags.rst && (seg.payload != [] || seg.flags.fin)
    ensures var (c', ret, out) := Handle(c, seg, lossy);
      ret == 1 && out != [] && out[|out| - 1] == Segment(c'.sndNxt, c'.rcvNxt, ACK, [])
  {
  }

  /** Both ways of opening wait for the answer to a SYN of their own, which is kept for
      repeating; the listener's acknowledges the peer's. */
  lemma OpeningsWait(iss: u32, syn: Segment, now: u32)
    ensures forall c :: c in {Connect(iss, now), AcceptSyn(iss, syn, now)} ==>
      && c.used && c.waitingAck && c.retries == 0 && c.lastTick == now && c.rx == []
      && c.sndUna == iss && c.sndNxt == Add32(iss, 1) && c.last.seqno == iss && c.last.payload == []
    ensures Connect(iss, now).state.SynSent? && Connect(iss, now).last.flags == SYN
    ensures var c := AcceptSyn(iss, syn, now);
      c.state.SynRcvd? && c.last.flags == SYNACK && c.last.ackno == c.rcvNxt == Add32(syn.seqno, 1)
  {
  }

  /** A reset frees the slot and is not answered. */
  lemma ResetFrees(c: Conn, seg: Segment, lossy: bool)
    requires c.used && !c.state.Closed? && seg.flags.rst
    ensures var (c', ret, out) := Handle(c, seg, lossy); !c'.used && c'.state.Closed? && ret == 1 && out == []
  {
  }

  /** The handshake is over exactly with the acknowledgement of the SYN, which must bring the
      peer's own SYN to the end that connected; that end answers. */
  lemma HandshakeIff(c: Conn, seg: Segment, lossy: bool)
    requires c.used && (c.state.SynSent? || c.state.SynRcvd?) && !seg.flags.rst
    ensures var (c', ret, out) := Handle(c, seg, lossy);
      if seg.flags.ack && seg.ackno == c.sndNxt && (c.state.SynSent? ==> seg.flags.syn) then
        && IsOpen(c') && c'.state.Established? && !c'.waitingAck && c'.sndUna == c.sndNxt == c'.sndNxt && ret == 1
        && c'.rx == c.rx && c'.rcvNxt == (if c.state.SynSent? then Add32(seg.seqno, 1) else c.rcvNxt)
        && out == if c.state.SynSent? then [Segment(c'.sndNxt, c'.rcvNxt, ACK, [])] else []
      else c' == c && ret == 0 && out == []
  {
  }

  /** The oldest unanswered number moves forward to the one acknowledged, never back; the wait
      ends when that reaches the next number to send. A closing slot is then freed. */
  lemma AckMoves(c: Conn, seg: Segment, lossy: bool)
    requires c.used && (IsOpen(c) || c.state.Closing?) && !seg.flags.rst && seg.flags.ack
    ensures var c' := Handle(c, seg, lossy).0;
      if IsOpen(c) then
        && c'.sndUna == (if seg.ackno > c.sndUna then seg.ackno else c.sndUna)
        && (c'.waitingAck <==> c.waitingAck && (seg.ackno <= c.sndUna || seg.ackno < c.sndNxt))
      else if seg.ackno >= c.sndNxt then c'.sndUna == seg.ackno && !c'.waitingAck && !c'.used
      else c'.sndUna == c.sndUna && c'.waitingAck == c.waitingAck && c'.used
  {
    if IsOpen(c) { HandleUna(c, seg, lossy); }
  }

  /** What is not taken in changes nothing; an open connection takes in everything. */
  lemma IgnoredChangesNothing(c: Conn, seg: Segment, lossy: bool)
    ensures var (c', ret, out) := Handle(c, seg, lossy);
      && (ret == 0 || ret == 1) && (ret == 0 ==> c' == c && out == [])
      && (IsOpen(c) || (c.used && !c.state.Closed? && seg.flags.rst) ==> ret == 1)
      && (!c.used || c.state.Closed? ==> ret == 0)
  {
  }

  /** The next data of the stream, and there is a place for it. */
  predicate NextData(c: Conn, seg: Segment)
  {
    && IsOpen(c) && !seg.flags.rst && seg.seqno == c.rcvNxt
    && 0 < |seg.payload| <= 1200 && |c.rx| < 16
  }

  /** A FIN where the stream stands, or behind data that is not taken. */
  predicate NextFin(c: Conn, seg: Segment, lossy: bool)
  {
    && c.used && !seg.flags.rst && seg.flags.fin && seg.seqno == c.rcvNxt
    && if IsOpen(c) then seg.payload == [] || (!NextData(c, seg) && !lossy)
       else c.state.Closing? && !(seg.flags.ack && seg.ackno >= c.sndNxt)
  }

  /** A segment extends the stream exactly if it is the next and is not lost, and ends it
      exactly if it is the FIN behind the stream. */
  lemma TakenIff(e: Endpoint, seg: Segment, lossy: bool, now: u32)
    requires e.started && e.synced && !e.conn.state.SynSent?
    ensures var e' := Step(e, Deliver(seg, lossy, now));
      var takes, ends := NextData(e.conn, seg) && !lossy, NextFin(e.conn, seg, lossy);
      && Received(e') == Received(e) + (if takes then seg.payload else [])
      && e'.conn.rcvNxt == Add32(e.conn.rcvNxt, if takes then |seg.payload| else if ends then 1 else 0)
      && (seg.payload == [] ==> e'.finTaken == (e.finTaken || ends))
  {
    RingTakes(e.conn, seg, lossy);
    Add32Is(e.conn.rcvNxt, 1);
    FlattenSnoc(e.conn.rx, seg.payload);
  }

  lemma RingTakes(c: Conn, seg: Segment, lossy: bool)
    requires !c.state.SynSent?
    ensures var c' := Handle(c, seg, lossy).0;
      var takes := NextData(c, seg) && !lossy;
      && c'.rx == (if takes then c.rx + [seg.payload] else c.rx)
      && c'.rcvNxt == if takes then Add32(c.rcvNxt, |seg.payload|)
                      else if NextFin(c, seg, lossy) then Add32(c.rcvNxt, 1) else c.rcvNxt
  {
    if IsOpen(c) && !seg.flags.rst { OpenTakes(TakeAck(c, seg), seg, lossy); }
  }

  lemma OpenTakes(c: Conn, seg: Segment, lossy: bool)
    requires IsOpen(c) && !seg.flags.rst
    ensures var c' := HandleOpen(c, seg, lossy).0;
      var takes := NextData(c, seg) && !lossy;
      && c'.rx == (if takes then c.rx + [seg.payload] else c.rx)
      && c'.rcvNxt == if takes then Add32(c.rcvNxt, |seg.payload|)
                      else if NextFin(c, seg, lossy) then Add32(c.rcvNxt, 1) else c.rcvNxt
  {
    if NextData(c, seg) && !lossy {
      NumbersMove(c.rcvNxt, |seg.payload|);
      assert !seg.flags.fin || TakeFin(TakeData(c, seg), seg) == TakeData(c, seg);
    }
  }

  lemma NumbersMove(x: u32, n: nat)
    requires 0 < n < TWO32
    ensures Add32(x, n) != x
  {
    Add32Is(x, n);
  }

  /** A write of an open connection hands over one segment: the next bytes of the stream, up
      to 1200, which are then kept for repeating. */
  lemma WriteSends(e: Endpoint, payload: seq<byte>, now: u32, nic: bool)
    requires e.started
    ensures var e' := Step(e, Write(payload, now, nic));
      var piece := payload[..if |payload| > 1200 then 1200 else |payload|];
      var seg := Segment(e.conn.sndNxt, e.conn.rcvNxt, PSHACK, piece);
      if e.conn.used && e.conn.state.Established? && nic && payload != [] then
        && e'.sent == e.sent + piece && Emitted(e, Write(payload, now, nic)) == [seg]
        && e'.conn.last == seg && e'.conn.lastTick == now && e'.conn.retries == 0 && e'.conn.waitingAck
        && e'.conn.state == e.conn.state && e'.conn.used && e'.conn.sndNxt == Add32(e.conn.sndNxt, |piece|)
      else e' == e && Emitted(e, Write(payload, now, nic)) == []
  {
  }

  /** Closing an open connection sends the FIN and keeps it; any other is given up. */
  lemma ShutSends(e: Endpoint, now: u32, nic: bool)
    requires e.started && e.conn.used
    ensures var e' := Step(e, Shut(now, nic));
      var fin := Segment(e.conn.sndNxt, e.conn.rcvNxt, FINACK, []);
      if IsOpen(e.conn) && nic then
        && Emitted(e, Shut(now, nic)) == [fin] && e'.finSent && e'.conn.used && e'.conn.state.Closing?
        && e'.conn.last == fin && e'.conn.lastTick == now && e'.conn.retries == 0 && e'.conn.waitingAck
        && e'.conn.sndNxt == Add32(e.conn.sndNxt, 1)
      else Emitted(e, Shut(now, nic)) == [] && !e'.conn.used && e'.conn.state.Closed? && e'.finSent == e.finSent
  {
  }

  // ---- Runs -------------------------------------------------------------

  /** An acknowledgement of everything before `n`, without data. */
  predicate AckAt(seg: Segment, n: u32)
  {
    seg.flags.ack && !seg.flags.fin && !seg.flags.rst && seg.payload == [] && seg.ackno == n
  }

  /** What was taken has been acknowledged. */
  ghost predicate Acknowledged(e: Endpoint)
  {
    e.synced ==> exists seg :: seg in e.net && AckAt(seg, e.conn.rcvNxt)
  }

  /** An end that connects has acknowledged nothing yet. */
  ghost predicate Connecting(e: Endpoint)
  {
    e.started && e.conn.state.SynSent? ==> !e.conn.last.flags.ack && forall seg :: seg in e.net ==> !seg.flags.ack
  }

  /** Whoever saw the peer's SYN answered it, unless the peer answered first. */
  ghost predicate SynAnswered(e: Endpoint, peer: Endpoint)
  {
    e.synced ==>
      || (exists seg :: seg in e.net && AckAt(seg, Base(peer)) && seg.flags.syn)
      || (exists seg :: seg in peer.net && seg.flags.syn && seg.flags.ack)
  }

  /** The oldest unanswered number is behind the next one while the end waits. */
  predicate Behind(e: Endpoint)
  {
    e.started && IsOpen(e.conn) ==>
      e.conn.sndUna <= e.conn.sndNxt && (e.conn.waitingAck ==> e.conn.sndUna < e.conn.sndNxt)
  }

  /** A slot in use is in a state of a connection. */
  predicate Live(e: Endpoint) { e.started && e.conn.used ==> !e.conn.state.Listen? && !e.conn.state.Closed? }

  ghost predicate AnswerOk(e: Endpoint, peer: Endpoint)
  {
    Live(e) && Acknowledged(e) && Connecting(e) && SynAnswered(e, peer) && Behind(e)
  }

  ghost predicate AnswerInv(s: System) { AckInv(s) && AnswerOk(s.a, s.b) && AnswerOk(s.b, s.a) }

  lemma KeepsAcknowledged(e: Endpoint, ev: Event)
    requires SenderOk(e) && Acknowledged(e)
    ensures Acknowledged(Step(e, ev))
  {
    var e' := Step(e, ev);
    if e'.synced {
      if e.synced && e'.conn.rcvNxt == e.conn.rcvNxt {
        var seg :| seg in e.net && AckAt(seg, e.conn.rcvNxt);
        assert seg in e'.net;
      } else if e.started {
        MovesAnswered(e.conn, ev.seg, ev.lossy);
        var out := Handle(e.conn, ev.seg, ev.lossy).2;
        assert out[|out| - 1] in Elems(out);
      } else {
        assert AckAt(e'.conn.last, e'.conn.rcvNxt) && e'.conn.last in e'.net;
      }
    }
  }

  /** Whenever the expected number moves, the new one is acknowledged. */
  lemma MovesAnswered(c: Conn, seg: Segment, lossy: bool)
    ensures var (c', _, out) := Handle(c, seg, lossy);
      c'.rcvNxt != c.rcvNxt || (c.state.SynSent? && c'.state.Established?) ==>
        out != [] && AckAt(out[|out| - 1], c'.rcvNxt)
  {
    if IsOpen(c) && !seg.flags.rst && (seg.payload != [] || seg.flags.fin) { Answered(c, seg, lossy); }
  }

  /** Nothing is forgotten: an end's segments stay in the channel. */
  lemma NetGrows(e: Endpoint, ev: Event)
    ensures e.net <= Step(e, ev).net
  {
    EmittedReachNet(e, ev);
  }

  lemma KeepsConnecting(e: Endpoint, ev: Event)
    requires SenderOk(e) && Connecting(e)
    ensures Connecting(Step(e, ev))
  {
    if ev.Deliver? && e.started { HandleSends(e.conn, ev.seg, ev.lossy); }
  }

  lemma KeepsLive(e: Endpoint, ev: Event)
    requires Live(e)
    ensures Live(Step(e, ev))
  {
  }

  lemma KeepsSynAnswered(e: Endpoint, peer: Endpoint, ev: Event)
    requires SenderOk(e) && SenderOk(peer) && Enabled(e, peer, ev) && SynAnswered(e, peer)
    ensures SynAnswered(Step(e, ev), peer)
  {
    NetGrows(e, ev);
    var e' := Step(e, ev);
    if !e.synced && e'.synced && !e.started {
      assert Genuine(ev.seg, peer.iss, peer.sent, peer.finSent);
      assert e'.conn.last in e'.net && AckAt(e'.conn.last, Base(peer)) && e'.conn.last.flags.syn;
    }
  }

  /** The numbers of `e` are plain ones. */
  lemma PlainNumbers(e: Endpoint)
    requires SenderOk(e) && e.started && NoWrap(e)
    ensures e.conn.sndNxt == Base(e) + |e.sent| + if e.finSent then 1 else 0
  {
  }

  lemma KeepsBehind(e: Endpoint, peer: Endpoint, ev: Event)
    requires SenderOk(e) && SenderOk(peer) && Enabled(e, peer, ev) && Behind(e)
    requires ReceiverOk(peer, e.iss, e.sent, e.finSent) && AckOk(peer, e) && NoWrap(Step(e, ev))
    ensures Behind(Step(e, ev))
  {
    var e' := Step(e, ev);
    SenderStep(e, peer, ev);
    if e.started {
      PlainNumbers(e);
      PlainNumbers(e');
      match ev
      case Deliver(seg, lossy, _) => DeliverBehind(e, peer, seg, lossy);
      case Write(payload, now, nic) => WriteSends(e, payload, now, nic);
      case _ =>
    }
  }

  lemma DeliverBehind(e: Endpoint, peer: Endpoint, seg: Segment, lossy: bool)
    requires SenderOk(e) && e.started && NoWrap(e) && Behind(e) && Earned(seg, peer, e)
    requires ReceiverOk(peer, e.iss, e.sent, e.finSent)
    ensures Behind(e.(conn := Handle(e.conn, seg, lossy).0))
  {
    PlainNumbers(e);
    HandleSends(e.conn, seg, lossy);
    HandleUna(e.conn, seg, lossy);
  }

  /** What a segment does to the oldest unanswered number, in an open connection. */
  lemma HandleUna(c: Conn, seg: Segment, lossy: bool)
    ensures var c' := Handle(c, seg, lossy).0;
      IsOpen(c') ==>
        if IsOpen(c) then c'.sndUna == TakeAck(c, seg).sndUna && c'.waitingAck == TakeAck(c, seg).waitingAck
        else c'.sndUna == c.sndNxt && !c'.waitingAck
  {
  }

  lemma AnswerStep(e: Endpoint, peer: Endpoint, ev: Event)
    requires SenderOk(e) && SenderOk(peer) && Enabled(e, peer, ev)
    requires ReceiverOk(peer, e.iss, e.sent, e.finSent) && AckOk(peer, e) && NoWrap(Step(e, ev))
    requires AnswerOk(e, peer) && AnswerOk(peer, e)
    ensures AnswerOk(Step(e, ev), peer) && AnswerOk(peer, Step(e, ev))
  {
    KeepsAcknowledged(e, ev);
    KeepsConnecting(e, ev);
    KeepsLive(e, ev);
    KeepsSynAnswered(e, peer, ev);
    KeepsBehind(e, peer, ev);
    NetGrows(e, ev);
    SenderStep(e, peer, ev);
  }

  lemma AnswerNext(t: System, side: bool, ev: Event)
    requires AnswerInv(t) && if side then Enabled(t.a, t.b, ev) else Enabled(t.b, t.a, ev)
    requires NoWrap(Next(t, side, ev).a) && NoWrap(Next(t, side, ev).b)
    ensures var t' := Next(t, side, ev); AnswerOk(t'.a, t'.b) && AnswerOk(t'.b, t'.a)
  {
    if side { AnswerStep(t.a, t.b, ev); } else { AnswerStep(t.b, t.a, ev); }
  }

  /** Numbers that do not wrap after an event did not before. */
  lemma NoWrapBefore(t: System, side: bool, ev: Event)
    requires Inv(t) && if side then Enabled(t.a, t.b, ev) else Enabled(t.b, t.a, ev)
    requires NoWrap(Next(t, side, ev).a) && NoWrap(Next(t, side, ev).b)
    ensures NoWrap(t.a) && NoWrap(t.b)
  {
    if side { SenderStep(t.a, t.b, ev); } else { SenderStep(t.b, t.a, ev); }
  }

  lemma {:induction false} AnswerRun(s: System, run: seq<(bool, Event)>)
    requires AnswerInv(s) && Admissible(s, run) && NoWrap(Run(s, run).a) && NoWrap(Run(s, run).b)
    ensures AnswerInv(Run(s, run))
  {
    AckRun(s, run);
    if run != [] {
      var front := run[..|run| - 1];
      InvRun(s, front);
      NoWrapBefore(Run(s, front), run[|run| - 1].0, run[|run| - 1].1);
      AnswerRun(s, front);
      AnswerNext(Run(s, front), run[|run| - 1].0, run[|run| - 1].1);
    }
  }

  lemma {:induction false} AcknowledgedRun(s: System, run: seq<(bool, Event)>)
    requires Inv(s) && Admissible(s, run) && Acknowledged(s.a) && Acknowledged(s.b)
    ensures Acknowledged(Run(s, run).a) && Acknowledged(Run(s, run).b)
  {
    if run != [] {
      var front := run[..|run| - 1];
      var (side, ev) := run[|run| - 1];
      AcknowledgedRun(s, front);
      InvRun(s, front);
      KeepsAcknowledged(if side then Run(s, front).a else Run(s, front).b, ev);
    }
  }

  /** In every run, whatever an end has taken of the stream and the FIN, it has acknowledged. */
  lemma AllAcknowledged(issA: u32, issB: u32, unused: Conn, run: seq<(bool, Event)>)
    requires !unused.used && unused.rx == []
    requires Admissible(System(Fresh(issA, unused), Fresh(issB, unused)), run)
    ensures var t := Run(System(Fresh(issA, unused), Fresh(issB, unused)), run);
      Acknowledged(t.a) && Acknowledged(t.b)
  {
    AcknowledgedRun(System(Fresh(issA, unused), Fresh(issB, unused)), run);
  }

  /** The peer has a segment in the channel that ends the wait, lost data or not. */
  ghost predicate Answerable(e: Endpoint, peer: Endpoint)
  {
    exists seg :: seg in peer.net && Ends(e, seg)
  }

  predicate Ends(e: Endpoint, seg: Segment)
  {
    forall lossy, now: u32 :: !Step(e, Deliver(seg, lossy, now)).conn.waitingAck
  }

  /** If the peer has everything, an acknowledgement that says so is on its way. */
  lemma HasAnswer(e: Endpoint, peer: Endpoint)
    requires SenderOk(e) && e.started && e.conn.used && e.conn.waitingAck && NoWrap(e) && peer.synced
    requires ReceiverOk(peer, e.iss, e.sent, e.finSent) && AllTaken(peer, e)
    requires AnswerOk(e, peer) && AnswerOk(peer, e)
    ensures Answerable(e, peer)
  {
    PlainNumbers(e);
    RcvNxtNoWrap(peer, e);
    assert peer.conn.rcvNxt == e.conn.sndNxt;
    var seg :| seg in peer.net && AckAt(seg, peer.conn.rcvNxt);
    if e.conn.state.SynSent? {
      var syn :| syn in peer.net && AckAt(syn, Base(e)) && syn.flags.syn;
      assert Ends(e, syn);
    } else {
      assert Ends(e, seg);
    }
  }

  /** In every run whose numbers do not wrap, an end that waits although the peer has taken
      everything it sent can be answered by what the peer has sent already. */
  lemma TakenIsAnswered(issA: u32, issB: u32, unused: Conn, run: seq<(bool, Event)>)
    requires !unused.used && unused.rx == []
    requires Admissible(System(Fresh(issA, unused), Fresh(issB, unused)), run)
    requires var t := Run(System(Fresh(issA, unused), Fresh(issB, unused)), run); NoWrap(t.a) && NoWrap(t.b)
    ensures var t := Run(System(Fresh(issA, unused), Fresh(issB, unused)), run);
      && (t.a.started && t.a.conn.used && t.a.conn.waitingAck && t.b.synced && AllTaken(t.b, t.a) ==>
           Answerable(t.a, t.b))
      && (t.b.started && t.b.conn.used && t.b.conn.waitingAck && t.a.synced && AllTaken(t.a, t.b) ==>
           Answerable(t.b, t.a))
  {
    var s := System(Fresh(issA, unused), Fresh(issB, unused));
    AnswerRun(s, run);
    var t := Run(s, run);
    if t.a.started && t.a.conn.used && t.a.conn.waitingAck && t.b.synced && AllTaken(t.b, t.a) {
      HasAnswer(t.a, t.b);
    }
    if t.b.started && t.b.conn.used && t.b.conn.waitingAck && t.a.synced && AllTaken(t.a, t.b) {
      HasAnswer(t.b, t.a);
    }
  }
}
