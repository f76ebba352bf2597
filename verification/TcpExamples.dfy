/** Runs on which the code does not do what it is meant to. */
module TcpExamples {
  import opened Bytes
  import opened Tcp
  import opened TcpSystem
  import opened TcpAck
  import opened TcpStall

  /** The event can happen next. */
  predicate Possible(s: System, e: (bool, Event))
  {
    if e.0 then Enabled(s.a, s.b, e.1) else Enabled(s.b, s.a, e.1)
  }

  /** A run continued by one event. */
  lemma Extend(s: System, front: seq<(bool, Event)>, e: (bool, Event))
    requires Admissible(s, front) && Possible(Run(s, front), e)
    ensures Admissible(s, front + [e]) && Run(s, front + [e]) == Next(Run(s, front), e.0, e.1)
  {
    assert (front + [e])[..|front|] == front;
  }

  /** The run one event further. */
  lemma RunOne(s: System, run: seq<(bool, Event)>, k: nat)
    requires k < |run|
    ensures Run(s, run[..k + 1]) == Next(Run(s, run[..k]), run[k].0, run[k].1)
    ensures Admissible(s, run[..k + 1]) == (Admissible(s, run[..k]) && Possible(Run(s, run[..k]), run[k]))
  {
    assert run[..k + 1][..k] == run[..k];
  }

  /** The two ends when the handshake is over at the connecting one. */
  function HandshakeDone(iss: u32, peerIss: u32, unused: Conn): System
  {
    var c := Connect(iss, 0);
    var syn := c.last;
    var p := AcceptSyn(peerIss, syn, 0);
    var c' := c.(rcvNxt := Add32(peerIss, 1), sndUna := Add32(iss, 1), state := Established, waitingAck := false);
    System(Fresh(iss, unused).(conn := c', started := true, synced := true, net := {syn, PureAck(c')}),
           Fresh(peerIss, unused).(conn := p, started := true, synced := true, net := {p.last}))
  }

  /** Connect, and deliver the SYN and the SYN|ACK. */
  function Handshake(iss: u32, peerIss: u32): seq<(bool, Event)>
  {
    var syn := Connect(iss, 0).last;
    [(true, Open(0)), (false, Deliver(syn, false, 0)), (true, Deliver(AcceptSyn(peerIss, syn, 0).last, false, 0))]
  }

  lemma HandshakeRuns(iss: u32, peerIss: u32, unused: Conn)
    requires !unused.used && unused.rx == []
    ensures var s := System(Fresh(iss, unused), Fresh(peerIss, unused));
      && Admissible(s, Handshake(iss, peerIss))
      && Run(s, Handshake(iss, peerIss)) == HandshakeDone(iss, peerIss, unused)
  {
    var s, run := System(Fresh(iss, unused), Fresh(peerIss, unused)), Handshake(iss, peerIss);
    RunOne(s, run, 0);
    RunOne(s, run, 1);
    RunOne(s, run, 2);
    assert run[..0] == [] && run[..3] == run;
    var t := Run(s, run);
    assert t.a.net == {Connect(iss, 0).last, PureAck(t.a.conn)};
    assert t.b.net == {t.b.conn.last};
  }

  /** A run continued by two events. */
  lemma RunTwo(s: System, front: seq<(bool, Event)>, e1: (bool, Event), e2: (bool, Event))
    requires Admissible(s, front) && Possible(Run(s, front), e1)
    requires Possible(Next(Run(s, front), e1.0, e1.1), e2)
    ensures Admissible(s, front + [e1, e2])
    ensures Run(s, front + [e1, e2]) == Next(Next(Run(s, front), e1.0, e1.1), e2.0, e2.1)
  {
    Extend(s, front, e1);
    Extend(s, front + [e1], e2);
    assert front + [e1, e2] == front + [e1] + [e2];
  }

  // ---- Old acknowledgements ---------------------------------------------

  /** Numbers begin two before the wrap. */
  const LATE: u32 := TWO32 - 2
  const OLD_ACK: Event := Deliver(Segment(7, TWO32 - 1, SYNACK, []), false, 0)

  lemma OldAckEffect(e: Endpoint)
    requires e.started && e.conn.used && e.conn.state.Established? && e.conn.sndNxt == TWO32 - 1
    ensures var e1 := Step(e, Shut(0, true));
      && e1.finSent && e1.iss == e.iss && !Step(e1, OLD_ACK).conn.used && Step(e1, OLD_ACK).finSent
      && Step(e1, OLD_ACK).iss == e.iss
  {
  }

  /** Closing and hearing the old SYN|ACK again frees the slot although the peer never saw
      the FIN. */
  lemma OldAckFreesSlot(unused: Conn)
    requires !unused.used && unused.rx == []
    ensures var s := System(Fresh(LATE, unused), Fresh(7, unused));
      var run := Handshake(LATE, 7) + [(true, Shut(0, true)), (true, OLD_ACK)];
      && Admissible(s, run) && !NoWrap(Run(s, run).a)
      && !Run(s, run).a.conn.used && Run(s, run).a.finSent && !Run(s, run).b.finTaken
  {
    HandshakeRuns(LATE, 7, unused);
    var s, t := System(Fresh(LATE, unused), Fresh(7, unused)), HandshakeDone(LATE, 7, unused);
    OldAckEffect(t.a);
    assert OLD_ACK.seg in t.b.net;
    RunTwo(s, Handshake(LATE, 7), (true, Shut(0, true)), (true, OLD_ACK));
  }

  // ---- Bytes given up ---------------------------------------------------

  /** Two one-byte sends in a row. */
  const TWO_SENDS: seq<(bool, Event)> := [(true, Write([10], 0, true)), (true, Write([11], 0, true))]

  lemma TwoSends(e: Endpoint)
    requires SenderOk(e) && e.started && e.conn.used && e.conn.state.Established? && e.sent == []
    ensures var e1 := Step(e, Write([10], 0, true));
      && e1.sent == [10] && Step(e1, Write([11], 0, true)).sent == [10, 11]
      && Abandoned(Step(e1, Write([11], 0, true)), 0)
  {
    var e1 := Step(e, Write([10], 0, true));
    SenderWrite(e, [10], 0, true);
    SecondSendAbandons(e1, [11], 0, 0);
  }

  /** After them the first byte is given up although the peer has nothing yet. */
  lemma FirstByteGivenUp(iss: u32, peerIss: u32, unused: Conn)
    requires !unused.used && unused.rx == []
    ensures var s := System(Fresh(iss, unused), Fresh(peerIss, unused));
      var run := Handshake(iss, peerIss) + TWO_SENDS;
      && Admissible(s, run) && Abandoned(Run(s, run).a, 0) && Received(Run(s, run).b) == []
  {
    HandshakeRuns(iss, peerIss, unused);
    var s, t := System(Fresh(iss, unused), Fresh(peerIss, unused)), HandshakeDone(iss, peerIss, unused);
    InvRun(s, Handshake(iss, peerIss));
    TwoSends(t.a);
    RunTwo(s, Handshake(iss, peerIss), TWO_SENDS[0], TWO_SENDS[1]);
  }

  // ---- One number too many ----------------------------------------------

  /** With a stream of 2^32 - 1 bytes and the FIN taken, the next number expected is that
      of the first byte again: its segment, delivered late, is taken a second time. */
  lemma FirstSegmentTakenTwice(e: Endpoint, iss: u32, seg: Segment, now: u32)
    requires e.started && e.synced && e.conn.used && e.conn.state.CloseWait? && e.finTaken
    requires |Received(e)| == TWO32 - 1 && e.conn.rcvNxt == Add32(iss, 1 + Taken(e))
    requires seg.seqno == Add32(iss, 1) && 0 < |seg.payload| <= MAX_PAYLOAD && !seg.flags.rst && !seg.flags.fin
    requires |e.conn.rx| < QUEUE_DEPTH
    ensures Received(Step(e, Deliver(seg, false, now))) == Received(e) + seg.payload
  {
    AllTheWayRound(iss);
    TakenAgain(e, seg);
    HandleReceives(e.conn, seg, false);
  }

  lemma AllTheWayRound(iss: u32)
    ensures Add32(iss, 1 + TWO32) == Add32(iss, 1)
  {
  }

  lemma TakenAgain(e: Endpoint, seg: Segment)
    requires seg.seqno == e.conn.rcvNxt && 0 < |seg.payload| <= MAX_PAYLOAD && |e.conn.rx| < QUEUE_DEPTH
    ensures Received(e.(conn := TakeData(e.conn, seg))) == Received(e) + seg.payload
  {
    DataAppended(e, seg.payload, TakeData(e.conn, seg));
  }

  /** Connected both ways; `n` one-byte segments have been sent, taken and read. */
  ghost predicate Streaming(t: System, iss: u32, n: nat)
  {
    && t.a.started && t.a.iss == iss && t.a.conn.used && t.a.conn.state.Established?
    && t.a.conn.sndNxt == Add32(iss, 1 + n) && |t.a.sent| == n && !t.a.finSent
    && t.b.started && t.b.synced && t.b.conn.used && t.b.conn.state.Established? && !t.b.finTaken
    && t.b.conn.rcvNxt == Add32(iss, 1 + n) && t.b.conn.rx == [] && |t.b.delivered| == n
    && (n > 0 ==> exists seg :: seg in t.a.net && FirstByte(seg, iss))
  }

  predicate FirstByte(seg: Segment, iss: u32)
  {
    seg.seqno == Add32(iss, 1) && |seg.payload| == 1 && !seg.flags.rst && !seg.flags.fin
  }

  const SEND: Event := Write([0], 0, true)

  /** The segment that the next one-byte write sends. */
  function NextByte(c: Conn): Segment { Segment(c.sndNxt, c.rcvNxt, PSHACK, [0]) }

  lemma ByteSent(t: System, iss: u32, n: nat)
    requires Streaming(t, iss, n) && n + 1 < TWO32
    ensures var e := Step(t.a, SEND);
      && e.started && e.iss == iss && e.conn.used && e.conn.state.Established? && |e.sent| == n + 1 && !e.finSent
      && e.conn.sndNxt == Add32(iss, 1 + (n + 1)) && NextByte(t.a.conn) in e.net && t.a.net <= e.net
  {
    assert [0][..1] == [0];
    var out := AppSend(t.a.conn, [0], 0, true).2;
    assert out == [NextByte(t.a.conn)] && out[0] in Elems(out);
    AddAssoc(iss, 1 + n, 1);
  }

  lemma ByteTaken(t: System, iss: u32, n: nat)
    requires Streaming(t, iss, n)
    ensures var e := Step(t.b, Deliver(NextByte(t.a.conn), false, 0));
      && e.started && e.synced && e.conn.used && e.conn.state.Established?
      && !e.finTaken && e.delivered == t.b.delivered
      && e.conn.rcvNxt == Add32(iss, 1 + (n + 1)) && e.conn.rx == [[0]]
  {
    AddAssoc(iss, 1 + n, 1);
  }

  /** Write a byte, deliver it, read it. */
  lemma OneByte(t: System, iss: u32, n: nat) returns (e1: (bool, Event), e2: (bool, Event), e3: (bool, Event))
    requires Streaming(t, iss, n) && n + 1 < TWO32
    ensures var t1 := Next(t, e1.0, e1.1); var t2 := Next(t1, e2.0, e2.1); var t3 := Next(t2, e3.0, e3.1);
      && Possible(t, e1) && Possible(t1, e2) && Possible(t2, e3) && Streaming(t3, iss, n + 1)
  {
    e1, e2, e3 := (true, SEND), (false, Deliver(NextByte(t.a.conn), false, 0)), (false, Read(MAX_PAYLOAD));
    ByteSent(t, iss, n);
    ByteTaken(t, iss, n);
    var a := Step(t.a, SEND);
    if n == 0 {
      assert FirstByte(NextByte(t.a.conn), iss);
    } else {
      var seg :| seg in t.a.net && FirstByte(seg, iss);
      assert seg in a.net;
    }
  }

  lemma {:induction false} Streamed(iss: u32, peerIss: u32, unused: Conn, n: nat) returns (run: seq<(bool, Event)>)
    requires !unused.used && unused.rx == [] && n < TWO32
    ensures var s := System(Fresh(iss, unused), Fresh(peerIss, unused));
      Admissible(s, run) && Streaming(Run(s, run), iss, n)
  {
    var s := System(Fresh(iss, unused), Fresh(peerIss, unused));
    if n == 0 {
      var t := HandshakeDone(iss, peerIss, unused);
      HandshakeRuns(iss, peerIss, unused);
      var e := (false, Deliver(PureAck(t.a.conn), false, 0));
      Extend(s, Handshake(iss, peerIss), e);
      run := Handshake(iss, peerIss) + [e];
    } else {
      var front := Streamed(iss, peerIss, unused, n - 1);
      var e1, e2, e3 := OneByte(Run(s, front), iss, n - 1);
      RunTwo(s, front, e1, e2);
      Extend(s, front + [e1, e2], e3);
      run := front + [e1, e2] + [e3];
    }
  }

  /** From there closing, delivering the FIN and delivering the first segment once more
      breaks prefix safety: the peer has more bytes than were sent. */
  lemma TooMany(t: System, iss: u32) returns (fin: Segment, seg: Segment)
    requires Streaming(t, iss, TWO32 - 1)
    ensures var t1 := Next(t, true, Shut(0, true)); var t2 := Next(t1, false, Deliver(fin, false, 0));
      && fin in t1.a.net && seg in t2.a.net && !PrefixSafe(Next(t2, false, Deliver(seg, false, 0)).b, t2.a)
  {
    fin := Segment(t.a.conn.sndNxt, t.a.conn.rcvNxt, FINACK, []);
    seg :| seg in t.a.net && FirstByte(seg, iss);
    var t1 := Next(t, true, Shut(0, true));
    assert t1.a.net == t.a.net + {fin};
    var b := Step(t.b, Deliver(fin, false, 0));
    FinTakenLast(t.b, fin, iss);
    FirstSegmentTakenTwice(b, iss, seg, 0);
  }

  lemma FinTakenLast(e: Endpoint, fin: Segment, iss: u32)
    requires e.started && e.synced && e.conn.used && e.conn.state.Established? && !e.finTaken && e.conn.rx == []
    requires e.conn.rcvNxt == Add32(iss, TWO32) && |e.delivered| == TWO32 - 1
    requires fin.seqno == e.conn.rcvNxt && fin.flags == FINACK && fin.payload == []
    ensures var b := Step(e, Deliver(fin, false, 0));
      && b.started && b.synced && b.conn.used && b.conn.state.CloseWait? && b.finTaken && b.conn.rx == []
      && |Received(b)| == TWO32 - 1 && b.conn.rcvNxt == Add32(iss, 1 + TWO32)
  {
    AddAssoc(iss, TWO32, 1);
    Add32Is(iss, 1);
    Add32Is(iss, TWO32);
  }

  /** So prefix safety ends exactly there: a run of 2^32 - 1 bytes, after which the FIN makes
      the numbers one too many. */
  lemma BoundIsSharp(iss: u32, peerIss: u32, unused: Conn)
    returns (run: seq<(bool, Event)>, fin: Segment, seg: Segment)
    requires !unused.used && unused.rx == []
    ensures var s := System(Fresh(iss, unused), Fresh(peerIss, unused));
      var t := Run(s, run); var t1 := Next(t, true, Shut(0, true)); var t2 := Next(t1, false, Deliver(fin, false, 0));
      && Admissible(s, run) && |t.a.sent| == TWO32 - 1
      && fin in t1.a.net && seg in t2.a.net && !PrefixSafe(Next(t2, false, Deliver(seg, false, 0)).b, t2.a)
  {
    run := Streamed(iss, peerIss, unused, TWO32 - 1);
    fin, seg := TooMany(Run(System(Fresh(iss, unused), Fresh(peerIss, unused)), run), iss);
  }
}
