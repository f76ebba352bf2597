/** The life of an unanswered connection under net_tcp_poll once per tick. */
module TcpRetransmit {
  import opened Bytes
  import opened Tcp

  /** The slot and the number of retransmissions after polls at the `k` ticks following `t0`. */
  function PollRun(c: Conn, t0: u32, k: nat): (Conn, nat)
  {
    if k == 0 then (c, 0)
    else
      var (c1, n) := PollRun(c, t0, k - 1);
      var (c2, sent, _) := Poll(c1, Add32(t0, k), true);
      (c2, if sent then n + 1 else n)
  }

  /** Ticks from the original transmission to the `r`-th retransmission. */
  function Due(r: nat): nat
  {
    if r == 0 then 0 else Due(r - 1) + Timeout(r - 1)
  }

  lemma Schedule()
    ensures Due(1) == 20 && Due(2) == 60 && Due(3) == 140 && Due(4) == 300
    ensures Due(5) == 620 && Due(6) == 940 && Due(7) == 1260 && Due(8) == 1580
  {
    assert Due(1) == 20;
    assert Due(2) == 60;
    assert Due(3) == 140;
    assert Due(4) == 300;
    assert Due(5) == 620;
    assert Due(6) == 940;
    assert Due(7) == 1260;
  }

  function Waiting(c: Conn, t0: u32, r: nat): Conn
  {
    c.(retries := r, lastTick := Add32(t0, Due(r)))
  }

  /** One poll at the `k`-th tick of a slot that has made `r` retransmissions. */
  lemma PollOnce(c: Conn, t0: u32, k: nat, r: nat)
    requires c.used && c.waitingAck && r <= MaxRetries(c.state)
    requires Due(r) < k <= Due(r + 1) < TWO32
    ensures var (c', sent, _) := Poll(Waiting(c, t0, r), Add32(t0, k), true);
      && (k < Due(r + 1) ==> c' == Waiting(c, t0, r) && !sent)
      && (k == Due(r + 1) && r < MaxRetries(c.state) ==> c' == Waiting(c, t0, r + 1) && sent)
      && (k == Due(r + 1) && r == MaxRetries(c.state) ==> c' == Free(Waiting(c, t0, r)) && !sent)
  {
    Elapsed(t0, k, Due(r));
  }

  lemma {:induction false} DueSmall(r: nat)
    requires r <= 8
    ensures Due(r) <= 320 * r
  {
    if r > 0 { DueSmall(r - 1); }
  }

  /** The run one tick further. */
  lemma PollNext(c: Conn, t0: u32, k: nat, r: nat)
    requires c.used && c.waitingAck && r <= MaxRetries(c.state) && 0 < k && Due(r) < k <= Due(r + 1)
    requires PollRun(c, t0, k - 1) == (Waiting(c, t0, r), r)
    ensures k < Due(r + 1) ==> PollRun(c, t0, k) == (Waiting(c, t0, r), r)
    ensures k == Due(r + 1) && r < MaxRetries(c.state) ==> PollRun(c, t0, k) == (Waiting(c, t0, r + 1), r + 1)
    ensures k == Due(r + 1) && r == MaxRetries(c.state) ==> PollRun(c, t0, k) == (Free(Waiting(c, t0, r)), r)
  {
    DueSmall(r + 1);
    PollOnce(c, t0, k, r);
  }

  lemma PollFreed(c: Conn, t0: u32, k: nat, r: nat)
    requires c.used && 0 < k && PollRun(c, t0, k - 1) == (Free(Waiting(c, t0, r)), r)
    ensures PollRun(c, t0, k) == PollRun(c, t0, k - 1)
  {
  }

  /** The slot while it waits for its `r + 1`-st timeout, and after the last one. */
  predicate Stage(c: Conn, t0: u32, k: nat, r: nat)
  {
    var m := MaxRetries(c.state);
    && r <= m
    && (k < Due(m + 1) ==> Due(r) <= k < Due(r + 1) && PollRun(c, t0, k) == (Waiting(c, t0, r), r))
    && (k >= Due(m + 1) ==> r == m && PollRun(c, t0, k) == (Free(Waiting(c, t0, r)), r))
  }

  lemma StageNext(c: Conn, t0: u32, k: nat, r: nat)
    requires c.used && c.waitingAck && 0 < k && Stage(c, t0, k - 1, r)
    ensures Stage(c, t0, k, if k == Due(r + 1) && r < MaxRetries(c.state) then r + 1 else r)
  {
    var m := MaxRetries(c.state);
    if k - 1 < Due(m + 1) {
      DueGrows(r + 1, m + 1);
      PollNext(c, t0, k, r);
      if k == Due(r + 1) && r < m { DueGrows(r + 2, m + 1); }
    } else {
      PollFreed(c, t0, k, r);
    }
  }

  lemma {:induction false} PollStage(c: Conn, t0: u32, k: nat) returns (r: nat)
    requires c.used && c.waitingAck && c.retries == 0 && c.lastTick == t0
    ensures Stage(c, t0, k, r)
  {
    if k == 0 {
      r := 0;
      DueGrows(1, MaxRetries(c.state) + 1);
    } else {
      r := PollStage(c, t0, k - 1);
      StageNext(c, t0, k, r);
      if k == Due(r + 1) && r < MaxRetries(c.state) { r := r + 1; }
    }
  }

  lemma Elapsed(t0: u32, k: nat, j: nat)
    requires j <= k < TWO32
    ensures Sub32(Add32(t0, k), Add32(t0, j)) == k - j
  {
  }

  /** With no answer, no new send and a poll every tick, a connection is
      retransmitted exactly at its schedule, at most 5 times (7 during the
      handshake), and its slot is freed 940 (1580) ticks after the transmission. */
  lemma RetransmissionBound(c: Conn, t0: u32, k: nat)
    requires c.used && c.waitingAck && c.retries == 0 && c.lastTick == t0
    ensures var (c', n) := PollRun(c, t0, k);
      var handshake := c.state.SynSent? || c.state.SynRcvd?;
      && (c'.used <==> k < if handshake then 1580 else 940)
      && (c'.used ==> c'.state == c.state && c'.waitingAck)
      && n <= (if handshake then 7 else 5)
      && (k >= 620 && !handshake ==> n == 5) && (k >= 1260 && handshake ==> n == 7)
      && forall i :: 1 <= i <= (if handshake then 7 else 5) ==> (n >= i <==> k >= Due(i))
  {
    Schedule();
    var r := PollStage(c, t0, k);
    var handshake := c.state.SynSent? || c.state.SynRcvd?;
    forall i | 1 <= i <= (if handshake then 7 else 5)
      ensures PollRun(c, t0, k).1 >= i <==> k >= Due(i)
    {
      if r >= i { DueGrows(i, r); } else { DueGrows(r + 1, i); }
    }
  }

  lemma {:induction false} DueGrows(i: nat, j: nat)
    requires i <= j
    ensures Due(i) <= Due(j)
  {
    if i < j { DueGrows(i, j - 1); }
  }
}
