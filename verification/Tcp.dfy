/** One TCP connection of kernel/net.c: the transition functions, and the
    in-place connection slot proved against them. */
module Tcp {
  import opened Bytes
  import Ring

  const QUEUE_DEPTH: nat := 16
  const MAX_PAYLOAD: nat := 1200
  const RETX_TICKS: nat := 20
  const RETX_MAX: nat := 5

  datatype State = Closed | Listen | SynSent | SynRcvd | Established | CloseWait | Closing

  datatype Flags = Flags(fin: bool, syn: bool, rst: bool, psh: bool, ack: bool)

  const SYN := Flags(false, true, false, false, false)
  const SYNACK := Flags(false, true, false, false, true)
  const ACK := Flags(false, false, false, false, true)
  const PSHACK := Flags(false, false, false, true, true)
  const FINACK := Flags(true, false, false, false, true)

  datatype Segment = Segment(seqno: u32, ackno: u32, flags: Flags, payload: seq<byte>)

  /** The fields of a connection slot; `rx` is the receive ring from head to tail. */
  datatype Conn = Conn(
    used: bool, state: State,
    sndUna: u32, sndNxt: u32, rcvNxt: u32,
    rx: seq<seq<byte>>,
    last: Segment, lastTick: u32, retries: nat, waitingAck: bool)

  function Add32(x: u32, n: nat): u32 { (x + n) % TWO32 }

  function Sub32(x: u32, y: u32): u32 { (x - y) % TWO32 }

  function PureAck(c: Conn): Segment { Segment(c.sndNxt, c.rcvNxt, ACK, []) }

  /** tcp_track_outbound: the segment becomes the one that retransmission repeats. */
  function Track(c: Conn, seg: Segment, now: u32): Conn
  {
    c.(last := seg, lastTick := now, retries := 0,
       waitingAck := seg.flags.syn || seg.flags.fin || |seg.payload| > 0)
  }

  /** tcp_send_and_track; `nic` says whether the driver accepted the frame. */
  function SendAndTrack(c: Conn, flags: Flags, payload: seq<byte>, now: u32, nic: bool): (Conn, bool, seq<Segment>)
  {
    if !nic then (c, false, [])
    else
      var seg := Segment(c.sndNxt, c.rcvNxt, flags, payload);
      var step := (if flags.syn || flags.fin then 1 else 0) + |payload|;
      (Track(c, seg, now).(sndNxt := Add32(c.sndNxt, step)), true, [seg])
  }

  /** The slot net_tcp_connect fills in; it has sent its SYN. */
  function Connect(iss: u32, now: u32): Conn
  {
    Conn(true, SynSent, iss, Add32(iss, 1), 0, [], Segment(iss, 0, SYN, []), now, 0, true)
  }

  /** The child slot a listener fills in for a SYN; it has sent its SYN|ACK. */
  function AcceptSyn(iss: u32, syn: Segment, now: u32): Conn
  {
    var rcv := Add32(syn.seqno, 1);
    Conn(true, SynRcvd, iss, Add32(iss, 1), rcv, [], Segment(iss, rcv, SYNACK, []), now, 0, true)
  }

  /** tcp_queue_rx: refuses when the segment is too long or the ring is full. */
  function QueueRx(c: Conn, payload: seq<byte>): (Conn, bool)
  {
    if payload == [] then (c, true)
    else if |payload| > MAX_PAYLOAD || |c.rx| >= QUEUE_DEPTH then (c, false)
    else (c.(rx := c.rx + [payload]), true)
  }

  function TakeAck(c: Conn, seg: Segment): Conn
  {
    if seg.flags.ack && seg.ackno > c.sndUna then
      c.(sndUna := seg.ackno, waitingAck := c.waitingAck && seg.ackno < c.sndNxt)
    else c
  }

  function TakeData(c: Conn, seg: Segment): Conn
  {
    if seg.payload != [] && seg.seqno == c.rcvNxt then
      var (c1, ok) := QueueRx(c, seg.payload);
      if ok then c1.(rcvNxt := Add32(c.rcvNxt, |seg.payload|)) else c1
    else c
  }

  function TakeFin(c: Conn, seg: Segment): Conn
  {
    if seg.seqno == c.rcvNxt then c.(rcvNxt := Add32(c.rcvNxt, 1)) else c
  }

  function Free(c: Conn): Conn { c.(used := false, state := Closed) }

  /** net_handle_tcp_segment on the slot it was looked up for; `lossy` is the
      fault injector's decision. Yields the new slot, the return value and the
      segments handed to the driver, whose refusal the code ignores. */
  function Handle(c: Conn, seg: Segment, lossy: bool): (Conn, int, seq<Segment>)
  {
    if !c.used || c.state.Closed? then (c, 0, [])
    else if seg.flags.rst then (Free(c), 1, [])
    else match c.state
      case Closing => HandleClosing(c, seg)
      case SynSent | SynRcvd => HandleHandshake(c, seg)
      case Established | CloseWait => HandleOpen(TakeAck(c, seg), seg, lossy)
      case _ => (c, 0, [])
  }

  function HandleClosing(c: Conn, seg: Segment): (Conn, int, seq<Segment>)
  {
    if seg.flags.ack && seg.ackno >= c.sndNxt then
      (Free(c.(sndUna := seg.ackno, waitingAck := false)), 1, [])
    else if seg.flags.fin then
      var c1 := TakeFin(c, seg);
      (c1, 1, [PureAck(c1)])
    else (c, 0, [])
  }

  function HandleHandshake(c: Conn, seg: Segment): (Conn, int, seq<Segment>)
  {
    if c.state.SynSent? && seg.flags.syn && seg.flags.ack && seg.ackno == c.sndNxt then
      var c1 := c.(rcvNxt := Add32(seg.seqno, 1), sndUna := seg.ackno, state := Established, waitingAck := false);
      (c1, 1, [PureAck(c1)])
    else if c.state.SynRcvd? && seg.flags.ack && seg.ackno == c.sndNxt then
      (c.(sndUna := seg.ackno, state := Established, waitingAck := false), 1, [])
    else (c, 0, [])
  }

  /** The rest of the ESTABLISHED and CLOSE_WAIT branch, after the acknowledgement. */
  function HandleOpen(c: Conn, seg: Segment, lossy: bool): (Conn, int, seq<Segment>)
  {
    if seg.payload != [] && lossy then (c, 1, [PureAck(c)])
    else
      var c1 := TakeData(c, seg);
      var out := if seg.payload != [] then [PureAck(c1)] else [];
      if seg.flags.fin then
        var c2 := TakeFin(c1, seg).(state := CloseWait);
        (c2, 1, out + [PureAck(c2)])
      else (c1, 1, out)
  }

  /** net_tcp_send: the bytes accepted are `payload[..n]` for the result `n`. */
  function AppSend(c: Conn, payload: seq<byte>, now: u32, nic: bool): (r: (Conn, int, seq<Segment>))
    ensures 0 <= r.1 <= |payload|
  {
    if payload == [] || !c.used || !c.state.Established? then (c, 0, [])
    else
      var n := if |payload| > MAX_PAYLOAD then MAX_PAYLOAD else |payload|;
      var (c1, ok, out) := SendAndTrack(c, PSHACK, payload[..n], now, nic);
      (c1, if ok then n else 0, out)
  }

  /** net_tcp_recv: hands out at most `maxLen` bytes of the head segment and drops the rest of it. */
  function Recv(c: Conn, maxLen: nat): (Conn, seq<byte>)
  {
    if maxLen == 0 || !c.used || c.rx == [] then (c, [])
    else
      (c.(rx := c.rx[1..]), if |c.rx[0]| > maxLen then c.rx[0][..maxLen] else c.rx[0])
  }

  /** net_tcp_close on a slot that is not a listener. */
  function Close(c: Conn, now: u32, nic: bool): (Conn, int, seq<Segment>)
  {
    if !c.used then (c, 0, [])
    else if (c.state.Established? || c.state.CloseWait?) && nic then
      var (c1, ok, out) := SendAndTrack(c, FINACK, [], now, nic);
      (c1.(state := Closing), 1, out)
    else (Free(c), 1, [])
  }

  function MaxRetries(s: State): nat { if s.SynSent? || s.SynRcvd? then RETX_MAX + 2 else RETX_MAX }

  /** Back-off: 20 ticks doubled per retry, at most four times. */
  function Timeout(retries: nat): nat
  {
    RETX_TICKS * match retries case 0 => 1 case 1 => 2 case 2 => 4 case 3 => 8 case _ => 16
  }

  /** tcp_retransmit_last. */
  function Retransmit(c: Conn, now: u32, nic: bool): (Conn, bool, seq<Segment>)
  {
    if !c.used || !c.waitingAck then (c, false, [])
    else if c.retries >= MaxRetries(c.state) then (Free(c), false, [])
    else if !nic then (c, false, [])
    else (c.(lastTick := now, retries := c.retries + 1), true, [c.last])
  }

  /** The body of net_tcp_poll for one slot. */
  function Poll(c: Conn, now: u32, nic: bool): (Conn, bool, seq<Segment>)
  {
    if c.used && c.waitingAck && Sub32(now, c.lastTick) >= Timeout(c.retries)
    then Retransmit(c, now, nic) else (c, false, [])
  }

  /** A connection slot updated in place, with its receive ring. */
  class Slot {
    var used: bool
    var state: State
    var sndUna: u32
    var sndNxt: u32
    var rcvNxt: u32
    var rxQueue: array<seq<byte>>
    var rxHead: nat
    var rxTail: nat
    var rxCount: nat
    var last: Segment
    var lastTick: u32
    var retries: nat
    var waitingAck: bool

    ghost predicate Valid()
      reads this, rxQueue
    {
      rxQueue.Length == QUEUE_DEPTH && Ring.Fits(rxQueue[..], rxHead, rxTail, rxCount)
    }

    /** The queued segments, oldest first. */
    ghost function Rx(): (r: seq<seq<byte>>)
      requires Valid()
      reads this, rxQueue
    {
      Ring.Contents(rxQueue[..], rxHead, rxCount)
    }

    ghost function View(): Conn
      requires Valid()
      reads this, rxQueue
    {
      Conn(used, state, sndUna, sndNxt, rcvNxt, Rx(), last, lastTick, retries, waitingAck)
    }

    constructor Active(iss: u32, now: u32)
      ensures Valid() && fresh(rxQueue) && View() == Connect(iss, now)
    {
      used, state := true, SynSent;
      sndUna, sndNxt, rcvNxt := iss, (iss + 1) % TWO32, 0;
      rxQueue := new seq<byte>[QUEUE_DEPTH](_ => []);
      rxHead, rxTail, rxCount := 0, 0, 0;
      last, lastTick, retries, waitingAck := Segment(iss, 0, SYN, []), now, 0, true;
    }

    constructor Passive(iss: u32, syn: Segment, now: u32)
      ensures Valid() && fresh(rxQueue) && View() == AcceptSyn(iss, syn, now)
    {
      used, state := true, SynRcvd;
      sndUna, sndNxt, rcvNxt := iss, (iss + 1) % TWO32, (syn.seqno + 1) % TWO32;
      rxQueue := new seq<byte>[QUEUE_DEPTH](_ => []);
      rxHead, rxTail, rxCount := 0, 0, 0;
      last, lastTick, retries, waitingAck := Segment(iss, (syn.seqno + 1) % TWO32, SYNACK, []), now, 0, true;
    }

    method Enqueue(payload: seq<byte>) returns (ok: bool)
      requires Valid()
      modifies this`rxTail, this`rxCount, rxQueue
      ensures Valid()
      ensures (View(), ok) == QueueRx(old(View()), payload)
    {
      if payload == [] { return true; }
      if |payload| > MAX_PAYLOAD || rxCount >= QUEUE_DEPTH { return false; }
      Ring.Push(rxQueue[..], rxHead, rxTail, rxCount, payload);
      ghost var after := rxQueue[..][rxTail := payload];
      rxQueue[rxTail] := payload;
      assert rxQueue[..] == after;
      rxTail := (rxTail + 1) % QUEUE_DEPTH;
      rxCount := rxCount + 1;
      ok := true;
    }

    method SendTracked(flags: Flags, payload: seq<byte>, now: u32, nic: bool) returns (ok: bool, out: seq<Segment>)
      requires Valid()
      modifies this`sndNxt, this`last, this`lastTick, this`retries, this`waitingAck
      ensures Valid() && Rx() == old(Rx())
      ensures (View(), ok, out) == SendAndTrack(old(View()), flags, payload, now, nic)
    {
      if !nic { return false, []; }
      last := Segment(sndNxt, rcvNxt, flags, payload);
      lastTick, retries := now, 0;
      waitingAck := flags.syn || flags.fin || |payload| > 0;
      out := [last];
      if flags.syn || flags.fin {
        sndNxt := (sndNxt + 1) % TWO32;
      }
      sndNxt := (sndNxt + |payload|) % TWO32;
      ok := true;
    }

    method HandleSegment(seg: Segment, lossy: bool) returns (ret: int, out: seq<Segment>)
      requires Valid()
      modifies this, rxQueue
      ensures Valid() && rxQueue == old(rxQueue)
      ensures (View(), ret, out) == Handle(old(View()), seg, lossy)
    {
      if !used || state.Closed? { return 0, []; }
      if seg.flags.rst {
        used, state := false, Closed;
        return 1, [];
      }
      if state.Closing? {
        ret, out := AcceptClosing(seg);
        return;
      }
      if state.SynSent? || state.SynRcvd? {
        ret, out := AcceptHandshake(seg);
        return;
      }
      if state.Established? || state.CloseWait? {
        AcceptAck(seg);
        ret, out := AcceptOpen(seg, lossy);
        return;
      }
      ret, out := 0, [];
    }

    method AcceptClosing(seg: Segment) returns (ret: int, out: seq<Segment>)
      requires Valid()
      modifies this`sndUna, this`rcvNxt, this`waitingAck, this`state, this`used
      ensures Valid()
      ensures (View(), ret, out) == HandleClosing(old(View()), seg)
    {
      ret, out := 0, [];
      if seg.flags.ack && seg.ackno >= sndNxt {
        sndUna, waitingAck, state, used := seg.ackno, false, Closed, false;
        ret := 1;
      } else if seg.flags.fin {
        if seg.seqno == rcvNxt { rcvNxt := (rcvNxt + 1) % TWO32; }
        ret, out := 1, [Segment(sndNxt, rcvNxt, ACK, [])];
      }
    }

    method AcceptHandshake(seg: Segment) returns (ret: int, out: seq<Segment>)
      requires Valid()
      modifies this`sndUna, this`rcvNxt, this`waitingAck, this`state
      ensures Valid()
      ensures (View(), ret, out) == HandleHandshake(old(View()), seg)
    {
      ret, out := 0, [];
      if state.SynSent? && seg.flags.syn && seg.flags.ack && seg.ackno == sndNxt {
        rcvNxt, sndUna := (seg.seqno + 1) % TWO32, seg.ackno;
        state, waitingAck := Established, false;
        ret, out := 1, [Segment(sndNxt, rcvNxt, ACK, [])];
      } else if state.SynRcvd? && seg.flags.ack && seg.ackno == sndNxt {
        sndUna, state, waitingAck := seg.ackno, Established, false;
        ret := 1;
      }
    }

    method AcceptAck(seg: Segment)
      requires Valid()
      modifies this`sndUna, this`waitingAck
      ensures Valid() && Rx() == old(Rx())
      ensures View() == TakeAck(old(View()), seg)
    {
      if seg.flags.ack && seg.ackno > sndUna {
        sndUna := seg.ackno;
        if seg.ackno >= sndNxt { waitingAck := false; }
      }
    }

    method AcceptData(seg: Segment)
      requires Valid()
      modifies this`rcvNxt, this`rxTail, this`rxCount, rxQueue
      ensures Valid()
      ensures View() == TakeData(old(View()), seg)
    {
      if |seg.payload| > 0 && seg.seqno == rcvNxt {
        var ok := Enqueue(seg.payload);
        if ok {
          rcvNxt := (rcvNxt + |seg.payload|) % TWO32;
        }
      }
    }

    method AcceptOpen(seg: Segment, lossy: bool) returns (ret: int, out: seq<Segment>)
      requires Valid()
      modifies this`rcvNxt, this`rxTail, this`rxCount, this`state, rxQueue
      ensures Valid()
      ensures (View(), ret, out) == HandleOpen(old(View()), seg, lossy)
    {
      ret, out := 1, [];
      if |seg.payload| > 0 && lossy {
        out := [Segment(sndNxt, rcvNxt, ACK, [])];
        return;
      }
      AcceptData(seg);
      if |seg.payload| > 0 {
        out := [Segment(sndNxt, rcvNxt, ACK, [])];
      }
      if seg.flags.fin {
        if seg.seqno == rcvNxt { rcvNxt := (rcvNxt + 1) % TWO32; }
        state := CloseWait;
        out := out + [Segment(sndNxt, rcvNxt, ACK, [])];
      }
    }

    method Send(payload: seq<byte>, now: u32, nic: bool) returns (n: int, out: seq<Segment>)
      requires Valid()
      modifies this
      ensures Valid() && rxQueue == old(rxQueue)
      ensures (View(), n, out) == AppSend(old(View()), payload, now, nic)
    {
      if payload == [] || !used || !state.Established? { return 0, []; }
      n := if |payload| > MAX_PAYLOAD then MAX_PAYLOAD else |payload|;
      var ok;
      ok, out := SendTracked(PSHACK, payload[..n], now, nic);
      if !ok { n := 0; }
    }

    method Receive(maxLen: nat) returns (data: seq<byte>)
      requires Valid()
      modifies this`rxHead, this`rxCount
      ensures Valid()
      ensures (View(), data) == Recv(old(View()), maxLen)
    {
      if maxLen == 0 || !used || rxCount == 0 { return []; }
      Ring.Pop(rxQueue[..], rxHead, rxTail, rxCount);
      data := rxQueue[rxHead];
      if |data| > maxLen { data := data[..maxLen]; }
      rxHead := (rxHead + 1) % QUEUE_DEPTH;
      rxCount := rxCount - 1;
    }

    method CloseSlot(now: u32, nic: bool) returns (ret: int, out: seq<Segment>)
      requires Valid()
      modifies this
      ensures Valid() && rxQueue == old(rxQueue)
      ensures (View(), ret, out) == Close(old(View()), now, nic)
    {
      if !used { return 0, []; }
      if state.Established? || state.CloseWait? {
        var ok;
        ok, out := SendTracked(FINACK, [], now, nic);
        if ok {
          state := Closing;
          return 1, out;
        }
      }
      used, state := false, Closed;
      return 1, [];
    }

    method PollSlot(now: u32, nic: bool) returns (sent: bool, out: seq<Segment>)
      requires Valid()
      modifies this
      ensures Valid() && rxQueue == old(rxQueue)
      ensures (View(), sent, out) == Poll(old(View()), now, nic)
    {
      sent, out := false, [];
      if !used || !waitingAck { return; }
      var shift := if retries > 4 then 4 else retries;
      var timeout := RETX_TICKS * [1, 2, 4, 8, 16][shift];
      if Sub32(now, lastTick) >= timeout {
        if retries >= MaxRetries(state) {
          used, state := false, Closed;
        } else if nic {
          lastTick, retries := now, retries + 1;
          sent, out := true, [last];
        }
      }
    }
  }
}
