/** Reassembly of IPv4 fragments in four slots, each with a bitmap of the 8-byte
    blocks that have arrived. */
module Reassembly {
  import opened Wrappers
  import opened Bytes
  import opened Ipv4
  import Bitmap

  const SLOTS: nat := 4
  const MAX_PAYLOAD: nat := 4096
  const BITMAP_BYTES: nat := 64
  const TIMEOUT: nat := 300

  datatype SlotRecord = SlotRecord(
    used: bool, src: u32, dst: u32, ident: u16, proto: byte,
    haveFirst: bool, totalKnown: bool, totalLen: nat, lastTick: u32,
    header: seq<byte>, payload: seq<byte>, present: seq<byte>)

  predicate Wf(s: SlotRecord)
  {
    && |s.payload| == MAX_PAYLOAD && |s.present| == BITMAP_BYTES
    && s.totalLen <= MAX_PAYLOAD && |s.header| <= MAX_HEADER
    && (s.haveFirst ==> |s.header| >= HEADER)
  }

  function NoBlocks(): (r: seq<byte>)
    ensures |r| == BITMAP_BYTES && forall i :: 0 <= i < |r| ==> r[i] == 0
  {
    seq(BITMAP_BYTES, _ => 0)
  }

  const EMPTY := SlotRecord(false, 0, 0, 0, 0, false, false, 0, 0, [],
                            seq(MAX_PAYLOAD, _ => 0), NoBlocks())

  type Slot = s: SlotRecord | Wf(s) witness EMPTY

  type Slots = s: seq<Slot> | |s| == SLOTS witness seq(SLOTS, _ => EMPTY)

  predicate Matches(s: Slot, f: Incoming)
  {
    s.used && s.src == f.src && s.dst == f.dst && s.ident == f.ident && s.proto == f.proto
  }

  function Offset(f: Incoming): nat { f.fragOff % 0x2000 * 8 }

  predicate MoreFollow(f: Incoming) { f.fragOff / 0x2000 % 2 == 1 }

  /** The fragment is refused before any slot is touched. */
  predicate Refused(f: Incoming)
  {
    |f.header| < HEADER || |f.header| > MAX_HEADER || Offset(f) + |f.payload| > MAX_PAYLOAD
  }

  predicate Expired(s: Slot, now: u32) { (now - s.lastTick) % TWO32 > TIMEOUT }

  function Expire(s: Slot, now: u32): Slot { if s.used && Expired(s, now) then s.(used := false) else s }

  function Collect(slots: Slots, now: u32): Slots { seq(SLOTS, i requires 0 <= i < SLOTS => Expire(slots[i], now)) }

  /** First of the slots from `i` on that holds the fragment's datagram, or -1. */
  function FirstMatch(slots: Slots, f: Incoming, i: nat): (r: int)
    requires i <= SLOTS
    ensures r == -1 || i <= r < SLOTS
    ensures r >= 0 ==> Matches(slots[r], f)
    ensures forall k :: i <= k < (if r >= 0 then r else SLOTS) ==> !Matches(slots[k], f)
    decreases SLOTS - i
  {
    if i == SLOTS then -1 else if Matches(slots[i], f) then i else FirstMatch(slots, f, i + 1)
  }

  /** First unused slot below `n`, or -1. */
  function FirstFree(slots: Slots, n: nat): (r: int)
    requires n <= SLOTS
    ensures -1 <= r < n && (r >= 0 ==> !slots[r].used)
  {
    if n == 0 then -1
    else
      var r := FirstFree(slots, n - 1);
      if r >= 0 then r else if !slots[n - 1].used then n - 1 else -1
  }

  /** The slot below `n` with the smallest time stamp, or -1. */
  function Oldest(slots: Slots, n: nat): (r: int)
    requires n <= SLOTS
    ensures -1 <= r < n
  {
    if n == 0 then -1
    else
      var r := Oldest(slots, n - 1);
      if slots[n - 1].lastTick < (if r >= 0 then slots[r].lastTick else 0xFFFF_FFFF) then n - 1 else r
  }

  function Choose(slots: Slots, f: Incoming): (r: nat)
    ensures r < SLOTS
    ensures forall k :: 0 <= k < SLOTS && Matches(slots[k], f) ==> Matches(slots[r], f)
  {
    var m := FirstMatch(slots, f, 0);
    var e := FirstFree(slots, SLOTS);
    var o := Oldest(slots, SLOTS);
    if m >= 0 then m else if e >= 0 then e else if o >= 0 then o else 0
  }

  function Claim(s: Slot, f: Incoming): Slot
  {
    if Matches(s, f) then s
    else s.(used := true, src := f.src, dst := f.dst, ident := f.ident, proto := f.proto,
            header := [], haveFirst := false, totalKnown := false, totalLen := 0,
            present := NoBlocks())
  }

  function MarkBlocks(present: seq<byte>, first: nat, last: nat): (r: seq<byte>)
    requires first <= last <= 8 * |present|
    ensures |r| == |present|
    ensures forall b :: 0 <= b < 8 * |present| ==>
      Bitmap.Test(r, b) == (first <= b < last || Bitmap.Test(present, b))
  {
    if first == last then present else Bitmap.Put(MarkBlocks(present, first, last - 1), last - 1, true)
  }

  function Blocks(n: nat): nat { (n + 7) / 8 }

  function Fill(s: Slot, f: Incoming, now: u32): (r: Slot)
    requires !Refused(f)
  {
    var off, end := Offset(f), Offset(f) + |f.payload|;
    var s1 := s.(lastTick := now);
    var s2 := if off == 0 then s1.(header := f.header, haveFirst := true) else s1;
    var s3 := if |f.payload| == 0 then s2
              else
                s2.(payload := Splice(s.payload, off, f.payload),
                    present := MarkBlocks(s.present, off / 8, Blocks(end)));
    if MoreFollow(f) then s3 else s3.(totalKnown := true, totalLen := end)
  }

  predicate Complete(s: Slot)
  {
    s.haveFirst && s.totalKnown && forall b :: 0 <= b < Blocks(s.totalLen) ==> Bitmap.Test(s.present, b)
  }

  /** The first fragment's header with length, fragment field and checksum redone, and the payload. */
  function Assembled(s: Slot): seq<byte>
    requires s.haveFirst
  {
    var h := Splice(Splice(s.header, 2, Be16(|s.header| + s.totalLen)), 6, [0, 0]);
    Checksummed(h, 10) + s.payload[..s.totalLen]
  }

  /** Put the slot back, or free it and hand out its datagram when it is complete. */
  function Settle(slots: Slots, i: nat, s: Slot): (Slots, Option<seq<byte>>)
    requires i < SLOTS
  {
    if Complete(s) then (slots[i := s.(used := false)], Some(Assembled(s))) else (slots[i := s], None)
  }

  /** ipv4_reassemble_packet. */
  function Reassemble(slots: Slots, f: Incoming, now: u32): (Slots, Option<seq<byte>>)
  {
    if Refused(f) then (slots, None)
    else
      var live := Collect(slots, now);
      var i := Choose(live, f);
      Settle(live, i, Fill(Claim(live[i], f), f, now))
  }

  // ---- Timeouts and eviction --------------------------------------------

  /** Ticks since the slot last took a fragment, on the 32-bit clock. */
  function AgeOf(s: Slot, now: u32): nat { (now - s.lastTick) % TWO32 }

  /** In use, and last touched at most 300 ticks ago. */
  predicate Current(s: Slot, now: u32) { s.used && AgeOf(s, now) <= 300 }

  /** The slot a fragment goes to: the current one of its datagram, else the first that is not
      current, else, all being current, the first with the smallest stamp. */
  ghost predicate Placed(slots: Slots, f: Incoming, now: u32, c: nat)
  {
    && c < SLOTS
    && ((exists k :: 0 <= k < SLOTS && Current(slots[k], now) && Matches(slots[k], f)) ==>
         Current(slots[c], now) && Matches(slots[c], f))
    && ((forall k :: 0 <= k < SLOTS && Current(slots[k], now) ==> !Matches(slots[k], f)) ==>
         if exists k :: 0 <= k < SLOTS && !Current(slots[k], now)
         then !Current(slots[c], now) && forall k :: 0 <= k < c ==> Current(slots[k], now)
         else (forall k :: 0 <= k < SLOTS ==> slots[c].lastTick <= slots[k].lastTick)
              && forall k :: 0 <= k < c ==> slots[c].lastTick < slots[k].lastTick)
  }

  lemma {:induction false} FreeIsFirst(slots: Slots, n: nat)
    requires n <= SLOTS
    ensures var r := FirstFree(slots, n);
      forall k :: 0 <= k < (if r >= 0 then r else n) ==> slots[k].used
  {
    if n > 0 { FreeIsFirst(slots, n - 1); }
  }

  lemma {:induction false} OldestIsFirst(slots: Slots, n: nat)
    requires n <= SLOTS
    ensures var r := Oldest(slots, n);
      && (r < 0 ==> forall k :: 0 <= k < n ==> slots[k].lastTick == 0xFFFF_FFFF)
      && (r >= 0 ==> forall k :: 0 <= k < n ==> slots[r].lastTick <= slots[k].lastTick)
      && (r >= 0 ==> forall k :: 0 <= k < r ==> slots[r].lastTick < slots[k].lastTick)
  {
    if n > 0 { OldestIsFirst(slots, n - 1); }
  }

  lemma Collected(slots: Slots, now: u32)
    ensures var live := Collect(slots, now);
      forall k :: 0 <= k < SLOTS ==> live[k] == if Current(slots[k], now) then slots[k] else slots[k].(used := false)
  {
  }

  lemma ChosenIsPlaced(slots: Slots, f: Incoming, now: u32)
    ensures Placed(slots, f, now, Choose(Collect(slots, now), f))
  {
    var live := Collect(slots, now);
    Collected(slots, now);
    FreeIsFirst(live, SLOTS);
    OldestIsFirst(live, SLOTS);
  }

  /** The slot holds the fragment's blocks and no others, its header if it is the first, and
      the total length if it is the last. */
  predicate HoldsOnly(s: Slot, f: Incoming)
    requires !Refused(f)
  {
    var first, last := Offset(f) / 8, Blocks(Offset(f) + |f.payload|);
    && s.src == f.src && s.dst == f.dst && s.ident == f.ident && s.proto == f.proto
    && (forall b :: 0 <= b < 8 * BITMAP_BYTES ==> (Bitmap.Test(s.present, b) <==> |f.payload| > 0 && first <= b < last))
    && (s.haveFirst <==> Offset(f) == 0) && s.header == (if Offset(f) == 0 then f.header else [])
    && (s.totalKnown <==> !MoreFollow(f)) && s.totalLen == if MoreFollow(f) then 0 else Offset(f) + |f.payload|
  }

  /** After the fragment no used slot is older than 300 ticks. All slots but `c` stay as they
      are, except that those that are not current are free; and `c` starts anew unless it was
      current and the datagram's. */
  ghost predicate TakenAt(slots: Slots, f: Incoming, now: u32, slots': Slots, c: nat)
    requires !Refused(f)
  {
    && c < SLOTS && (forall k :: 0 <= k < SLOTS && slots'[k].used ==> Current(slots'[k], now))
    && (forall k :: 0 <= k < SLOTS && k != c ==>
         slots'[k] == if Current(slots[k], now) then slots[k] else slots[k].(used := false))
    && slots'[c].lastTick == now
    && (!(Current(slots[c], now) && Matches(slots[c], f)) ==> HoldsOnly(slots'[c], f))
  }

  lemma TimeoutLaw(slots: Slots, f: Incoming, now: u32) returns (c: nat)
    requires !Refused(f)
    ensures Placed(slots, f, now, c) && TakenAt(slots, f, now, Reassemble(slots, f, now).0, c)
  {
    ChosenIsPlaced(slots, f, now);
    c := Choose(Collect(slots, now), f);
    TakenByChosen(slots, f, now);
  }

  lemma TakenByChosen(slots: Slots, f: Incoming, now: u32)
    requires !Refused(f)
    ensures TakenAt(slots, f, now, Reassemble(slots, f, now).0, Choose(Collect(slots, now), f))
  {
    var live := Collect(slots, now);
    Collected(slots, now);
    Stored(slots, f, now);
    OwnTaken(slots, f, now);
    Together(slots, live, Reassemble(slots, f, now).0, f, now, Choose(live, f));
  }

  lemma OwnTaken(slots: Slots, f: Incoming, now: u32)
    requires !Refused(f)
    ensures var c, slots' := Choose(Collect(slots, now), f), Reassemble(slots, f, now).0;
      slots'[c].lastTick == now && (!(Current(slots[c], now) && Matches(slots[c], f)) ==> HoldsOnly(slots'[c], f))
  {
    var live := Collect(slots, now);
    var c := Choose(live, f);
    Stored(slots, f, now);
    Collected(slots, now);
    if !(Current(slots[c], now) && Matches(slots[c], f)) { StartsAnew(live[c], f, now); }
  }

  lemma Together(slots: Slots, live: Slots, slots': Slots, f: Incoming, now: u32, c: nat)
    requires !Refused(f) && c < SLOTS && slots'[c].lastTick == now
    requires forall k :: 0 <= k < SLOTS ==>
      live[k] == if Current(slots[k], now) then slots[k] else slots[k].(used := false)
    requires forall k :: 0 <= k < SLOTS && k != c ==> slots'[k] == live[k]
    requires !(Current(slots[c], now) && Matches(slots[c], f)) ==> HoldsOnly(slots'[c], f)
    ensures TakenAt(slots, f, now, slots', c)
  {
  }

  /** Apart from the slot chosen, which takes the fragment, the table is the collected one. */
  lemma Stored(slots: Slots, f: Incoming, now: u32)
    requires !Refused(f)
    ensures var live, slots' := Collect(slots, now), Reassemble(slots, f, now).0;
      var s := Fill(Claim(live[Choose(live, f)], f), f, now);
      && (forall k :: 0 <= k < SLOTS && k != Choose(live, f) ==> slots'[k] == live[k])
      && slots'[Choose(live, f)] in {s, s.(used := false)} && s.lastTick == now
  {
    var live := Collect(slots, now);
    var s := Fill(Claim(live[Choose(live, f)], f), f, now);
    OneSettled(live, Choose(live, f), s);
    StampIsNow(live[Choose(live, f)], f, now);
  }

  /** Each slot is stamped `now`, or as before, or as before but free. */
  predicate Stamped(slots: Slots, slots': Slots, now: u32)
  {
    forall k :: 0 <= k < SLOTS ==>
      slots'[k].lastTick == now || slots'[k] == slots[k] || slots'[k] == slots[k].(used := false)
  }

  lemma AllStamped(slots: Slots, f: Incoming, now: u32)
    requires !Refused(f)
    ensures Stamped(slots, Reassemble(slots, f, now).0, now)
  {
    Collected(slots, now);
    Stored(slots, f, now);
  }

  lemma OneSettled(slots: Slots, i: nat, s: Slot)
    requires i < SLOTS
    ensures Settle(slots, i, s).0 == slots[i := s] || Settle(slots, i, s).0 == slots[i := s.(used := false)]
  {
  }

  lemma StampIsNow(s: Slot, f: Incoming, now: u32)
    requires !Refused(f)
    ensures Fill(Claim(s, f), f, now).lastTick == now
  {
  }

  lemma StartsAnew(s: Slot, f: Incoming, now: u32)
    requires !Refused(f) && !Matches(s, f)
    ensures var s' := Fill(Claim(s, f), f, now); HoldsOnly(s', f) && HoldsOnly(s'.(used := false), f)
  {
    NoBits();
  }

  lemma NoBits()
    ensures forall b :: 0 <= b < 8 * BITMAP_BYTES ==> !Bitmap.Test(NoBlocks(), b)
  {
    forall b | 0 <= b < 8 * BITMAP_BYTES ensures !Bitmap.Test(NoBlocks(), b) {
      Bitmap.ZeroBits(b % 8);
    }
  }

  /** The slot table updated in place. */
  class Reassembler {
    var slots: Slots

    method CollectExpired(now: u32)
      modifies this
      ensures slots == Collect(old(slots), now)
    {
      for i := 0 to SLOTS
        invariant forall k :: 0 <= k < SLOTS ==> slots[k] == if k < i then Expire(old(slots)[k], now) else old(slots)[k]
      {
        if slots[i].used && (now - slots[i].lastTick) % TWO32 > TIMEOUT {
          slots := slots[i := slots[i].(used := false)];
        }
      }
    }

    method FindSlot(f: Incoming) returns (idx: nat)
      ensures idx == Choose(slots, f)
    {
      var slotIdx, oldestIdx, oldestTick := -1, -1, 0xFFFF_FFFF;
      var i := 0;
      while i < SLOTS
        invariant 0 <= i <= SLOTS
        invariant FirstMatch(slots, f, 0) == FirstMatch(slots, f, i)
        invariant slotIdx == FirstFree(slots, i)
        invariant slotIdx < 0 ==> oldestIdx == Oldest(slots, i)
        invariant slotIdx < 0 ==> oldestTick == if oldestIdx >= 0 then slots[oldestIdx].lastTick else 0xFFFF_FFFF
      {
        if !slots[i].used {
          if slotIdx < 0 { slotIdx := i; }
        } else if Matches(slots[i], f) {
          return i;
        } else if slots[i].lastTick < oldestTick {
          oldestTick, oldestIdx := slots[i].lastTick, i;
        }
        i := i + 1;
      }
      if slotIdx < 0 {
        slotIdx := if oldestIdx >= 0 then oldestIdx else 0;
      }
      idx := slotIdx;
    }

    method Mark(present: seq<byte>, first: nat, last: nat) returns (r: seq<byte>)
      requires first <= last <= 8 * |present|
      ensures r == MarkBlocks(present, first, last)
    {
      r := present;
      for b := first to last
        invariant r == MarkBlocks(present, first, b)
      {
        r := Bitmap.Put(r, b, true);
      }
    }

    method AllPresent(s: Slot) returns (all: bool)
      ensures all == forall b :: 0 <= b < Blocks(s.totalLen) ==> Bitmap.Test(s.present, b)
    {
      for b := 0 to Blocks(s.totalLen)
        invariant forall k :: 0 <= k < b ==> Bitmap.Test(s.present, k)
      {
        if !Bitmap.Test(s.present, b) { return false; }
      }
      all := true;
    }

    method Store(s0: Slot, f: Incoming, now: u32) returns (s: Slot)
      requires !Refused(f)
      ensures s == Fill(s0, f, now)
    {
      s := s0.(lastTick := now);
      var off, end := Offset(f), Offset(f) + |f.payload|;
      if off == 0 { s := s.(header := f.header, haveFirst := true); }
      if |f.payload| > 0 {
        var present := Mark(s.present, off / 8, Blocks(end));
        s := s.(payload := Splice(s.payload, off, f.payload), present := present);
      }
      if !MoreFollow(f) { s := s.(totalKnown := true, totalLen := end); }
    }

    method Receive(f: Incoming, now: u32) returns (out: Option<seq<byte>>)
      modifies this
      ensures (slots, out) == Reassemble(old(slots), f, now)
    {
      if Refused(f) { return None; }
      CollectExpired(now);
      var i := FindSlot(f);
      var s := Store(Claim(slots[i], f), f, now);
      out := PutBack(i, s);
    }

    method PutBack(i: nat, s: Slot) returns (out: Option<seq<byte>>)
      requires i < SLOTS
      modifies this
      ensures (slots, out) == Settle(old(slots), i, s)
    {
      if s.haveFirst && s.totalKnown {
        var all := AllPresent(s);
        if all {
          slots := slots[i := s.(used := false)];
          return Some(Assembled(s));
        }
      }
      slots := slots[i := s];
      out := None;
    }
  }
}
