/** Fragmenting and reassembling are inverse: any arrival order, any duplicates,
    any other traffic that leaves the datagram's slot alone. */
module RoundTrip {
  import opened Wrappers
  import opened Bytes
  import opened Ipv4
  import opened Reassembly
  import Bitmap
  import opened Sets

  /** A datagram that is fragmented and fits a reassembly slot. */
  predicate Fragmented(d: Datagram) { MTU - HEADER < |d.payload| <= MAX_PAYLOAD }

  function Count(d: Datagram): nat { FragmentCount(|d.payload|) }

  function All(d: Datagram): set<nat> { Below(Count(d)) }

  lemma FragmentExists(d: Datagram, i: nat)
    requires Fragmented(d)
    ensures i < Count(d) <==> i * FRAG < |d.payload|
    ensures 0 < Count(d)
  {
  }

  /** The `i`-th fragment as the receive checks pass it on. */
  function Arrived(d: Datagram, i: nat): Incoming
    requires Fragmented(d) && i < Count(d)
  {
    FragmentExists(d, i);
    var p := Fragment(d, i);
    Incoming(Header(p.head), p.payload, d.src, d.dst, d.proto, d.ident, p.head.flagsOff)
  }

  /** That is what the bytes on the wire are accepted as. */
  lemma WireArrives(d: Datagram, i: nat, padding: seq<byte>)
    requires Fragmented(d) && i < Count(d)
    ensures i * FRAG < |d.payload| && Accept(Wire(Fragment(d, i)) + padding) == Some(Arrived(d, i))
  {
    FragmentExists(d, i);
    BuiltIsAccepted(Fragment(d, i).head, Fragment(d, i).payload, padding);
  }

  lemma ArrivedShape(d: Datagram, i: nat)
    requires Fragmented(d) && i < Count(d)
    ensures var f := Arrived(d, i);
      && Offset(f) == i * FRAG && Offset(f) + |f.payload| == FragmentEnd(|d.payload|, i)
      && f.payload == d.payload[i * FRAG..FragmentEnd(|d.payload|, i)]
      && (MoreFollow(f) <==> i + 1 < Count(d)) && !Refused(f)
  {
    FragmentExists(d, i);
    FragmentArithmetic(|d.payload|, i);
    var more := if FragmentEnd(|d.payload|, i) < |d.payload| then MORE else 0;
    FlagField(i * 185, more);
  }

  lemma FlagField(units: nat, more: nat)
    requires units < 0x2000 && (more == 0 || more == MORE)
    ensures (units + more) % 0x2000 == units
    ensures (units + more) / 0x2000 % 2 == 1 <==> more == MORE
  {
  }

  /** The slot holds exactly the fragments in `seen`. */
  ghost predicate Tracks(s: Slot, d: Datagram, seen: set<nat>)
    requires Fragmented(d)
  {
    && s.src == d.src && s.dst == d.dst && s.ident == d.ident && s.proto == d.proto
    && seen <= All(d)
    && (s.haveFirst <==> 0 in seen)
    && (s.haveFirst ==> 0 < Count(d) && s.header == Arrived(d, 0).header)
    && (s.totalKnown <==> Count(d) - 1 in seen)
    && (s.totalKnown ==> s.totalLen == |d.payload|)
    && (forall b :: 0 <= b < 8 * BITMAP_BYTES ==>
          (Bitmap.Test(s.present, b) <==> b < Blocks(|d.payload|) && b / 185 in seen))
    && (forall k :: 0 <= k < |d.payload| && k / FRAG in seen ==> s.payload[k] == d.payload[k])
  }

  /** The blocks and bytes of fragment `i` are those that divide down to `i`. */
  lemma FragmentExtent(n: nat, i: nat, b: nat, k: nat)
    requires i * FRAG < n <= MAX_PAYLOAD
    ensures (i * FRAG / 8 <= b < Blocks(FragmentEnd(n, i))) <==> (b < Blocks(n) && b / 185 == i)
    ensures (i * FRAG <= k < FragmentEnd(n, i)) <==> (k < n && k / FRAG == i)
  {
    assert i * FRAG / 8 == i * 185;
    assert Blocks((i + 1) * FRAG) == (i + 1) * 185;
  }

  lemma FillPresent(s: Slot, d: Datagram, seen: set<nat>, i: nat)
    requires Fragmented(d) && i < Count(d) && Tracks(s, d, seen)
    ensures var end := FragmentEnd(|d.payload|, i);
      var p := MarkBlocks(s.present, i * FRAG / 8, Blocks(end));
      forall b :: 0 <= b < 8 * BITMAP_BYTES ==>
        (Bitmap.Test(p, b) <==> b < Blocks(|d.payload|) && b / 185 in seen + {i})
  {
    FragmentExists(d, i);
    var p := MarkBlocks(s.present, i * FRAG / 8, Blocks(FragmentEnd(|d.payload|, i)));
    forall b | 0 <= b < 8 * BITMAP_BYTES
      ensures Bitmap.Test(p, b) <==> b < Blocks(|d.payload|) && b / 185 in seen + {i}
    {
      FragmentExtent(|d.payload|, i, b, 0);
    }
  }

  lemma FillPayload(s: Slot, d: Datagram, seen: set<nat>, i: nat)
    requires Fragmented(d) && i < Count(d) && Tracks(s, d, seen)
    ensures i * FRAG < |d.payload|
    ensures var q := Splice(s.payload, i * FRAG, d.payload[i * FRAG..FragmentEnd(|d.payload|, i)]);
      forall k :: 0 <= k < |d.payload| && k / FRAG in seen + {i} ==> q[k] == d.payload[k]
  {
    FragmentExists(d, i);
    var end := FragmentEnd(|d.payload|, i);
    var q := Splice(s.payload, i * FRAG, d.payload[i * FRAG..end]);
    forall k | 0 <= k < |d.payload| && k / FRAG in seen + {i} ensures q[k] == d.payload[k] {
      FragmentExtent(|d.payload|, i, 0, k);
    }
  }

  /** Storing fragment `i` adds it to what the slot holds. */
  lemma FillTracks(s: Slot, d: Datagram, seen: set<nat>, i: nat, now: u32)
    requires Fragmented(d) && i < Count(d) && Tracks(s, d, seen)
    ensures !Refused(Arrived(d, i))
    ensures Tracks(Fill(s, Arrived(d, i), now), d, seen + {i})
    ensures Fill(s, Arrived(d, i), now).used == s.used
  {
    ArrivedShape(d, i);
    FragmentExists(d, i);
    FillPresent(s, d, seen, i);
    FillPayload(s, d, seen, i);
    FragmentArithmetic(|d.payload|, i);
  }

  /** The slot is complete exactly when every fragment is in. */
  lemma CompleteIff(s: Slot, d: Datagram, seen: set<nat>)
    requires Fragmented(d) && Tracks(s, d, seen)
    ensures Complete(s) <==> seen == All(d)
  {
    FragmentExists(d, 0);
    if Complete(s) {
      forall i | i in All(d) ensures i in seen {
        FragmentExists(d, i);
        FragmentExtent(|d.payload|, i, i * 185, 0);
        assert Bitmap.Test(s.present, i * 185);
      }
    }
    if seen == All(d) {
      forall b | 0 <= b < Blocks(|d.payload|) ensures Bitmap.Test(s.present, b) {
        assert b / 185 * FRAG < |d.payload|;
        FragmentExists(d, b / 185);
      }
    }
  }

  /** A complete slot yields the packet the datagram would have been unfragmented. */
  lemma AssembledIsWhole(s: Slot, d: Datagram)
    requires Fragmented(d) && Tracks(s, d, All(d))
    ensures s.haveFirst && Assembled(s) == Wire(Whole(d))
  {
    FragmentExists(d, 0);
    assert Count(d) - 1 in All(d) && 0 in All(d);
    forall k | 0 <= k < |d.payload| ensures s.payload[k] == d.payload[k] {
      assert k / FRAG * FRAG < |d.payload|;
      FragmentExists(d, k / FRAG);
    }
    assert s.payload[..s.totalLen] == d.payload;
    HeaderRedone(Fragment(d, 0).head, Whole(d).head);
  }

  lemma HeaderRedone(h: Head, w: Head)
    requires w == h.(totalLen := w.totalLen, flagsOff := 0)
    ensures Checksummed(Splice(Splice(Header(h), 2, Be16(w.totalLen)), 6, [0, 0]), 10) == Header(w)
  {
    var a := Splice(Splice(Header(h), 2, Be16(w.totalLen)), 6, [0, 0]);
    var b := RawHeader(w);
    var raw := RawHeader(h);
    assert forall i :: 0 <= i < 20 && i != 10 && i != 11 ==> a[i] == b[i];
    ChecksummedAgain(a, b, 10);
  }

  // ---- Runs ------------------------------------------------------------

  /** A fragment of the datagram, or a fragment of another one. */
  datatype Arrival = Own(i: nat, now: u32) | Other(f: Incoming, now: u32)

  predicate SameKey(f: Incoming, d: Datagram)
  {
    f.src == d.src && f.dst == d.dst && f.ident == d.ident && f.proto == d.proto
  }

  predicate Proper(d: Datagram, a: Arrival)
  {
    match a
    case Own(i, _) => i < Count(d)
    case Other(f, _) => !SameKey(f, d)
  }

  function InputOf(d: Datagram, a: Arrival): Incoming
    requires Fragmented(d) && Proper(d, a)
  {
    if a.Own? then Arrived(d, a.i) else a.f
  }

  function Seen(arr: seq<Arrival>): set<nat>
  {
    if arr == [] then {}
    else Seen(arr[..|arr| - 1]) + if arr[|arr| - 1].Own? then {arr[|arr| - 1].i} else {}
  }

  predicate Holds(s: Slot, d: Datagram)
  {
    s.used && s.src == d.src && s.dst == d.dst && s.ident == d.ident && s.proto == d.proto
  }

  /** The datagram's slot, if it has one, has not timed out when `a` arrives and is
      not the slot that another datagram's fragment takes. */
  predicate Undisturbed(slots: Slots, d: Datagram, a: Arrival)
    requires Fragmented(d) && Proper(d, a)
  {
    forall j :: 0 <= j < SLOTS && Holds(slots[j], d) ==>
      && (Refused(InputOf(d, a)) || !Expired(slots[j], a.now))
      && (a.Other? && !Refused(a.f) ==> Choose(Collect(slots, a.now), a.f) != j)
  }

  function After(slots: Slots, d: Datagram, arr: seq<Arrival>): Slots
    requires Fragmented(d) && forall k :: 0 <= k < |arr| ==> Proper(d, arr[k])
  {
    if arr == [] then slots
    else Reassemble(After(slots, d, arr[..|arr| - 1]), InputOf(d, arr[|arr| - 1]), arr[|arr| - 1].now).0
  }

  /** The datagram's fragments in `seen`, and no others, are in the table. */
  ghost predicate Table(slots: Slots, d: Datagram, seen: set<nat>)
    requires Fragmented(d)
  {
    && (seen == {} ==> forall j :: 0 <= j < SLOTS ==> !Holds(slots[j], d))
    && (seen != {} ==> exists j :: 0 <= j < SLOTS && Holds(slots[j], d))
    && (forall j :: 0 <= j < SLOTS && Holds(slots[j], d) ==> Tracks(slots[j], d, seen))
    && (forall j, k :: 0 <= j < k < SLOTS && Holds(slots[j], d) ==> !Holds(slots[k], d))
  }

  lemma FreshTracks(s: Slot, d: Datagram, f: Incoming)
    requires Fragmented(d) && SameKey(f, d) && !Matches(s, f)
    ensures Tracks(Claim(s, f), d, {})
  {
    NoBits();
  }

  /** The slot chosen for an own fragment, before it is stored, tracks what was seen. */
  lemma ChosenTracks(slots: Slots, d: Datagram, seen: set<nat>, i: nat, now: u32) returns (c: nat)
    requires Fragmented(d) && i < Count(d) && Table(slots, d, seen)
    requires Undisturbed(slots, d, Own(i, now))
    ensures var live := Collect(slots, now); var f := Arrived(d, i);
      && c == Choose(live, f) && Claim(live[c], f).used
      && Tracks(Claim(live[c], f), d, seen)
      && forall j :: 0 <= j < SLOTS && j != c ==> !Holds(live[j], d)
  {
    ArrivedShape(d, i);
    var live := Collect(slots, now);
    var f := Arrived(d, i);
    c := Choose(live, f);
    if seen == {} {
      FreshTracks(live[c], d, f);
    } else {
      var j :| 0 <= j < SLOTS && Holds(slots[j], d);
      assert live[j] == slots[j] && Matches(live[j], f);
    }
  }

  lemma Install(live: Slots, d: Datagram, seen: set<nat>, c: nat, s: Slot)
    requires Fragmented(d) && c < SLOTS && s.used && seen != {} && Tracks(s, d, seen)
    requires forall j :: 0 <= j < SLOTS && j != c ==> !Holds(live[j], d)
    ensures Table(live[c := s], d, seen)
  {
    assert Holds(live[c := s][c], d);
  }

  lemma OwnStep(slots: Slots, d: Datagram, seen: set<nat>, i: nat, now: u32)
    requires Fragmented(d) && i < Count(d) && Table(slots, d, seen)
    requires Undisturbed(slots, d, Own(i, now))
    ensures var (slots', out) := Reassemble(slots, Arrived(d, i), now);
      && (seen + {i} != All(d) ==> out == None && Table(slots', d, seen + {i}))
      && (seen + {i} == All(d) ==> out == Some(Wire(Whole(d))))
  {
    var f, live := Arrived(d, i), Collect(slots, now);
    var c := ChosenTracks(slots, d, seen, i, now);
    FillTracks(Claim(live[c], f), d, seen, i, now);
    var s := Fill(Claim(live[c], f), f, now);
    assert Reassemble(slots, f, now) == Settle(live, c, s);
    CompleteIff(s, d, seen + {i});
    if seen + {i} == All(d) {
      AssembledIsWhole(s, d);
    } else {
      Install(live, d, seen + {i}, c, s);
    }
  }

  lemma OtherStep(slots: Slots, d: Datagram, seen: set<nat>, f: Incoming, now: u32)
    requires Fragmented(d) && !SameKey(f, d) && Table(slots, d, seen)
    requires Undisturbed(slots, d, Other(f, now))
    ensures Table(Reassemble(slots, f, now).0, d, seen)
  {
    if !Refused(f) {
      var slots' := Reassemble(slots, f, now).0;
      OtherSlots(slots, d, f, now);
      SameHolders(slots, slots', d, seen);
    }
  }

  lemma OtherSlots(slots: Slots, d: Datagram, f: Incoming, now: u32)
    requires Fragmented(d) && !SameKey(f, d) && !Refused(f) && Undisturbed(slots, d, Other(f, now))
    ensures var slots' := Reassemble(slots, f, now).0;
      && (forall j :: 0 <= j < SLOTS ==> (Holds(slots'[j], d) <==> Holds(slots[j], d)))
      && (forall j :: 0 <= j < SLOTS && Holds(slots[j], d) ==> slots'[j] == slots[j])
  {
    var live := Collect(slots, now);
    var c := Choose(live, f);
    var slots' := Reassemble(slots, f, now).0;
    assert !Holds(slots'[c], d) && !Holds(slots[c], d);
    forall j | 0 <= j < SLOTS ensures Holds(slots'[j], d) <==> Holds(slots[j], d)
                              ensures Holds(slots[j], d) ==> slots'[j] == slots[j]
    {
      if j != c { assert slots'[j] == live[j]; }
    }
  }

  lemma SameHolders(slots: Slots, slots': Slots, d: Datagram, seen: set<nat>)
    requires Fragmented(d) && Table(slots, d, seen)
    requires forall j :: 0 <= j < SLOTS ==> (Holds(slots'[j], d) <==> Holds(slots[j], d))
    requires forall j :: 0 <= j < SLOTS && Holds(slots[j], d) ==> slots'[j] == slots[j]
    ensures Table(slots', d, seen)
  {
  }

  /** Every arrival of the run was proper and found the slot undisturbed. */
  predicate Quiet(slots: Slots, d: Datagram, arr: seq<Arrival>)
    requires Fragmented(d)
  {
    && (forall k :: 0 <= k < |arr| ==> Proper(d, arr[k]))
    && (arr == [] ||
        var before := arr[..|arr| - 1];
        Quiet(slots, d, before) && Undisturbed(After(slots, d, before), d, arr[|arr| - 1]))
  }

  lemma {:induction false} TableKept(slots: Slots, d: Datagram, arr: seq<Arrival>)
    requires Fragmented(d) && Quiet(slots, d, arr) && Seen(arr) != All(d)
    requires forall j :: 0 <= j < SLOTS ==> !Holds(slots[j], d)
    ensures Table(After(slots, d, arr), d, Seen(arr))
  {
    if arr != [] {
      var before, a := arr[..|arr| - 1], arr[|arr| - 1];
      SeenBelow(d, before);
      TableKept(slots, d, before);
      assert Seen(before) != All(d);
      TableStep(After(slots, d, before), d, Seen(before), a);
    }
  }

  lemma TableStep(slots: Slots, d: Datagram, seen: set<nat>, a: Arrival)
    requires Fragmented(d) && Proper(d, a) && Table(slots, d, seen) && Undisturbed(slots, d, a)
    requires seen + (if a.Own? then {a.i} else {}) != All(d)
    ensures Table(Reassemble(slots, InputOf(d, a), a.now).0, d, seen + if a.Own? then {a.i} else {})
  {
    if a.Own? {
      OwnStep(slots, d, seen, a.i, a.now);
    } else {
      OtherStep(slots, d, seen, a.f, a.now);
      assert seen + {} == seen;
    }
  }

  lemma {:induction false} SeenBelow(d: Datagram, arr: seq<Arrival>)
    requires forall k :: 0 <= k < |arr| ==> Proper(d, arr[k])
    ensures Seen(arr) <= All(d)
  {
    if arr != [] { SeenBelow(d, arr[..|arr| - 1]); }
  }

  /** Round trip: starting with no slot for the datagram, and as long as its set of
      fragments was incomplete, the next of its fragments to arrive yields a packet
      exactly when it completes the set, and that packet is the whole datagram. */
  lemma FragmentsReassemble(slots: Slots, d: Datagram, arr: seq<Arrival>, i: nat, now: u32)
    requires Fragmented(d) && Quiet(slots, d, arr + [Own(i, now)])
    requires forall j :: 0 <= j < SLOTS ==> !Holds(slots[j], d)
    requires Seen(arr) != All(d)
    ensures (arr + [Own(i, now)])[..|arr|] == arr && i < Count(d) && Quiet(slots, d, arr)
    ensures var out := Reassemble(After(slots, d, arr), Arrived(d, i), now).1;
      if Seen(arr + [Own(i, now)]) == All(d) then out == Some(Wire(Whole(d))) else out == None
  {
    var run := arr + [Own(i, now)];
    assert run[..|arr|] == arr && run[|arr|] == Own(i, now);
    assert Proper(d, run[|arr|]);
    TableKept(slots, d, arr);
    OwnStep(After(slots, d, arr), d, Seen(arr), i, now);
  }

  /** A fragment that comes more than 300 ticks after its datagram's last one yields nothing,
      and the slot holds it alone: what came before is gone. */
  lemma LateFragmentStartsOver(slots: Slots, d: Datagram, i: nat, now: u32)
    requires Fragmented(d) && i < Count(d)
    requires forall j :: 0 <= j < SLOTS && Holds(slots[j], d) ==> AgeOf(slots[j], now) > 300
    ensures var (slots', out) := Reassemble(slots, Arrived(d, i), now);
      out == None && Table(slots', d, {i})
  {
    var f, live := Arrived(d, i), Collect(slots, now);
    ArrivedShape(d, i);
    var c := Choose(live, f);
    FreshTracks(live[c], d, f);
    FillTracks(Claim(live[c], f), d, {}, i, now);
    var s := Fill(Claim(live[c], f), f, now);
    assert {} + {i} == {i};
    CompleteIff(s, d, {i});
    assert 0 in All(d) && 1 in All(d);
    Install(live, d, {i}, c, s);
  }

  /** Two fragments of a datagram with a gap of more than 300 ticks in between are never joined. */
  lemma GapSplits(slots: Slots, d: Datagram, i: nat, j: nat, before: u32, now: u32)
    requires Fragmented(d) && i < Count(d) && j < Count(d) && (now - before) % TWO32 > 300
    requires forall k :: 0 <= k < SLOTS ==> !Holds(slots[k], d)
    ensures var (slots', out) := Reassemble(Reassemble(slots, Arrived(d, i), before).0, Arrived(d, j), now);
      out == None && Table(slots', d, {j})
  {
    ArrivedShape(d, i);
    var slots1 := Reassemble(slots, Arrived(d, i), before).0;
    AllStamped(slots, Arrived(d, i), before);
    HoldersAge(slots, slots1, d, before, now);
    LateFragmentStartsOver(slots1, d, j, now);
  }

  /** If no slot held the datagram, one that does now was stamped since. */
  lemma HoldersAge(slots: Slots, slots': Slots, d: Datagram, before: u32, now: u32)
    requires Stamped(slots, slots', before) && (now - before) % TWO32 > 300
    requires forall k :: 0 <= k < SLOTS ==> !Holds(slots[k], d)
    ensures forall k :: 0 <= k < SLOTS && Holds(slots'[k], d) ==> AgeOf(slots'[k], now) > 300
  {
  }
}
