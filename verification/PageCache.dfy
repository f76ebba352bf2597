/** The write-back page cache of kernel/page_cache.c: 32 lines, clock replacement. */
module PageCache {
  import opened Wrappers
  import opened Bytes
  import opened Sectors
  import Ring

  const LINES: nat := 32

  datatype Line = Line(valid: bool, dirty: bool, ref: bool, lba: u32, data: Sector)

  /** First valid line at or after `i` that holds `lba`, or -1. */
  function FindFrom(lines: seq<Line>, lba: u32, i: nat): (r: int)
    requires i <= |lines|
    ensures r == -1 || (i <= r < |lines| && lines[r].valid && lines[r].lba == lba)
    ensures forall k :: i <= k < (if r >= 0 then r else |lines|) ==> !(lines[k].valid && lines[k].lba == lba)
    decreases |lines| - i
  {
    if i == |lines| then -1 else if lines[i].valid && lines[i].lba == lba then i else FindFrom(lines, lba, i + 1)
  }

  /** What the cache and the disk together hold at `lba`. */
  function Logical(lines: seq<Line>, disk: Disk, lba: u32): Option<Sector>
  {
    var i := FindFrom(lines, lba, 0);
    if i >= 0 then Some(lines[i].data) else Stored(disk, lba)
  }

  /** No LBA is held twice, and a clean line equals the disk. */
  predicate Coherent(lines: seq<Line>, disk: Disk)
  {
    && (forall i, j :: 0 <= i < j < |lines| && lines[i].valid && lines[j].valid ==> lines[i].lba != lines[j].lba)
    && (forall i :: 0 <= i < |lines| && lines[i].valid && !lines[i].dirty ==>
          Stored(disk, lines[i].lba) == Some(lines[i].data))
  }

  predicate SameView(lines: seq<Line>, disk: Disk, lines': seq<Line>, disk': Disk)
  {
    forall lba :: Logical(lines', disk', lba) == Logical(lines, disk, lba)
  }

  /** In a coherent cache the logical content does not depend on which line is found first. */
  lemma LogicalAt(lines: seq<Line>, disk: Disk, lba: u32, i: nat)
    requires Coherent(lines, disk) && i < |lines| && lines[i].valid && lines[i].lba == lba
    ensures Logical(lines, disk, lba) == Some(lines[i].data)
  {
  }

  /** Writing a dirty line back changes no logical content. */
  lemma FlushSameView(lines: seq<Line>, disk: Disk, i: nat)
    requires Coherent(lines, disk) && i < |lines| && lines[i].valid
    ensures var lines', disk' := lines[i := lines[i].(dirty := false)], disk[lines[i].lba := lines[i].data];
      Coherent(lines', disk') && SameView(lines, disk, lines', disk')
  {
    var lines', disk' := lines[i := lines[i].(dirty := false)], disk[lines[i].lba := lines[i].data];
    forall lba ensures Logical(lines', disk', lba) == Logical(lines, disk, lba) {
      SameFind(lines, lines', lba, 0);
      if lba == lines[i].lba { assert FindFrom(lines, lba, 0) == i; }
    }
  }

  lemma {:induction false} SameFind(lines: seq<Line>, lines': seq<Line>, lba: u32, i: nat)
    requires |lines'| == |lines| && i <= |lines|
    requires forall k :: 0 <= k < |lines| ==> lines'[k].valid == lines[k].valid && lines'[k].lba == lines[k].lba
    ensures FindFrom(lines', lba, i) == FindFrom(lines, lba, i)
    decreases |lines| - i
  {
    if i < |lines| { SameFind(lines, lines', lba, i + 1); }
  }

  /** Dropping a clean line, or clearing reference bits, changes no logical content. */
  lemma DropSameView(lines: seq<Line>, disk: Disk, i: nat, l: Line)
    requires Coherent(lines, disk) && i < |lines| && !l.valid
    requires lines[i].valid ==> !lines[i].dirty
    ensures Coherent(lines[i := l], disk) && SameView(lines, disk, lines[i := l], disk)
  {
    var lines' := lines[i := l];
    forall lba ensures Logical(lines', disk, lba) == Logical(lines, disk, lba) {
      var f, f' := FindFrom(lines, lba, 0), FindFrom(lines', lba, 0);
      if f >= 0 && f != i { assert lines'[f] == lines[f] && f' == f; }
      if f' >= 0 { assert lines[f'] == lines'[f']; }
    }
  }

  /** Filling a line that is not valid with a sector the cache does not hold. */
  lemma FillView(lines: seq<Line>, disk: Disk, i: nat, l: Line)
    requires Coherent(lines, disk) && i < |lines| && l.valid
    requires forall k :: 0 <= k < |lines| && k != i && lines[k].valid ==> lines[k].lba != l.lba
    requires lines[i].valid ==> lines[i].lba == l.lba
    requires l.dirty || Stored(disk, l.lba) == Some(l.data)
    ensures Coherent(lines[i := l], disk)
    ensures forall lba ::
      Logical(lines[i := l], disk, lba) == if lba == l.lba then Some(l.data) else Logical(lines, disk, lba)
  {
    var lines' := lines[i := l];
    forall lba ensures Logical(lines', disk, lba) == if lba == l.lba then Some(l.data) else Logical(lines, disk, lba) {
      var f, f' := FindFrom(lines, lba, 0), FindFrom(lines', lba, 0);
      if lba == l.lba {
        LogicalAt(lines', disk, lba, i);
      } else {
        if f >= 0 { assert lines'[f] == lines[f] && f' == f; }
        if f' >= 0 { assert lines[f'] == lines'[f']; }
      }
    }
  }

  // ---- Clock -----------------------------------------------------------

  /** The `j`-th line in clock order from the hand. */
  function Clock(hand: nat, j: nat): (r: nat)
    requires hand < LINES && j <= LINES
    ensures r < LINES
  {
    Ring.Wrap(hand + j, LINES)
  }

  predicate Spared(l: Line) { l.valid && l.ref }

  /** Places the hand passes: up to the first line that is invalid or unreferenced,
      or once around if there is none. */
  function Passed(lines: seq<Line>, hand: nat, j: nat): (r: nat)
    requires |lines| == LINES && hand < LINES && j <= LINES
    ensures j <= r <= LINES
    ensures forall k :: j <= k < r ==> Spared(lines[Clock(hand, k)])
    ensures r < LINES ==> !Spared(lines[Clock(hand, r)])
    decreases LINES - j
  {
    if j == LINES || !Spared(lines[Clock(hand, j)]) then j else Passed(lines, hand, j + 1)
  }

  /** How many places after the hand line `k` comes. */
  function Behind(hand: nat, k: nat): nat
    requires hand < LINES && k < LINES
  {
    if k >= hand then k - hand else k + LINES - hand
  }

  /** The lines after the hand has passed `j` places: their reference bits are gone. */
  function Swept(lines: seq<Line>, hand: nat, j: nat): (r: seq<Line>)
    requires |lines| == LINES && hand < LINES && j <= LINES
    ensures |r| == LINES
  {
    seq(LINES, k requires 0 <= k < LINES =>
      if Behind(hand, k) < j then lines[k].(ref := false) else lines[k])
  }

  lemma SweptStep(lines: seq<Line>, hand: nat, j: nat)
    requires |lines| == LINES && hand < LINES && j < LINES
    ensures var i := Clock(hand, j);
      && Swept(lines, hand, j)[i] == lines[i]
      && Swept(lines, hand, j + 1) == Swept(lines, hand, j)[i := lines[i].(ref := false)]
  {
  }

  lemma SweptSameView(lines: seq<Line>, disk: Disk, hand: nat, j: nat)
    requires |lines| == LINES && hand < LINES && j <= LINES && Coherent(lines, disk)
    ensures Coherent(Swept(lines, hand, j), disk) && SameView(lines, disk, Swept(lines, hand, j), disk)
  {
    var lines' := Swept(lines, hand, j);
    forall lba ensures Logical(lines', disk, lba) == Logical(lines, disk, lba) {
      SameFind(lines, lines', lba, 0);
    }
  }

  /** The line the clock settles on. */
  function Victim(lines: seq<Line>, hand: nat): (r: nat)
    requires |lines| == LINES && hand < LINES
    ensures r < LINES
  {
    Clock(hand, Passed(lines, hand, 0))
  }

  /** The cache after a miss: the clock has moved on, and its line is `l`. */
  predicate Replaced(lines: seq<Line>, hand: nat, lines': seq<Line>, hand': nat, l: Line)
    requires |lines| == LINES && hand < LINES
  {
    var v := Victim(lines, hand);
    lines' == Swept(lines, hand, Passed(lines, hand, 0))[v := l] && hand' == (v + 1) % LINES
  }

  lemma ReplacedAgain(lines: seq<Line>, hand: nat, lines': seq<Line>, hand': nat, x: Line, l: Line)
    requires |lines| == LINES && hand < LINES && Replaced(lines, hand, lines', hand', x)
    ensures Replaced(lines, hand, lines'[Victim(lines, hand) := l], hand', l)
  {
  }

  // ---- Accounting ------------------------------------------------------

  predicate IsValid(l: Line) { l.valid }

  predicate IsDirty(l: Line) { l.valid && l.dirty }

  function Count(lines: seq<Line>, p: Line -> bool): nat
  {
    if lines == [] then 0 else Count(lines[..|lines| - 1], p) + if p(lines[|lines| - 1]) then 1 else 0
  }

  lemma {:induction false} CountUpdate(lines: seq<Line>, p: Line -> bool, i: nat, l: Line)
    requires i < |lines|
    ensures Count(lines[i := l], p) + (if p(lines[i]) then 1 else 0) == Count(lines, p) + if p(l) then 1 else 0
  {
    var n := |lines| - 1;
    if i == n {
      assert lines[i := l][..n] == lines[..n];
    } else {
      assert lines[i := l][..n] == lines[..n][i := l];
      CountUpdate(lines[..n], p, i, l);
    }
  }

  lemma {:induction false} CountSame(lines: seq<Line>, lines': seq<Line>, p: Line -> bool)
    requires |lines'| == |lines| && forall k :: 0 <= k < |lines| ==> p(lines'[k]) == p(lines[k])
    ensures Count(lines', p) == Count(lines, p)
  {
    if lines != [] { CountSame(lines[..|lines| - 1], lines'[..|lines| - 1], p); }
  }

  datatype Stats = Stats(readHits: nat, readMisses: nat, writeHits: nat, writeMisses: nat,
                         evictions: nat, buffered: nat, flushes: nat)

  /** Every flush pays for a buffered write, and every valid line for a miss. */
  predicate Books(lines: seq<Line>, st: Stats, unfilled: nat)
  {
    && st.flushes + Count(lines, IsDirty) <= st.buffered
    && Count(lines, IsValid) + st.evictions + unfilled == st.readMisses + st.writeMisses
  }

  /** A line replaced by another: what the books must gain. */
  lemma BooksUpdate(lines: seq<Line>, i: nat, l: Line)
    requires i < |lines|
    ensures Count(lines[i := l], IsDirty) + (if IsDirty(lines[i]) then 1 else 0)
         == Count(lines, IsDirty) + if IsDirty(l) then 1 else 0
    ensures Count(lines[i := l], IsValid) + (if IsValid(lines[i]) then 1 else 0)
         == Count(lines, IsValid) + if IsValid(l) then 1 else 0
  {
    CountUpdate(lines, IsDirty, i, l);
    CountUpdate(lines, IsValid, i, l);
  }

  // ---- The cache updated in place --------------------------------------

  class Cache {
    var lines: array<Line>
    var hand: nat
    var disk: Disk
    var stats: Stats
    /** Misses that filled no line: the failed reads, between operations. */
    ghost var unfilled: nat

    ghost predicate Valid()
      reads this, lines
    {
      && lines.Length == LINES && hand < LINES
      && Coherent(lines[..], disk) && Books(lines[..], stats, unfilled)
    }

    ghost function At(lba: u32): Option<Sector>
      reads this, lines
    {
      Logical(lines[..], disk, lba)
    }

    constructor (disk: Disk)
      ensures Valid() && fresh(lines) && this.disk == disk && unfilled == 0
      ensures forall lba :: At(lba) == Stored(disk, lba)
    {
      lines := new Line[LINES](_ => Line(false, false, false, 0, seq(256, _ => 0)));
      hand, this.disk, stats, unfilled := 0, disk, Stats(0, 0, 0, 0, 0, 0, 0), 0;
      new;
      assert forall k :: 0 <= k < LINES ==> !lines[k].valid;
      NothingCounted(lines[..]);
    }

    static lemma {:induction false} NothingCounted(lines: seq<Line>)
      requires forall k :: 0 <= k < |lines| ==> !lines[k].valid
      ensures Count(lines, IsValid) == 0 && Count(lines, IsDirty) == 0
    {
      if lines != [] { NothingCounted(lines[..|lines| - 1]); }
    }

    method FindLine(lba: u32) returns (idx: int)
      requires Valid()
      ensures idx == FindFrom(lines[..], lba, 0)
    {
      for i := 0 to LINES
        invariant FindFrom(lines[..], lba, 0) == FindFrom(lines[..], lba, i)
      {
        if lines[i].valid && lines[i].lba == lba { return i; }
      }
      idx := -1;
    }

    /** Write the line back if it is dirty. */
    method FlushLine(idx: int)
      requires Valid()
      modifies this`disk, this`stats, lines
      ensures Valid() && SameView(old(lines[..]), old(disk), lines[..], disk)
      ensures 0 <= idx < LINES ==>
        lines[..] ==
          if IsDirty(old(lines[idx])) then old(lines[..])[idx := old(lines[idx]).(dirty := false)] else old(lines[..])
      ensures !(0 <= idx < LINES) ==> lines[..] == old(lines[..]) && disk == old(disk)
      ensures 0 <= idx < LINES && old(lines[idx]).valid ==>
        Stored(disk, old(lines[idx]).lba) == Some(old(lines[idx]).data)
      ensures forall lba :: lba in old(disk) ==> lba in disk
      ensures stats == old(stats).(flushes := stats.flushes)
    {
      if idx < 0 || idx >= LINES { return; }
      if lines[idx].valid && lines[idx].dirty {
        FlushSameView(lines[..], disk, idx);
        BooksUpdate(lines[..], idx, lines[idx].(dirty := false));
        ghost var after := lines[..][idx := lines[idx].(dirty := false)];
        disk := disk[lines[idx].lba := lines[idx].data];
        lines[idx] := lines[idx].(dirty := false);
        assert lines[..] == after;
        stats := stats.(flushes := stats.flushes + 1);
      }
    }

    method Evict(idx: nat)
      requires Valid() && idx < LINES && lines[idx].valid
      modifies this`disk, this`stats, lines
      ensures Valid() && SameView(old(lines[..]), old(disk), lines[..], disk)
      ensures lines[..] == old(lines[..])[idx := lines[idx]] && !lines[idx].valid
      ensures forall lba :: lba in old(disk) ==> lba in disk
      ensures stats == old(stats).(flushes := stats.flushes, evictions := old(stats.evictions) + 1)
    {
      FlushLine(idx);
      DropSameView(lines[..], disk, idx, lines[idx].(valid := false));
      BooksUpdate(lines[..], idx, lines[idx].(valid := false));
      ghost var after := lines[..][idx := lines[idx].(valid := false)];
      lines[idx] := lines[idx].(valid := false);
      assert lines[..] == after;
      stats := stats.(evictions := stats.evictions + 1);
    }

    /** The clock scan: pass referenced lines, clearing their bits, up to the first
        line that is invalid or unreferenced. It is reached within 33 probes, so the
        code after the loop never runs. */
    method Advance() returns (idx: nat, probes: nat)
      requires lines.Length == LINES && hand < LINES
      modifies this`hand, lines
      ensures var j := Passed(old(lines[..]), old(hand), 0);
        idx == Clock(old(hand), j) && probes == j + 1 && lines[..] == Swept(old(lines[..]), old(hand), j)
      ensures !Spared(lines[idx]) && hand == (idx + 1) % LINES
    {
      ghost var l0, h0 := lines[..], hand;
      var i := 0;
      while i < 2 * LINES
        invariant i <= LINES && hand == Clock(h0, i)
        invariant lines[..] == Swept(l0, h0, i) && Passed(l0, h0, i) == Passed(l0, h0, 0)
      {
        idx := hand;
        Ring.WrapIsMod(hand + 1, LINES);
        hand := (hand + 1) % LINES;
        probes := i + 1;
        if i == LINES { assert Clock(h0, 0) == idx; } else { SweptStep(l0, h0, i); }
        if !lines[idx].valid || !lines[idx].ref { return; }
        ghost var after := lines[..][idx := lines[idx].(ref := false)];
        lines[idx] := lines[idx].(ref := false);
        assert lines[..] == after;
        i := i + 1;
      }
      assert false;
    }

    /** Clearing reference bits keeps everything but the bits. */
    static lemma SweptKeeps(lines: seq<Line>, disk: Disk, hand: nat, j: nat, st: Stats, unfilled: nat)
      requires |lines| == LINES && hand < LINES && j <= LINES
      requires Coherent(lines, disk) && Books(lines, st, unfilled)
      ensures var r := Swept(lines, hand, j);
        Coherent(r, disk) && SameView(lines, disk, r, disk) && Books(r, st, unfilled)
    {
      SweptSameView(lines, disk, hand, j);
      CountSame(lines, Swept(lines, hand, j), IsDirty);
      CountSame(lines, Swept(lines, hand, j), IsValid);
    }

    /** pick_victim_line: the victim is the first line in clock order that is invalid
        or unreferenced, or the one at the hand if all were referenced. */
    method PickVictim() returns (idx: nat, probes: nat)
      requires Valid()
      modifies this`hand, this`disk, this`stats, lines
      ensures Valid() && SameView(old(lines[..]), old(disk), lines[..], disk)
      ensures var j := Passed(old(lines[..]), old(hand), 0);
        && idx == Clock(old(hand), j) && probes == j + 1 <= LINES + 1
        && lines[..] == Swept(old(lines[..]), old(hand), j)[idx := lines[idx]]
      ensures !lines[idx].valid && hand == (idx + 1) % LINES
      ensures forall lba :: lba in old(disk) ==> lba in disk
      ensures stats == old(stats).(flushes := stats.flushes,
                evictions := old(stats.evictions) + if old(lines[idx]).valid then 1 else 0)
    {
      SweptKeeps(lines[..], disk, hand, Passed(lines[..], hand, 0), stats, unfilled);
      idx, probes := Advance();
      if lines[idx].valid { Evict(idx); }
    }

    /** A line for a sector the cache does not hold. */
    method ClaimLine(lba: u32) returns (idx: nat)
      requires Valid() && FindFrom(lines[..], lba, 0) < 0
      modifies this`hand, this`disk, this`stats, lines
      ensures Valid() && idx < LINES && !lines[idx].valid
      ensures forall x :: At(x) == old(At(x))
      ensures forall k :: 0 <= k < LINES && lines[k].valid ==> lines[k].lba != lba
      ensures forall x :: x in old(disk) ==> x in disk
      ensures idx == Victim(old(lines[..]), old(hand))
      ensures Replaced(old(lines[..]), old(hand), lines[..], hand, lines[idx])
      ensures stats == old(stats).(flushes := stats.flushes,
                evictions := old(stats.evictions) + if old(lines[idx]).valid then 1 else 0)
    {
      ghost var l0, h0 := lines[..], hand;
      var probes;
      idx, probes := PickVictim();
      NotHeld(l0, h0, idx, lines[..], lba);
    }

    /** An LBA the cache does not hold is still not held after the clock has moved. */
    static lemma NotHeld(lines: seq<Line>, hand: nat, idx: nat, lines': seq<Line>, lba: u32)
      requires |lines| == LINES && hand < LINES && idx < LINES && FindFrom(lines, lba, 0) < 0
      requires |lines'| == LINES
      requires lines' == Swept(lines, hand, Passed(lines, hand, 0))[idx := lines'[idx]] && !lines'[idx].valid
      ensures forall k :: 0 <= k < LINES && lines'[k].valid ==> lines'[k].lba != lba
    {
      var swept := Swept(lines, hand, Passed(lines, hand, 0));
      forall k | 0 <= k < LINES && lines'[k].valid ensures lines'[k].lba != lba {
        assert lines'[k] == swept[k];
      }
    }

    /** Replace a line of the cache by `l`, which holds what `l.lba` is to hold. */
    method Install(idx: nat, l: Line)
      requires Valid() && idx < LINES
      requires l.valid ==> forall k :: 0 <= k < LINES && k != idx && lines[k].valid ==> lines[k].lba != l.lba
      requires lines[idx].valid ==> l.valid && lines[idx].lba == l.lba
      requires l.valid && !l.dirty ==> Stored(disk, l.lba) == Some(l.data)
      requires l.valid && l.dirty ==> stats.flushes + Count(lines[..], IsDirty) < stats.buffered
      requires l.valid && !lines[idx].valid ==> unfilled > 0
      modifies this`unfilled, lines
      ensures Valid() && lines[..] == old(lines[..])[idx := l]
      ensures unfilled == old(unfilled) - if l.valid && !old(lines[idx]).valid then 1 else 0
      ensures forall lba :: At(lba) == if l.valid && lba == l.lba then Some(l.data) else old(At(lba))
    {
      if l.valid {
        FillView(lines[..], disk, idx, l);
        if !lines[idx].valid { unfilled := unfilled - 1; }
      } else {
        DropSameView(lines[..], disk, idx, l);
      }
      BooksUpdate(lines[..], idx, l);
      ghost var after := lines[..][idx := l];
      lines[idx] := l;
      assert lines[..] == after;
    }

    /** page_cache_read_sector; `ok` says whether the backend can read now, and a
        failed read leaves `junk` in the line's buffer. */
    method ReadSector(lba: u32, ok: bool, junk: Sector) returns (r: Option<Sector>)
      requires Valid()
      modifies this, lines
      ensures Valid() && lines == old(lines)
      ensures forall x :: At(x) == old(At(x))
      ensures r.Some? ==> r == old(At(lba))
      ensures r.None? <==> FindFrom(old(lines[..]), lba, 0) < 0 && !(ok && lba in disk)
      ensures unfilled == old(unfilled) + if r.None? then 1 else 0
      ensures forall x :: x in old(disk) ==> x in disk
      ensures var i := FindFrom(old(lines[..]), lba, 0);
        if i >= 0 then
          && lines[..] == old(lines[..])[i := old(lines[i]).(ref := true)] && hand == old(hand) && disk == old(disk)
          && stats == old(stats).(readHits := old(stats.readHits) + 1)
        else
          && stats == old(stats).(readMisses := old(stats.readMisses) + 1,
               flushes := stats.flushes, evictions := stats.evictions)
          && (r.Some? ==>
               Replaced(old(lines[..]), old(hand), lines[..], hand, Line(true, false, true, lba, r.value)))
    {
      var idx := FindLine(lba);
      if idx >= 0 {
        r := Some(lines[idx].data);
        Touch(idx);
        stats := stats.(readHits := stats.readHits + 1);
        assert SameView(old(lines[..]), old(disk), lines[..], disk);
        return;
      }
      r := ReadMiss(lba, ok, junk);
    }

    method ReadMiss(lba: u32, ok: bool, junk: Sector) returns (r: Option<Sector>)
      requires Valid() && FindFrom(lines[..], lba, 0) < 0
      modifies this, lines
      ensures Valid() && lines == old(lines)
      ensures forall x :: At(x) == old(At(x))
      ensures r.Some? ==> r == old(At(lba))
      ensures r.None? <==> !(ok && lba in disk)
      ensures unfilled == old(unfilled) + if r.None? then 1 else 0
      ensures forall x :: x in old(disk) ==> x in disk
      ensures stats == old(stats).(readMisses := old(stats.readMisses) + 1,
                flushes := stats.flushes, evictions := stats.evictions)
      ensures r.Some? ==>
        Replaced(old(lines[..]), old(hand), lines[..], hand, Line(true, false, true, lba, r.value))
    {
      stats := stats.(readMisses := stats.readMisses + 1);
      unfilled := unfilled + 1;
      var victim := ClaimLine(lba);
      ghost var l1 := lines[..];
      assert At(lba) == old(At(lba)) == Stored(disk, lba);
      if !(ok && lba in disk) {
        SpoilMiss(victim, junk);
        return None;
      }
      FillMiss(victim, lba);
      ReplacedAgain(old(lines[..]), old(hand), l1, hand, l1[victim], Line(true, false, true, lba, disk[lba]));
      r := Some(disk[lba]);
    }

    /** A failed read leaves bytes in the line's buffer. */
    method SpoilMiss(idx: nat, junk: Sector)
      requires Valid() && idx < LINES && !lines[idx].valid
      modifies this`unfilled, lines
      ensures Valid() && unfilled == old(unfilled) && forall x :: At(x) == old(At(x))
    {
      Install(idx, Line(false, false, false, lines[idx].lba, junk));
    }

    /** The sector read from the disk goes into the line. */
    method FillMiss(idx: nat, lba: u32)
      requires Valid() && idx < LINES && !lines[idx].valid && lba in disk && unfilled > 0
      requires forall k :: 0 <= k < LINES && lines[k].valid ==> lines[k].lba != lba
      requires At(lba) == Stored(disk, lba)
      modifies this`unfilled, lines
      ensures Valid() && unfilled == old(unfilled) - 1 && forall x :: At(x) == old(At(x))
      ensures lines[..] == old(lines[..])[idx := Line(true, false, true, lba, disk[lba])]
    {
      Install(idx, Line(true, false, true, lba, disk[lba]));
    }

    /** A hit sets the reference bit. */
    method Touch(idx: nat)
      requires Valid() && idx < LINES && lines[idx].valid
      modifies lines
      ensures Valid() && lines[..] == old(lines[..])[idx := old(lines[idx]).(ref := true)]
      ensures SameView(old(lines[..]), disk, lines[..], disk)
    {
      ghost var before, after := lines[..], lines[..][idx := lines[idx].(ref := true)];
      CountSame(before, after, IsDirty);
      CountSame(before, after, IsValid);
      lines[idx] := lines[idx].(ref := true);
      assert lines[..] == after;
      forall x ensures Logical(after, disk, x) == Logical(before, disk, x) { SameFind(before, after, x, 0); }
    }

    /** page_cache_write_sector: the sector is buffered in a dirty line. */
    method WriteSector(lba: u32, data: Sector)
      requires Valid()
      modifies this, lines
      ensures Valid() && lines == old(lines) && unfilled == old(unfilled)
      ensures forall x :: At(x) == if x == lba then Some(data) else old(At(x))
      ensures forall x :: x in old(disk) ==> x in disk
      ensures var i := FindFrom(old(lines[..]), lba, 0);
        var l := Line(true, true, true, lba, data);
        if i >= 0 then
          && lines[..] == old(lines[..])[i := l] && hand == old(hand) && disk == old(disk)
          && stats == old(stats).(writeHits := old(stats.writeHits) + 1, buffered := old(stats.buffered) + 1)
        else
          && Replaced(old(lines[..]), old(hand), lines[..], hand, l)
          && stats == old(stats).(writeMisses := old(stats.writeMisses) + 1, buffered := old(stats.buffered) + 1,
               flushes := stats.flushes, evictions := stats.evictions)
    {
      var idx := FindLine(lba);
      if idx < 0 {
        WriteMiss(lba, data);
      } else {
        stats := stats.(writeHits := stats.writeHits + 1);
        BufferWrite(idx, lba, data);
      }
    }

    method WriteMiss(lba: u32, data: Sector)
      requires Valid() && FindFrom(lines[..], lba, 0) < 0
      modifies this, lines
      ensures Valid() && lines == old(lines) && unfilled == old(unfilled)
      ensures forall x :: At(x) == if x == lba then Some(data) else old(At(x))
      ensures forall x :: x in old(disk) ==> x in disk
      ensures Replaced(old(lines[..]), old(hand), lines[..], hand, Line(true, true, true, lba, data))
      ensures stats == old(stats).(writeMisses := old(stats.writeMisses) + 1, buffered := old(stats.buffered) + 1,
                flushes := stats.flushes, evictions := stats.evictions)
    {
      stats := stats.(writeMisses := stats.writeMisses + 1);
      unfilled := unfilled + 1;
      var idx := ClaimLine(lba);
      ghost var l1 := lines[..];
      BufferWrite(idx, lba, data);
      ReplacedAgain(old(lines[..]), old(hand), l1, hand, l1[idx], Line(true, true, true, lba, data));
    }

    method BufferWrite(idx: nat, lba: u32, data: Sector)
      requires Valid() && idx < LINES
      requires forall k :: 0 <= k < LINES && k != idx && lines[k].valid ==> lines[k].lba != lba
      requires if lines[idx].valid then lines[idx].lba == lba else unfilled > 0
      modifies this`stats, this`unfilled, lines
      ensures Valid() && unfilled == old(unfilled) - if old(lines[idx]).valid then 0 else 1
      ensures lines[..] == old(lines[..])[idx := Line(true, true, true, lba, data)]
      ensures stats == old(stats).(buffered := old(stats.buffered) + 1)
      ensures forall x :: At(x) == if x == lba then Some(data) else old(At(x))
    {
      stats := stats.(buffered := stats.buffered + 1);
      Install(idx, Line(true, true, true, lba, data));
    }

    /** page_cache_flush_all: afterwards the disk alone is the logical view, and no line is dirty. */
    method FlushAll()
      requires Valid()
      modifies this`disk, this`stats, lines
      ensures Valid() && forall x :: At(x) == old(At(x))
      ensures forall k :: 0 <= k < LINES ==> !IsDirty(lines[k])
      ensures forall x :: Stored(disk, x) == old(At(x))
    {
      for i := 0 to LINES
        invariant Valid() && SameView(old(lines[..]), old(disk), lines[..], disk)
        invariant forall k :: 0 <= k < i ==> !IsDirty(lines[k])
      {
        FlushLine(i);
      }
      forall x ensures Stored(disk, x) == old(At(x)) {
        assert Logical(lines[..], disk, x) == old(At(x));
      }
    }

    method Apply(op: Op) returns (r: Option<Sector>)
      requires Valid()
      modifies this, lines
      ensures Valid() && lines == old(lines)
      ensures forall x :: At(x) == if op.Write? && x == op.lba then Some(op.data) else old(At(x))
      ensures r.Some? ==> op.Read? && r == old(At(op.lba))
    {
      r := None;
      match op {
        case Read(lba, ok, junk) => r := ReadSector(lba, ok, junk);
        case Write(lba, data) => WriteSector(lba, data);
        case Flush => FlushAll();
      }
    }

    /** Any run of cached operations: what is read and what remains is what a plain
        disk `d0` given the same writes would hold. */
    method Replay(ops: seq<Op>, ghost d0: Disk) returns (outs: seq<Option<Sector>>)
      requires Valid() && forall x :: At(x) == Stored(d0, x)
      modifies this, lines
      ensures Valid() && forall x :: At(x) == Stored(Plain(d0, ops, |ops|), x)
      ensures |outs| == |ops|
      ensures forall i :: 0 <= i < |ops| && outs[i].Some? ==>
        ops[i].Read? && outs[i] == Stored(Plain(d0, ops, i), ops[i].lba)
    {
      outs := [];
      for i := 0 to |ops|
        invariant Valid() && lines == old(lines) && |outs| == i
        invariant forall x :: At(x) == Stored(Plain(d0, ops, i), x)
        invariant forall k :: 0 <= k < i && outs[k].Some? ==>
          ops[k].Read? && outs[k] == Stored(Plain(d0, ops, k), ops[k].lba)
      {
        var r := Apply(ops[i]);
        outs := outs + [r];
      }
    }
  }

  datatype Op = Read(lba: u32, ok: bool, junk: Sector) | Write(lba: u32, data: Sector) | Flush

  /** A plain disk after the writes among the first `n` operations. */
  function Plain(disk: Disk, ops: seq<Op>, n: nat): Disk
    requires n <= |ops|
  {
    if n == 0 then disk
    else
      var d := Plain(disk, ops, n - 1);
      match ops[n - 1]
      case Write(lba, data) => d[lba := data]
      case _ => d
  }
}
