/** The batch scheduler of kernel/disk.c: requests are executed in LBA order. */
module DiskBatch {
  import opened Wrappers
  import opened Bytes
  import opened Sectors

  const MAX_BATCH: nat := 64
  const IO_OK: int := 0
  const NO_DEVICE: int := -1
  const UNSUPPORTED: int := -5

  datatype Request = Request(lba: u32, write: bool, hasBuffer: bool)

  predicate Buffered(reqs: seq<Request>) { forall i :: 0 <= i < |reqs| ==> reqs[i].hasBuffer }

  /** The disk, each request's own buffer, and each request's result. */
  datatype World = World(disk: Disk, bufs: seq<Sector>, results: seq<int>)

  /** Requests addressed by index, each with a buffer and a result. */
  predicate Fits(reqs: seq<Request>, w: World) { |w.bufs| == |w.results| == |reqs| }

  predicate InRange(reqs: seq<Request>, order: seq<nat>)
  {
    forall k :: 0 <= k < |order| ==> order[k] < |reqs|
  }

  /** One request: a write succeeds, a read fails where the disk has no such sector, and
      a request without a buffer is skipped. */
  function ExecOne(reqs: seq<Request>, w: World, i: nat): (r: World)
    requires Fits(reqs, w) && i < |reqs|
    ensures Fits(reqs, r)
  {
    if !reqs[i].hasBuffer then w
    else if reqs[i].write then
      w.(disk := w.disk[reqs[i].lba := w.bufs[i]], results := w.results[i := IO_OK])
    else if reqs[i].lba in w.disk then
      w.(bufs := w.bufs[i := w.disk[reqs[i].lba]], results := w.results[i := IO_OK])
    else w.(results := w.results[i := NO_DEVICE])
  }

  function Exec(reqs: seq<Request>, w: World, order: seq<nat>): (r: World)
    requires Fits(reqs, w) && InRange(reqs, order)
    ensures Fits(reqs, r)
  {
    if order == [] then w
    else ExecOne(reqs, Exec(reqs, w, order[..|order| - 1]), order[|order| - 1])
  }

  function Identity(n: nat): (r: seq<nat>)
    ensures |r| == n && forall k :: 0 <= k < n ==> r[k] == k
  {
    seq(n, i => i)
  }

  // ---- Reordering that keeps requests for one sector in order preserves meaning ----

  /** The requests of `order` for one sector, in their order. */
  function Only(reqs: seq<Request>, order: seq<nat>, lba: u32): (r: seq<nat>)
    requires InRange(reqs, order)
    ensures InRange(reqs, r)
  {
    if order == [] then []
    else
      var front, last := Only(reqs, order[..|order| - 1], lba), order[|order| - 1];
      if reqs[last].lba == lba then front + [last] else front
  }

  /** The two worlds agree on one sector and on the buffers of the requests for it. */
  predicate AgreeOn(reqs: seq<Request>, w: World, v: World, lba: u32)
    requires Fits(reqs, w) && Fits(reqs, v)
  {
    && Stored(w.disk, lba) == Stored(v.disk, lba)
    && forall i :: 0 <= i < |reqs| && reqs[i].lba == lba ==> w.bufs[i] == v.bufs[i] && w.results[i] == v.results[i]
  }

  /** A sector's fate depends only on the requests for it, in their order. */
  lemma {:induction false} Projection(reqs: seq<Request>, w: World, order: seq<nat>, lba: u32)
    requires Fits(reqs, w) && InRange(reqs, order)
    ensures AgreeOn(reqs, Exec(reqs, w, order), Exec(reqs, w, Only(reqs, order, lba)), lba)
  {
    if order != [] {
      var front, last := order[..|order| - 1], order[|order| - 1];
      Projection(reqs, w, front, lba);
      var o := Only(reqs, front, lba);
      var x, y := Exec(reqs, w, front), Exec(reqs, w, o);
      if reqs[last].lba == lba {
        assert (o + [last])[..|o|] == o;
        BothStep(reqs, x, y, last);
      } else {
        OtherStep(reqs, x, y, last, lba);
      }
    }
  }

  /** A request for the sector keeps worlds that agree on it in agreement. */
  lemma BothStep(reqs: seq<Request>, x: World, y: World, i: nat)
    requires Fits(reqs, x) && Fits(reqs, y) && i < |reqs| && AgreeOn(reqs, x, y, reqs[i].lba)
    ensures AgreeOn(reqs, ExecOne(reqs, x, i), ExecOne(reqs, y, i), reqs[i].lba)
  {
  }

  /** A request for another sector does not matter to it. */
  lemma OtherStep(reqs: seq<Request>, x: World, y: World, i: nat, lba: u32)
    requires Fits(reqs, x) && Fits(reqs, y) && i < |reqs| && reqs[i].lba != lba && AgreeOn(reqs, x, y, lba)
    ensures AgreeOn(reqs, ExecOne(reqs, x, i), y, lba)
  {
  }

  /** Orders with the same requests per sector, in the same relative order, have the same effect. */
  lemma SameEffect(reqs: seq<Request>, w: World, a: seq<nat>, b: seq<nat>)
    requires Fits(reqs, w) && InRange(reqs, a) && InRange(reqs, b)
    requires forall lba :: Only(reqs, a, lba) == Only(reqs, b, lba)
    ensures Exec(reqs, w, a) == Exec(reqs, w, b)
  {
    var x, y := Exec(reqs, w, a), Exec(reqs, w, b);
    forall lba ensures AgreeOn(reqs, x, y, lba) {
      Projection(reqs, w, a, lba);
      Projection(reqs, w, b, lba);
    }
    forall i | 0 <= i < |reqs| ensures x.bufs[i] == y.bufs[i] && x.results[i] == y.results[i] {
      assert AgreeOn(reqs, x, y, reqs[i].lba);
    }
    forall lba: u32 ensures lba in x.disk <==> lba in y.disk
                    ensures lba in x.disk ==> x.disk[lba] == y.disk[lba]
    {
      assert AgreeOn(reqs, x, y, lba);
    }
    assert x.disk == y.disk;
  }

  // ---- What submission order means ---------------------------------------

  /** Request `j` is the last write to the sector among the first `m`. */
  predicate LastWrite(reqs: seq<Request>, m: nat, lba: u32, j: nat)
    requires m <= |reqs|
  {
    && j < m && reqs[j].write && reqs[j].lba == lba
    && forall k :: j < k < m ==> !(reqs[k].write && reqs[k].lba == lba)
  }

  predicate NoWrite(reqs: seq<Request>, m: nat, lba: u32)
    requires m <= |reqs|
  {
    forall k :: 0 <= k < m ==> !(reqs[k].write && reqs[k].lba == lba)
  }

  /** If there is any write, one is the last. */
  lemma {:induction false} SomeLast(reqs: seq<Request>, m: nat, lba: u32) returns (j: nat)
    requires m <= |reqs| && !NoWrite(reqs, m, lba)
    ensures LastWrite(reqs, m, lba, j)
  {
    if reqs[m - 1].write && reqs[m - 1].lba == lba {
      j := m - 1;
    } else {
      j := SomeLast(reqs, m - 1, lba);
    }
  }

  /** What the first `m` requests leave at a sector: the last write's data, or what was there. */
  ghost predicate Leaves(reqs: seq<Request>, w: World, m: nat, lba: u32, data: Option<Sector>)
    requires Fits(reqs, w) && m <= |reqs|
  {
    && (forall j: nat :: LastWrite(reqs, m, lba, j) ==> data == Some(w.bufs[j]))
    && (NoWrite(reqs, m, lba) ==> data == Stored(w.disk, lba))
  }

  /** What becomes of request `i`: a write succeeds, and a read has what the requests before
      it leave at its sector, or fails if that is nothing. */
  ghost predicate Served(reqs: seq<Request>, w: World, w': World, i: nat)
    requires Fits(reqs, w) && Fits(reqs, w') && i < |reqs|
  {
    if reqs[i].write then w'.bufs[i] == w.bufs[i] && w'.results[i] == IO_OK
    else
      exists data :: Leaves(reqs, w, i, reqs[i].lba, data) &&
        if data.Some? then w'.bufs[i] == data.value && w'.results[i] == IO_OK
        else w'.bufs[i] == w.bufs[i] && w'.results[i] == NO_DEVICE
  }

  /** The first `m` requests are served, one after the other, and the others not yet. */
  ghost predicate ServedTo(reqs: seq<Request>, w: World, w': World, m: nat)
    requires Fits(reqs, w) && Fits(reqs, w') && m <= |reqs|
  {
    && (forall lba: u32 :: Leaves(reqs, w, m, lba, Stored(w'.disk, lba)))
    && (forall i: nat :: i < m ==> Served(reqs, w, w', i))
    && (forall i: nat :: m <= i < |reqs| ==> w'.bufs[i] == w.bufs[i] && w'.results[i] == w.results[i])
  }

  /** Executing in submission order serves each request after those before it. */
  lemma {:induction false} InTurn(reqs: seq<Request>, w: World, m: nat)
    requires Fits(reqs, w) && Buffered(reqs) && m <= |reqs|
    ensures InRange(reqs, Identity(m)) && ServedTo(reqs, w, Exec(reqs, w, Identity(m)), m)
  {
    if m > 0 {
      InTurn(reqs, w, m - 1);
      assert Identity(m)[..m - 1] == Identity(m - 1);
      NextInTurn(reqs, w, Exec(reqs, w, Identity(m - 1)), m - 1);
    }
  }

  lemma NextInTurn(reqs: seq<Request>, w: World, w': World, m: nat)
    requires Fits(reqs, w) && Fits(reqs, w') && Buffered(reqs) && m < |reqs| && ServedTo(reqs, w, w', m)
    ensures ServedTo(reqs, w, ExecOne(reqs, w', m), m + 1)
  {
    var w2 := ExecOne(reqs, w', m);
    forall lba: u32 ensures Leaves(reqs, w, m + 1, lba, Stored(w2.disk, lba)) {
      assert Leaves(reqs, w, m, lba, Stored(w'.disk, lba));
      if reqs[m].write && reqs[m].lba == lba { assert LastWrite(reqs, m + 1, lba, m); }
      forall j: nat | LastWrite(reqs, m + 1, lba, j) && j < m ensures LastWrite(reqs, m, lba, j) {}
    }
    assert Leaves(reqs, w, m, reqs[m].lba, Stored(w'.disk, reqs[m].lba));
    forall i: nat | i < m ensures Served(reqs, w, w2, i) { assert Served(reqs, w, w', i); }
  }

  /** A request without a buffer is skipped, whatever the order. */
  lemma {:induction false} NullsSkipped(reqs: seq<Request>, w: World, order: seq<nat>)
    requires Fits(reqs, w) && InRange(reqs, order)
    ensures SkipsNulls(reqs, w, Exec(reqs, w, order))
  {
    if order != [] { NullsSkipped(reqs, w, order[..|order| - 1]); }
  }

  predicate SkipsNulls(reqs: seq<Request>, w: World, w': World)
    requires Fits(reqs, w) && Fits(reqs, w')
  {
    forall i :: 0 <= i < |reqs| && !reqs[i].hasBuffer ==> w'.bufs[i] == w.bufs[i] && w'.results[i] == w.results[i]
  }

  // ---- Sorting ---------------------------------------------------------

  /** `s` with its elements at `j - 1` and `j` exchanged. */
  function Swapped(s: seq<nat>, j: nat): seq<nat>
    requires 0 < j < |s|
  {
    s[j - 1 := s[j]][j := s[j - 1]]
  }

  /** Exchanging neighbours for different sectors leaves every sector's requests as they were. */
  lemma {:induction false} SwapKeepsOnly(reqs: seq<Request>, s: seq<nat>, j: nat, lba: u32)
    requires InRange(reqs, s) && 0 < j < |s| && reqs[s[j - 1]].lba != reqs[s[j]].lba
    ensures InRange(reqs, Swapped(s, j)) && Only(reqs, Swapped(s, j), lba) == Only(reqs, s, lba)
  {
    var t, n := Swapped(s, j), |s| - 1;
    if j < n {
      assert t[..n] == Swapped(s[..n], j);
      SwapKeepsOnly(reqs, s[..n], j, lba);
    } else {
      assert t[..n][..n - 1] == s[..n][..n - 1];
      assert t[..n][n - 1] == s[n] && s[..n][n - 1] == t[n];
    }
  }

  /** The first `n` places are in LBA order. */
  predicate SortedTo(reqs: seq<Request>, s: seq<nat>, n: nat)
    requires InRange(reqs, s) && n <= |s|
  {
    forall a, b :: 0 <= a < b < n ==> reqs[s[a]].lba <= reqs[s[b]].lba
  }

  predicate NonDecreasing(reqs: seq<Request>)
  {
    forall a, b :: 0 <= a < b < |reqs| ==> reqs[a].lba <= reqs[b].lba
  }

  /** A permutation of `from` that keeps the requests for each sector in their order. */
  ghost predicate Stable(reqs: seq<Request>, from: seq<nat>, s: seq<nat>)
    requires InRange(reqs, from)
  {
    && |s| == |from| && InRange(reqs, s) && multiset(s) == multiset(from)
    && forall lba :: Only(reqs, s, lba) == Only(reqs, from, lba)
  }

  /** Sorted up to `i` but for place `j`, whose element moves down past larger ones. */
  predicate Inserting(reqs: seq<Request>, v: seq<nat>, i: nat, j: nat)
    requires InRange(reqs, v) && j <= i < |v|
  {
    && (forall a, b :: 0 <= a < b <= i && a != j && b != j ==> reqs[v[a]].lba <= reqs[v[b]].lba)
    && (forall b :: j < b <= i ==> reqs[v[j]].lba < reqs[v[b]].lba)
  }

  /** The order after the element at `j` has moved down past every larger one before it. */
  function Sink(reqs: seq<Request>, v: seq<nat>, j: nat): (r: seq<nat>)
    requires InRange(reqs, v) && j < |v|
    ensures |r| == |v| && InRange(reqs, r)
    decreases j
  {
    if j > 0 && reqs[v[j - 1]].lba > reqs[v[j]].lba then Sink(reqs, Swapped(v, j), j - 1) else v
  }

  /** Sinking only moves entries, and none past another for the same sector. */
  lemma {:induction false} SinkStable(reqs: seq<Request>, from: seq<nat>, v: seq<nat>, j: nat)
    requires InRange(reqs, from) && Stable(reqs, from, v) && j < |v|
    ensures Stable(reqs, from, Sink(reqs, v, j))
    decreases j
  {
    if j > 0 && reqs[v[j - 1]].lba > reqs[v[j]].lba {
      var t := Swapped(v, j);
      forall lba ensures Only(reqs, t, lba) == Only(reqs, from, lba) {
        SwapKeepsOnly(reqs, v, j, lba);
      }
      SinkStable(reqs, from, t, j - 1);
    }
  }

  lemma {:induction false} SinkSorted(reqs: seq<Request>, v: seq<nat>, i: nat, j: nat)
    requires InRange(reqs, v) && j <= i < |v| && Inserting(reqs, v, i, j)
    ensures SortedTo(reqs, Sink(reqs, v, j), i + 1)
    decreases j
  {
    if j > 0 && reqs[v[j - 1]].lba > reqs[v[j]].lba {
      SinkSorted(reqs, Swapped(v, j), i, j - 1);
    }
  }

  /** The inner loop: larger entries move up one place, then the key goes into the gap. */
  method InsertKey(reqs: seq<Request>, order: array<nat>, i: nat)
    requires i < order.Length && InRange(reqs, order[..])
    modifies order
    ensures order[..] == Sink(reqs, old(order[..]), i)
  {
    var key := order[i];
    var j := i;
    ghost var v := order[..];
    while j > 0 && reqs[order[j - 1]].lba > reqs[key].lba
      invariant 0 <= j <= i && |v| == order.Length && InRange(reqs, v)
      invariant v[j] == key && forall k :: 0 <= k < |v| && k != j ==> order[k] == v[k]
      invariant Sink(reqs, v, j) == Sink(reqs, old(order[..]), i)
    {
      v := Swapped(v, j);
      order[j] := order[j - 1];
      j := j - 1;
    }
    order[j] := key;
    assert order[..] == v;
  }

  /** The insertion sort of disk_process_batch on the index array; an array that is
      already in LBA order is left alone. */
  method SortOrder(reqs: seq<Request>, order: array<nat>)
    requires order.Length == |reqs| && InRange(reqs, order[..])
    modifies order
    ensures InRange(reqs, order[..]) && SortedTo(reqs, order[..], |reqs|)
    ensures Stable(reqs, old(order[..]), order[..])
    ensures SortedTo(reqs, old(order[..]), |reqs|) ==> order[..] == old(order[..])
  {
    ghost var from := order[..];
    var i := 1;
    while i < order.Length
      invariant 1 <= i && InRange(reqs, order[..]) && Stable(reqs, from, order[..])
      invariant i <= order.Length ==> SortedTo(reqs, order[..], i)
      invariant i > order.Length ==> order.Length == 0
      invariant SortedTo(reqs, from, |reqs|) ==> order[..] == from
    {
      SinkStable(reqs, from, order[..], i);
      SinkSorted(reqs, order[..], i, i);
      InsertKey(reqs, order, i);
      i := i + 1;
    }
  }

  // ---- Uninitialised order entries ---------------------------------------

  /** The index array before sorting: an entry is set only where the request has a
      buffer, so elsewhere it keeps whatever the stack held. */
  function InitialOrder(reqs: seq<Request>, stack: seq<nat>): (r: seq<nat>)
    requires |stack| == |reqs|
    ensures |r| == |reqs| && (Buffered(reqs) ==> r == Identity(|reqs|))
  {
    seq(|reqs|, i requires 0 <= i < |reqs| => if reqs[i].hasBuffer then i else stack[i])
  }

  /** The batch uses only indices of its own requests, whatever the stack held, exactly
      when no buffer is null. */
  lemma SafeIff(reqs: seq<Request>)
    ensures (forall stack: seq<nat> | |stack| == |reqs| :: InRange(reqs, InitialOrder(reqs, stack))) <==> Buffered(reqs)
  {
    if i :| 0 <= i < |reqs| && !reqs[i].hasBuffer {
      var stack: seq<nat> := seq(|reqs|, _ => |reqs|);
      assert InitialOrder(reqs, stack)[i] == |reqs|;
    }
  }

  /** One request with a null buffer is enough: with 7 on the stack, request 7 of a batch of one is used. */
  lemma NullBufferStrays()
    ensures !InRange([Request(0, false, false)], InitialOrder([Request(0, false, false)], [7]))
  {
    assert InitialOrder([Request(0, false, false)], [7])[0] == 7;
  }

  /** Two writes to one sector and a null buffer whose entry still names the first of them. */
  const REPEATED: seq<Request> := [Request(5, true, true), Request(5, true, true), Request(5, true, false)]

  /** An index left over from before, though inside the batch, executes the first write again
      after the second: the disk ends with the older data. */
  lemma OldIndexUndoesWrite(a: Sector, b: Sector, c: Sector)
    ensures var w, start := World(map[], [a, b, c], Unset(3)), InitialOrder(REPEATED, [9, 9, 0]);
      && InRange(REPEATED, start) && Exec(REPEATED, w, start).disk == map[5 := a]
      && Exec(REPEATED, w, Identity(3)).disk == map[5 := b]
  {
    assert InitialOrder(REPEATED, [9, 9, 0]) == [0, 1, 0];
    var w := World(map[], [a, b, c], Unset(3));
    BothWrites(w);
    Last(REPEATED, w, [0, 1, 0]);
    Last(REPEATED, w, [0, 1, 2]);
    assert [0, 1, 0][..2] == [0, 1] && [0, 1, 2][..2] == [0, 1] && Identity(3) == [0, 1, 2];
  }

  lemma BothWrites(w: World)
    requires Fits(REPEATED, w)
    ensures Exec(REPEATED, w, [0, 1]).disk == w.disk[5 := w.bufs[1]] && Exec(REPEATED, w, [0, 1]).bufs == w.bufs
  {
    Last(REPEATED, w, [0]);
    Last(REPEATED, w, [0, 1]);
    assert [0, 1][..1] == [0] && [0][..0] == [] && Exec(REPEATED, w, []) == w;
    assert w.disk[5 := w.bufs[0]][5 := w.bufs[1]] == w.disk[5 := w.bufs[1]];
  }

  /** What the last request of an order does to the disk. */
  lemma Last(reqs: seq<Request>, w: World, order: seq<nat>)
    requires Fits(reqs, w) && InRange(reqs, order) && order != []
    requires forall i :: 0 <= i < |reqs| ==> reqs[i].write
    ensures var before, i := Exec(reqs, w, order[..|order| - 1]), order[|order| - 1];
      && Exec(reqs, w, order).bufs == before.bufs
      && Exec(reqs, w, order).disk ==
        if reqs[i].hasBuffer then before.disk[reqs[i].lba := before.bufs[i]] else before.disk
  {
  }

  // ---- Batches ---------------------------------------------------------

  datatype Stats = Stats(batches: nat, requests: nat, reordered: nat, maxDepth: nat, lastLba: u32)

  /** Places whose request is not the one submitted there. */
  function Moved(order: seq<nat>, n: nat): nat
    requires n <= |order|
  {
    if n == 0 then 0 else Moved(order, n - 1) + if order[n - 1] != n - 1 then 1 else 0
  }

  lemma {:induction false} NothingMoved(order: seq<nat>, n: nat)
    requires n <= |order|
    ensures Moved(order, n) == 0 <==> forall k :: 0 <= k < n ==> order[k] == k
  {
    if n > 0 { NothingMoved(order, n - 1); }
  }

  lemma {:induction false} MovedCounts(order: seq<nat>, n: nat)
    requires n <= |order|
    ensures Moved(order, n) == |Displaced(order, n)|
  {
    if n > 0 {
      MovedCounts(order, n - 1);
      assert Displaced(order, n) == Displaced(order, n - 1) + if order[n - 1] != n - 1 then {n - 1} else {};
    }
  }

  /** The places whose request was submitted elsewhere. */
  function Displaced(order: seq<nat>, n: nat): set<nat>
    requires n <= |order|
  {
    set k: nat | k < n && order[k] != k
  }

  function Unset(n: nat): (r: seq<int>)
    ensures |r| == n && forall i :: 0 <= i < n ==> r[i] == UNSUPPORTED
  {
    seq(n, _ => UNSUPPORTED)
  }

  /** `order` is the index array `from`, sorted by LBA, requests for one sector in their order. */
  ghost predicate Ordered(reqs: seq<Request>, from: seq<nat>, order: seq<nat>)
    requires InRange(reqs, from)
  {
    Stable(reqs, from, order) && SortedTo(reqs, order, |order|)
  }

  class Scheduler {
    var disk: Disk
    var stats: Stats

    /** What the first `n` requests can see and change. */
    ghost function Snapshot(bufs: array<Sector>, results: array<int>, n: nat): World
      requires n <= bufs.Length && n <= results.Length
      reads this, bufs, results
    {
      World(disk, bufs[..n], results[..n])
    }

    method RunOne(reqs: seq<Request>, idx: nat, bufs: array<Sector>, results: array<int>)
      requires |reqs| <= bufs.Length && |reqs| <= results.Length && idx < |reqs|
      modifies this`disk, bufs, results
      ensures Snapshot(bufs, results, |reqs|) == ExecOne(reqs, old(Snapshot(bufs, results, |reqs|)), idx)
      ensures bufs[|reqs|..] == old(bufs[|reqs|..]) && results[|reqs|..] == old(results[|reqs|..])
    {
      ghost var w := Snapshot(bufs, results, |reqs|);
      if !reqs[idx].hasBuffer { return; }
      if reqs[idx].write {
        disk := disk[reqs[idx].lba := bufs[idx]];
        results[idx] := IO_OK;
      } else if reqs[idx].lba in disk {
        bufs[idx] := disk[reqs[idx].lba];
        results[idx] := IO_OK;
      } else {
        results[idx] := NO_DEVICE;
      }
      assert bufs[..|reqs|] == ExecOne(reqs, w, idx).bufs;
      assert results[..|reqs|] == ExecOne(reqs, w, idx).results;
    }

    /** Execute the requests in the given order, filling buffers and results in place. */
    method Execute(reqs: seq<Request>, order: array<nat>, bufs: array<Sector>, results: array<int>)
      returns (processed: nat)
      requires |reqs| <= bufs.Length && |reqs| <= results.Length && InRange(reqs, order[..])
      modifies this, bufs, results
      ensures Snapshot(bufs, results, |reqs|) == Exec(reqs, old(Snapshot(bufs, results, |reqs|)), order[..])
      ensures bufs[|reqs|..] == old(bufs[|reqs|..]) && results[|reqs|..] == old(results[|reqs|..])
      ensures stats == old(stats).(reordered := stats.reordered, lastLba := stats.lastLba)
      ensures Buffered(reqs) ==>
        && processed == order.Length && stats.reordered == old(stats.reordered) + Moved(order[..], order.Length)
        && (order.Length > 0 ==> stats.lastLba == reqs[order[order.Length - 1]].lba)
    {
      ghost var w0, all := Snapshot(bufs, results, |reqs|), order[..];
      processed := 0;
      for pos := 0 to order.Length
        invariant order[..] == all
        invariant Snapshot(bufs, results, |reqs|) == Exec(reqs, w0, all[..pos])
        invariant bufs[|reqs|..] == old(bufs[|reqs|..]) && results[|reqs|..] == old(results[|reqs|..])
        invariant stats == old(stats).(reordered := stats.reordered, lastLba := stats.lastLba)
        invariant Buffered(reqs) ==> processed == pos && stats.reordered == old(stats.reordered) + Moved(all, pos)
        invariant Buffered(reqs) && pos > 0 ==> stats.lastLba == reqs[order[pos - 1]].lba
      {
        var idx := order[pos];
        assert all[..pos + 1][..pos] == all[..pos];
        RunOne(reqs, idx, bufs, results);
        if reqs[idx].hasBuffer {
          processed := processed + 1;
          stats := stats.(lastLba := reqs[idx].lba);
          if idx != pos { stats := stats.(reordered := stats.reordered + 1); }
        }
      }
      assert all[..order.Length] == all;
    }

    /** Sort the index array by LBA and execute it: the effect is that of executing it unsorted. */
    method RunSorted(reqs: seq<Request>, start: seq<nat>, bufs: array<Sector>, results: array<int>)
      returns (processed: nat, ghost order: seq<nat>)
      requires |reqs| <= bufs.Length && |reqs| <= results.Length && |start| == |reqs| && InRange(reqs, start)
      modifies this, bufs, results
      ensures bufs[|reqs|..] == old(bufs[|reqs|..]) && results[|reqs|..] == old(results[|reqs|..])
      ensures stats == old(stats).(reordered := stats.reordered, lastLba := stats.lastLba)
      ensures Ordered(reqs, start, order)
      ensures Snapshot(bufs, results, |reqs|) == Exec(reqs, old(Snapshot(bufs, results, |reqs|)), start)
      ensures Buffered(reqs) && start == Identity(|reqs|) ==>
        processed == |reqs| && (stats.reordered == old(stats.reordered) <==> NonDecreasing(reqs))
    {
      var places := new nat[|start|](i requires 0 <= i < |start| => start[i]);
      assert places[..] == start;
      SortOrder(reqs, places);
      order := places[..];
      SameEffect(reqs, Snapshot(bufs, results, |reqs|), order, start);
      if start == Identity(|reqs|) { CountsAsReordered(reqs, order); }
      processed := Execute(reqs, places, bufs, results);
    }

    /** disk_process_batch, at most 64 requests with buffers of their own; `stack` is what
        the index array held before. An index outside the batch is used (None) exactly
        when such a one is left in the array. Otherwise the disk, the buffers and the
        results are those of executing the array as it was before sorting: with all buffers
        given, in submission order, and then the batch counts as reordered exactly when its
        LBAs were out of order. */
    method ProcessBatch(batch: seq<Request>, stack: seq<nat>, bufs: array<Sector>, results: array<int>)
      returns (processed: Option<nat>, ghost order: seq<nat>)
      requires bufs.Length == results.Length == |batch| && |stack| == MAX_BATCH
      modifies this, bufs, results
      ensures var n := Depth(batch);
        && (processed.None? <==> !InRange(batch[..n], InitialOrder(batch[..n], stack[..n])))
        && (Buffered(batch[..n]) ==>
          && processed == Some(n)
          && Snapshot(bufs, results, n) == Exec(batch[..n], World(old(disk), old(bufs[..])[..n], Unset(n)), Identity(n))
          && (stats.reordered == old(stats.reordered) <==> NonDecreasing(batch[..n])))
      ensures var n := Depth(batch);
        processed.Some? ==>
          && Ordered(batch[..n], InitialOrder(batch[..n], stack[..n]), order)
          && Snapshot(bufs, results, n)
               == Exec(batch[..n], World(old(disk), old(bufs[..])[..n], Unset(n)), InitialOrder(batch[..n], stack[..n]))
      ensures bufs[Depth(batch)..] == old(bufs[..])[Depth(batch)..]
      ensures results[Depth(batch)..] == old(results[..])[Depth(batch)..]
      ensures batch == [] ==> stats == old(stats)
      ensures processed.Some? && batch != [] ==> stats == old(stats).(
        batches := old(stats.batches) + 1, requests := old(stats.requests) + processed.value,
        reordered := stats.reordered,
        maxDepth := if Depth(batch) > old(stats.maxDepth) then Depth(batch) else old(stats.maxDepth),
        lastLba := stats.lastLba)
    {
      order := [];
      if |batch| == 0 { return Some(0), []; }
      var n := Depth(batch);
      var reqs, start := batch[..n], InitialOrder(batch[..n], stack[..n]);
      forall i | 0 <= i < n { results[i] := UNSUPPORTED; }
      assert results[..n] == Unset(n);
      assert bufs[..n] == old(bufs[..])[..n];
      var strays := Strays(reqs, start);
      if strays { return None, []; }
      var done;
      done, order := RunSorted(reqs, start, bufs, results);
      ghost var after := Snapshot(bufs, results, n);
      stats := stats.(batches := stats.batches + 1, requests := stats.requests + done,
                      maxDepth := if n > stats.maxDepth then n else stats.maxDepth);
      assert Snapshot(bufs, results, n) == after;
      processed := Some(done);
    }
  }

  /** How many requests of the batch are processed: at most 64. */
  function Depth(batch: seq<Request>): (n: nat)
    ensures |batch| <= 64 ==> n == |batch|
    ensures |batch| > 64 ==> n == 64
  {
    if |batch| > MAX_BATCH then MAX_BATCH else |batch|
  }

  /** Every entry of the array is used as an index: by the execution, if no comparison met it before. */
  method Strays(reqs: seq<Request>, order: seq<nat>) returns (out: bool)
    ensures out <==> !InRange(reqs, order)
  {
    for pos := 0 to |order|
      invariant forall k :: 0 <= k < pos ==> order[k] < |reqs|
    {
      if order[pos] >= |reqs| { return true; }
    }
    out := false;
  }

  lemma CountsAsReordered(reqs: seq<Request>, order: seq<nat>)
    requires |order| == |reqs|
    requires NonDecreasing(reqs) ==> order == Identity(|reqs|)
    requires InRange(reqs, order) && SortedTo(reqs, order, |reqs|)
    ensures Moved(order, |order|) == 0 <==> NonDecreasing(reqs)
  {
    NothingMoved(order, |order|);
    if Moved(order, |order|) == 0 {
      forall a, b | 0 <= a < b < |reqs| ensures reqs[a].lba <= reqs[b].lba {
        assert order[a] == a && order[b] == b;
      }
    }
  }
}
