/** The physical page allocator: one bit for each 4 KB page of 32 MB. */
module Pmm {
  import opened Bytes
  import opened Bitmap
  import opened Sets

  const PAGES: nat := 8192
  /** Pages of the first megabyte, which are never freed. */
  const LOW: nat := 256

  /** Pages the kernel can reach at their own addresses: the first 8 MB. */
  const MAPPED_FRAMES: nat := 2048

  /** How a call that takes pages ends; a fault is an access to a page that is not mapped. */
  datatype Outcome = Done | NoMemory | Fault

  /** No page is free. */
  ghost predicate Full(used: set<nat>) { forall p: nat :: p < PAGES ==> p in used }

  /** No mapped page is free. */
  ghost predicate LowFull(used: set<nat>) { forall p: nat :: p < MAPPED_FRAMES ==> p in used }

  /** The lowest free page, 0 if there is none: the page handed out next. */
  ghost function NextPage(used: set<nat>): nat { Least(Below(PAGES) - used) }

  /** The pages used once one more has been asked for. */
  ghost function OneMoreUsed(used: set<nat>): set<nat> { if Full(used) then used else used + {NextPage(used)} }

  lemma LowestIsNext(used: set<nat>, p: nat)
    requires p < PAGES && p !in used && forall q: nat :: q < p ==> q in used
    ensures p == NextPage(used) && !Full(used)
  {
    assert p in Below(PAGES) - used;
  }

  /** Taking a page that the kernel writes to at its own address: the lowest free page must be
      mapped. */
  ghost function GrowthOutcome(used: set<nat>): Outcome
  {
    if Full(used) then NoMemory else if LowFull(used) then Fault else Done
  }

  /** How many pages are free, and how many of the mapped ones. */
  ghost function Free(used: set<nat>): int { PAGES - |used| }

  ghost function LowFree(used: set<nat>): int { MAPPED_FRAMES - |UsedBelow(used, MAPPED_FRAMES)| }

  lemma Counts(used: set<nat>, n: nat)
    ensures (forall p :: p in used ==> p < n) ==> |used| <= n
    ensures (forall p: nat :: p < n ==> p in used) ==> |used| >= n
  {
    var b := Below(n);
    assert |used * b| + |used - b| == |used| by { assert used == used * b + (used - b); }
    assert |used * b| + |b - used| == |b| by { assert b == used * b + (b - used); }
    if forall p :: p in used ==> p < n { assert used - b == {}; }
    if forall p: nat :: p < n ==> p in used { assert b - used == {}; }
  }

  /** The first `n` bits are set exactly for the pages in `used`. */
  ghost predicate Represents(bits: seq<byte>, used: set<nat>, n: nat)
    requires n <= 8 * |bits|
  {
    n == 0 || (Represents(bits, used, n - 1) && (Test(bits, n - 1) <==> n - 1 in used))
  }

  lemma {:induction false} RepresentsAt(bits: seq<byte>, used: set<nat>, n: nat)
    requires n <= 8 * |bits|
    ensures Represents(bits, used, n) <==> forall p: nat :: p < n ==> (Test(bits, p) <==> p in used)
  {
    if n > 0 { RepresentsAt(bits, used, n - 1); }
  }

  /** The bitmap holds the set `used` of pages, the first megabyte among them. */
  ghost predicate Holds(bits: seq<byte>, used: set<nat>)
  {
    && 8 * |bits| == PAGES && Represents(bits, used, 8 * |bits|)
    && (forall p: nat :: p < LOW ==> p in used) && (forall p :: p in used ==> p < PAGES)
  }

  /** The bitmap is determined by the set of used pages. */
  lemma SameUsed(a: seq<byte>, b: seq<byte>, used: set<nat>)
    requires Holds(a, used) && Holds(b, used)
    ensures a == b
  {
    RepresentsAt(a, used, 8 * |a|);
    RepresentsAt(b, used, 8 * |b|);
    SameBits(a, b);
  }

  lemma PutRepresents(bits: seq<byte>, used: set<nat>, p: nat, v: bool)
    requires p < 8 * |bits| && Represents(bits, used, 8 * |bits|)
    ensures Represents(Put(bits, p, v), if v then used + {p} else used - {p}, 8 * |bits|)
  {
    RepresentsAt(bits, used, 8 * |bits|);
    RepresentsAt(Put(bits, p, v), if v then used + {p} else used - {p}, 8 * |bits|);
  }

  lemma NoneUsed(bits: seq<byte>)
    requires forall n :: 0 <= n < |bits| ==> bits[n] == 0
    ensures Represents(bits, {}, 8 * |bits|)
  {
    forall p: nat | p < 8 * |bits| ensures !Test(bits, p) { ZeroBits(p % 8); }
    RepresentsAt(bits, {}, 8 * |bits|);
  }

  /** Page numbers stand for page addresses divided by 4096; 0 is also the null address. */
  class Allocator {
    var bits: seq<byte>
    ghost var used: set<nat>

    ghost predicate Valid()
      reads this
    {
      Holds(bits, used)
    }

    /** init_pmm: everything below the end of the kernel image, which the linker script
        places above the first megabyte, is used. */
    constructor (kernelTop: nat)
      requires LOW <= kernelTop <= PAGES
      ensures Valid() && forall p: nat :: p in used <==> p < kernelTop
    {
      var b: seq<byte> := seq(1024, _ => 0);
      NoneUsed(b);
      var p: nat := 0;
      while p < kernelTop
        invariant p <= kernelTop && 8 * |b| == PAGES && Represents(b, Below(p), 8 * |b|)
      {
        PutRepresents(b, Below(p), p, true);
        b := Put(b, p, true);
        p := p + 1;
      }
      bits, used := b, Below(p);
    }

    method SetPage(p: nat)
      requires Valid() && p < PAGES
      modifies this
      ensures Valid() && used == old(used) + {p}
    {
      PutRepresents(bits, used, p, true);
      bits, used := Put(bits, p, true), used + {p};
    }

    /** Freeing a page of the first megabyte does nothing. */
    method FreePage(p: nat)
      requires Valid() && p < PAGES
      modifies this
      ensures Valid() && used == if p < LOW then old(used) else old(used) - {p}
    {
      if p < LOW { return; }
      PutRepresents(bits, used, p, false);
      bits, used := Put(bits, p, false), used - {p};
    }

    method IsUsed(p: nat) returns (u: bool)
      requires Valid() && p < PAGES
      ensures u <==> p in used
    {
      RepresentsAt(bits, used, 8 * |bits|);
      u := Test(bits, p);
    }

    /** The lowest free page, or 0 when there is none. */
    method AllocPage() returns (p: nat)
      requires Valid()
      modifies this
      ensures Valid()
      ensures p == 0 ==> bits == old(bits) && used == old(used) && Full(used)
      ensures p != 0 ==> LOW <= p < PAGES && p !in old(used) && used == old(used) + {p}
      ensures p != 0 ==> p == NextPage(old(used)) && forall q: nat :: q < p ==> q in old(used)
      ensures used == OneMoreUsed(old(used))
    {
      p := 0;
      while p < PAGES
        invariant p <= PAGES && bits == old(bits) && used == old(used) && forall q: nat :: q < p ==> q in used
      {
        var u := IsUsed(p);
        if !u {
          LowestIsNext(used, p);
          SetPage(p);
          return;
        }
        p := p + 1;
      }
      p := 0;
    }

    /** The pages still to be had: pmm_get_free_pages. */
    method FreePages() returns (n: nat)
      requires Valid()
      ensures n == PAGES - |used|
    {
      n := 0;
      var p: nat := LOW;
      LowUsed(used, p);
      while p < PAGES
        invariant LOW <= p <= PAGES && n == p - |UsedBelow(used, p)|
      {
        var u := IsUsed(p);
        OneMore(used, p);
        if !u { n := n + 1; }
        p := p + 1;
      }
      AllBelow(used);
    }
  }

  ghost function UsedBelow(used: set<nat>, n: nat): set<nat> { set p | p in used && p < n }

  lemma OneMore(used: set<nat>, n: nat)
    ensures |UsedBelow(used, n + 1)| == |UsedBelow(used, n)| + if n in used then 1 else 0
  {
    assert UsedBelow(used, n + 1) == UsedBelow(used, n) + if n in used then {n} else {};
  }

  lemma AllBelow(used: set<nat>)
    requires forall p :: p in used ==> p < PAGES
    ensures UsedBelow(used, PAGES) == used
  {
  }

  lemma LowUsed(used: set<nat>, n: nat)
    requires forall p: nat :: p < n ==> p in used
    ensures |UsedBelow(used, n)| == n
  {
    assert UsedBelow(used, n) == Below(n);
  }
}
