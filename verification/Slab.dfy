/** The slab allocator: four classes of objects carved out of pages, with free lists
    threaded through the free objects themselves. */
module Slab {
  import opened Wrappers
  import opened Pmm

  const PAGE: nat := 4096
  const CLASSES: nat := 4
  const SIZES: seq<nat> := [32, 64, 128, 256]

  /** A byte address as page number and offset. */
  datatype Addr = Addr(page: nat, off: nat)

  const NULL: Addr := Addr(0, 0)

  datatype Cache = Cache(objSize: nat, freeList: Addr, pages: nat, allocs: nat, frees: nat, inUse: nat)

  /** What a class consists of: its free list in order, its live objects, its pages. */
  datatype View = View(free: seq<Addr>, live: set<Addr>, pages: set<nat>)

  predicate SizeOk(z: nat) { z == 32 || z == 64 || z == 128 || z == 256 }

  /** `off` is a multiple of `z`. */
  predicate Aligned(z: nat, off: nat)
    requires z > 0
  {
    if off < z then off == 0 else Aligned(z, off - z)
  }

  lemma {:induction false} AlignedIsMultiple(z: nat, off: nat) returns (k: nat)
    requires z > 0 && Aligned(z, off)
    ensures off == k * z
  {
    if off == 0 {
      k := 0;
    } else {
      var j := AlignedIsMultiple(z, off - z);
      k := j + 1;
    }
  }

  /** An object boundary in one of the pages. */
  predicate Slot(z: nat, pages: set<nat>, a: Addr)
    requires z > 0
  {
    a.page in pages && a.off < PAGE && Aligned(z, a.off)
  }

  function PerPage(z: nat): (n: nat)
    requires SizeOk(z)
    ensures n * z == PAGE
  {
    if z == 32 then 128 else if z == 64 then 64 else if z == 128 then 32 else 16
  }

  /** The list starting at `head` visits exactly these nodes and ends. */
  ghost predicate Chain(next: map<Addr, Addr>, head: Addr, list: seq<Addr>)
    decreases |list|
  {
    if list == [] then head == NULL
    else head == list[0] && head != NULL && head in next && Chain(next, next[head], list[1..])
  }

  ghost predicate NoRepeat(list: seq<Addr>) { forall i, j :: 0 <= i < j < |list| ==> list[i] != list[j] }

  /** Free and live objects are different, and together all objects of the class's pages. */
  ghost predicate Tiles(z: nat, v: View)
  {
    && SizeOk(z) && NoRepeat(v.free) && (forall a :: a in v.live ==> a !in v.free)
    && (forall a :: a in v.free || a in v.live <==> Slot(z, v.pages, a))
  }

  ghost predicate Counted(c: Cache, v: View)
  {
    && c.inUse == |v.live| && c.allocs == c.frees + c.inUse && c.pages == |v.pages|
    && SizeOk(c.objSize) && c.inUse + |v.free| == c.pages * PerPage(c.objSize)
  }

  ghost predicate ClassOk(c: Cache, v: View, next: map<Addr, Addr>)
  {
    Tiles(c.objSize, v) && Counted(c, v) && Chain(next, c.freeList, v.free)
  }

  // ---- Boundaries -------------------------------------------------------

  lemma {:induction false} NextBoundary(z: nat, off: nat, x: nat)
    requires z > 0 && Aligned(z, off) && off < x < off + z
    ensures !Aligned(z, x)
  {
    if off >= z { NextBoundary(z, off - z, x - z); }
  }

  lemma {:induction false} Multiples(z: nat, k: nat)
    requires z > 0
    ensures Aligned(z, k * z)
  {
    if k > 0 {
      Multiples(z, k - 1);
      assert k * z == (k - 1) * z + z;
    }
  }

  lemma LastFits(z: nat, off: nat)
    requires SizeOk(z) && off < PAGE && Aligned(z, off)
    ensures off + z <= PAGE
  {
    Multiples(z, PerPage(z));
    if off + z > PAGE { NextBoundary(z, off, PAGE); }
  }

  /** Objects of one class are disjoint byte ranges inside their page. */
  lemma RangesDisjoint(z: nat, pages: set<nat>, a: Addr, b: Addr)
    requires SizeOk(z) && Slot(z, pages, a) && Slot(z, pages, b) && a != b
    ensures a.off + z <= PAGE && b.off + z <= PAGE
    ensures a.page != b.page || a.off + z <= b.off || b.off + z <= a.off
  {
    LastFits(z, a.off);
    LastFits(z, b.off);
    if a.page == b.page {
      if a.off < b.off < a.off + z { NextBoundary(z, a.off, b.off); }
      if b.off < a.off < b.off + z { NextBoundary(z, b.off, a.off); }
    }
  }

  // ---- Lists ------------------------------------------------------------

  lemma {:induction false} ChainKept(next: map<Addr, Addr>, next': map<Addr, Addr>, head: Addr, list: seq<Addr>)
    requires Chain(next, head, list)
    requires forall a :: a in list && a in next ==> a in next' && next'[a] == next[a]
    ensures Chain(next', head, list)
    decreases |list|
  {
    if list != [] {
      assert head in list;
      ChainKept(next, next', next[head], list[1..]);
    }
  }

  /** A chain is never followed into a cycle: its list is determined. */
  lemma {:induction false} ChainUnique(next: map<Addr, Addr>, head: Addr, a: seq<Addr>, b: seq<Addr>)
    requires Chain(next, head, a) && Chain(next, head, b)
    ensures a == b
    decreases |a|
  {
    if a != [] && b != [] {
      ChainUnique(next, next[head], a[1..], b[1..]);
      assert a == [a[0]] + a[1..] && b == [b[0]] + b[1..];
    }
  }

  lemma ChainPushed(next: map<Addr, Addr>, head: Addr, list: seq<Addr>, a: Addr)
    requires Chain(next, head, list) && a !in list && a != NULL
    ensures Chain(next[a := head], a, [a] + list)
  {
    ChainKept(next, next[a := head], head, list);
    assert ([a] + list)[1..] == list;
  }

  lemma PushedNoRepeat(list: seq<Addr>, a: Addr)
    requires NoRepeat(list) && a !in list
    ensures NoRepeat([a] + list)
  {
  }

  // ---- Taking and giving back -------------------------------------------

  ghost function Taken(v: View): View
    requires v.free != []
  {
    v.(free := v.free[1..], live := v.live + {v.free[0]})
  }

  ghost function Returned(v: View, a: Addr): View { v.(free := [a] + v.free, live := v.live - {a}) }

  lemma TakenTiles(z: nat, v: View)
    requires Tiles(z, v) && v.free != []
    ensures Tiles(z, Taken(v)) && v.free[0] !in v.live
  {
    var w := Taken(v);
    assert v.free[0] in v.free;
    assert forall a :: a in v.free <==> a == v.free[0] || a in w.free;
    assert v.free[0] !in w.free;
  }

  lemma ReturnedTiles(z: nat, v: View, a: Addr)
    requires Tiles(z, v) && a in v.live
    ensures Tiles(z, Returned(v, a))
  {
    PushedNoRepeat(v.free, a);
    assert forall b :: b in [a] + v.free <==> b == a || b in v.free;
  }

  // ---- Growing ----------------------------------------------------------

  /** The objects of `page` below `off` have been added to the free list. */
  ghost predicate Growing(z: nat, v: View, page: nat, off: nat)
  {
    && SizeOk(z) && page !in v.pages && NoRepeat(v.free) && (forall a :: a in v.live ==> a !in v.free)
    && (forall a :: a in v.free || a in v.live <==>
      Slot(z, v.pages, a) || (a.page == page && a.off < off && Aligned(z, a.off)))
  }

  ghost function Pushed(v: View, a: Addr): View { v.(free := [a] + v.free) }

  lemma GrowStart(z: nat, v: View, page: nat)
    requires Tiles(z, v) && page !in v.pages
    ensures Growing(z, v, page, 0)
  {
  }

  lemma GrowStep(z: nat, v: View, page: nat, off: nat)
    requires Growing(z, v, page, off) && Aligned(z, off)
    ensures Addr(page, off) !in v.free && Growing(z, Pushed(v, Addr(page, off)), page, off + z)
  {
    var a := Addr(page, off);
    assert a !in v.free && a !in v.live;
    PushedNoRepeat(v.free, a);
    assert forall b :: b in [a] + v.free <==> b == a || b in v.free;
    forall b: Addr | b.page == page && Aligned(z, b.off) && b != a
      ensures b.off < off + z <==> b.off < off
    {
      if off < b.off < off + z { NextBoundary(z, off, b.off); }
    }
  }

  lemma GrowEnd(z: nat, v: View, page: nat)
    requires Growing(z, v, page, PAGE)
    ensures Tiles(z, v.(pages := v.pages + {page}))
  {
  }

  /** Turns the growing loop still makes at offset `off`. */
  ghost function TurnsFrom(z: nat, off: nat): nat
    requires z > 0
    decreases PAGE - off
  {
    if off + z > PAGE then 0 else 1 + TurnsFrom(z, off + z)
  }

  /** The loop makes as many turns as objects fit. */
  lemma {:induction false} Turns(z: nat, k: nat)
    requires SizeOk(z) && k <= PerPage(z)
    ensures TurnsFrom(z, k * z) == PerPage(z) - k
    decreases PerPage(z) - k
  {
    if k < PerPage(z) {
      assert (k + 1) * z == k * z + z <= PerPage(z) * z;
      Turns(z, k + 1);
    }
  }

  /** The objects of `page` below `off` in the order they are on the free list: last pushed first. */
  ghost function Threaded(z: nat, page: nat, off: nat): seq<Addr>
    requires z > 0
  {
    if off < z then [] else [Addr(page, off - z)] + Threaded(z, page, off - z)
  }

  /** The class with one page more, all of it free. */
  ghost function Grown(z: nat, v: View, page: nat): View
    requires z > 0
  {
    View(Threaded(z, page, PAGE) + v.free, v.live, v.pages + {page})
  }

  /** The class as an allocation finds it: with the next page, if it had no free object. */
  ghost function Stocked(z: nat, v: View, used: set<nat>): (w: View)
    requires SizeOk(z)
    ensures w.free != []
  {
    if v.free != [] then v else Grown(z, v, NextPage(used))
  }

  ghost predicate PagesApart(views: seq<View>, whole: set<nat>)
  {
    && (forall i, j :: 0 <= i < j < |views| ==> views[i].pages !! views[j].pages)
    && (forall i :: 0 <= i < |views| ==> views[i].pages !! whole)
  }

  ghost predicate PagesUsed(views: seq<View>, whole: set<nat>, used: set<nat>)
  {
    && (forall i :: 0 <= i < |views| ==>
      views[i].pages <= used && forall p :: p in views[i].pages ==> LOW <= p < MAPPED_FRAMES)
    && whole <= used && forall p :: p in whole ==> p >= LOW
  }

  ghost predicate AllOk(caches: seq<Cache>, views: seq<View>, next: map<Addr, Addr>)
  {
    && |caches| == |views| == CLASSES
    && (forall i :: 0 <= i < CLASSES ==> caches[i].objSize == SIZES[i] && ClassOk(caches[i], views[i], next))
  }

  /** One class changes, and memory only in pages the others do not have. */
  lemma ClassReplaced(
    caches: seq<Cache>, views: seq<View>, next: map<Addr, Addr>, i: nat, c: Cache, v: View, next': map<Addr, Addr>,
    pages: set<nat>)
    requires AllOk(caches, views, next) && i < CLASSES && c.objSize == SIZES[i] && ClassOk(c, v, next')
    requires forall a :: a in next && a.page !in pages ==> a in next' && next'[a] == next[a]
    requires forall k :: 0 <= k < CLASSES && k != i ==> views[k].pages !! pages
    ensures AllOk(caches[i := c], views[i := v], next')
  {
    forall k | 0 <= k < CLASSES && k != i ensures ClassOk(caches[k], views[k], next') {
      ClassKept(caches[k], views[k], next, next', pages);
    }
  }

  lemma PageAdded(views: seq<View>, whole: set<nat>, used: set<nat>, i: nat, v: View, page: nat)
    requires PagesApart(views, whole) && PagesUsed(views, whole, used) && i < |views|
    requires page !in used && LOW <= page < MAPPED_FRAMES && v.pages == views[i].pages + {page}
    ensures PagesApart(views[i := v], whole) && PagesUsed(views[i := v], whole, used + {page})
  {
  }

  lemma PagesKept(views: seq<View>, whole: set<nat>, used: set<nat>, i: nat, v: View)
    requires PagesApart(views, whole) && PagesUsed(views, whole, used) && i < |views| && v.pages == views[i].pages
    ensures PagesApart(views[i := v], whole) && PagesUsed(views[i := v], whole, used)
  {
  }

  lemma OnePage(views: seq<View>, whole: set<nat>, i: nat, page: nat)
    requires PagesApart(views, whole) && i < |views| && page in views[i].pages
    ensures forall k :: 0 <= k < |views| && k != i ==> views[k].pages !! {page}
  {
  }

  /** A four-byte word at `a` lies in the object. */
  predicate Inside(a: Addr, obj: Addr, z: nat) { a.page == obj.page && obj.off <= a.off && a.off + 4 <= obj.off + z }

  /** What a program may write to is not a node of a free list. */
  lemma NotFree(
    caches: seq<Cache>, views: seq<View>, next: map<Addr, Addr>, whole: set<nat>, a: Addr, i: nat, obj: Addr, k: nat)
    requires AllOk(caches, views, next) && PagesApart(views, whole) && k < CLASSES
    requires a.page in whole || (i < CLASSES && obj in views[i].live && Inside(a, obj, SIZES[i]))
    ensures a !in views[k].free
  {
    if a in views[k].free {
      assert Slot(SIZES[k], views[k].pages, a);
      if a.page !in whole {
        assert Slot(SIZES[i], views[i].pages, obj);
        if k == i { RangesDisjoint(SIZES[i], views[i].pages, a, obj); }
        assert false;
      }
    }
  }

  ghost predicate IsObject(views: seq<View>, i: nat, a: Addr)
  {
    i < |views| && (a in views[i].live || a in views[i].free)
  }

  /** Live and free objects of all classes lie at multiples of their size inside used
      pages, none of them handed out whole, and are pairwise disjoint byte ranges. */
  lemma ObjectsDisjoint(
    caches: seq<Cache>, views: seq<View>, next: map<Addr, Addr>, whole: set<nat>, used: set<nat>, i: nat, a: Addr,
    j: nat, b: Addr)
    returns (k: nat)
    requires AllOk(caches, views, next) && PagesApart(views, whole) && PagesUsed(views, whole, used)
    requires IsObject(views, i, a) && IsObject(views, j, b) && (i, a) != (j, b)
    ensures a.page in used && a.page !in whole && a.off == k * SIZES[i] && a.off + SIZES[i] <= PAGE
    ensures a.page != b.page || a.off + SIZES[i] <= b.off || b.off + SIZES[j] <= a.off
  {
    assert Slot(SIZES[i], views[i].pages, a) && Slot(SIZES[j], views[j].pages, b);
    k := AlignedIsMultiple(SIZES[i], a.off);
    if i == j {
      RangesDisjoint(SIZES[i], views[i].pages, a, b);
    } else {
      LastFits(SIZES[i], a.off);
    }
  }

  ghost function AllocOutcome(views: seq<View>, i: nat, used: set<nat>): Outcome
    requires i <= |views|
  {
    if i == |views| then (if Full(used) then NoMemory else Done)
    else if views[i].free != [] then Done
    else GrowthOutcome(used)
  }

  /** A live object has all its bytes in a used page. */
  lemma LiveFits(
    caches: seq<Cache>, views: seq<View>, next: map<Addr, Addr>, whole: set<nat>, used: set<nat>, i: nat, a: Addr)
    requires AllOk(caches, views, next) && PagesUsed(views, whole, used) && i < CLASSES && a in views[i].live
    ensures a.off + SIZES[i] <= PAGE && a.page in used
  {
    assert Slot(SIZES[i], views[i].pages, a);
    LastFits(SIZES[i], a.off);
  }

  const EMPTY: View := View([], {}, {})

  function Fresh(z: nat): Cache { Cache(z, NULL, 0, 0, 0, 0) }

  lemma FreshOk(z: nat)
    requires SizeOk(z)
    ensures ClassOk(Fresh(z), EMPTY, map[])
  {
  }

  lemma AllFresh(caches: seq<Cache>, views: seq<View>, used: set<nat>)
    requires |caches| == |views| == CLASSES
    requires forall i :: 0 <= i < CLASSES ==> caches[i] == Fresh(SIZES[i]) && views[i] == EMPTY
    ensures AllOk(caches, views, map[]) && PagesApart(views, {}) && PagesUsed(views, {}, used)
  {
    forall i | 0 <= i < CLASSES ensures ClassOk(caches[i], views[i], map[]) { FreshOk(SIZES[i]); }
  }

  class Allocation {
    const pmm: Allocator
    var caches: seq<Cache>
    /** The word stored at each address that has been written. */
    var next: map<Addr, Addr>
    ghost var views: seq<View>
    /** Pages handed out whole. */
    ghost var whole: set<nat>

    ghost predicate Valid()
      reads this, pmm
    {
      pmm.Valid() && AllOk(caches, views, next) && PagesApart(views, whole) && PagesUsed(views, whole, pmm.used)
    }

    constructor (pmm: Allocator)
      requires pmm.Valid()
      ensures Valid() && this.pmm == pmm && whole == {}
      ensures forall i :: 0 <= i < CLASSES ==> views[i] == EMPTY && caches[i] == Fresh(SIZES[i])
    {
      this.pmm := pmm;
      caches := [Fresh(32), Fresh(64), Fresh(128), Fresh(256)];
      next, views, whole := map[], [EMPTY, EMPTY, EMPTY, EMPTY], {};
      AllFresh([Fresh(32), Fresh(64), Fresh(128), Fresh(256)], [EMPTY, EMPTY, EMPTY, EMPTY], pmm.used);
    }

    /** slab_pick_cache: the first class whose objects are large enough. */
    method PickCache(size: nat) returns (i: nat)
      requires |caches| == CLASSES && forall k :: 0 <= k < CLASSES ==> caches[k].objSize == SIZES[k]
      ensures i == ClassFor(size)
    {
      i := 0;
      while i < CLASSES && caches[i].objSize < size
        invariant i <= CLASSES && forall k :: 0 <= k < i ==> SIZES[k] < size
      {
        i := i + 1;
      }
      assert i > 0 ==> SIZES[i - 1] < size;
      assert i < CLASSES ==> size <= SIZES[i];
    }

    /** slab_grow_cache. */
    method Grow(i: nat) returns (r: Outcome)
      requires Valid() && i < CLASSES
      modifies this, pmm
      ensures Valid() && whole == old(whole) && Calls(caches) == old(Calls(caches))
      ensures pmm.used == OneMoreUsed(old(pmm.used))
      ensures r == GrowthOutcome(old(pmm.used))
      ensures !r.Done? ==> views == old(views)
      ensures r.NoMemory? ==> pmm.used == old(pmm.used)
      ensures r.Done? ==>
        && |views| == CLASSES && |old(views)| == CLASSES
        && views == old(views)[i := Grown(SIZES[i], old(views)[i], NextPage(old(pmm.used)))]
        && |views[i].free| == |old(views)[i].free| + PerPage(SIZES[i]) && Lives(views) == old(Lives(views))
    {
      ghost var used := pmm.used;
      var page := pmm.AllocPage();
      if page == 0 { return NoMemory; }
      if page >= MAPPED_FRAMES { return Fault; }
      AddPage(i, page, used);
      SameLives(old(views), i, views[i]);
      r := Done;
    }

    method AddPage(i: nat, page: nat, ghost used: set<nat>)
      requires pmm.Valid() && AllOk(caches, views, next) && PagesApart(views, whole) && PagesUsed(views, whole, used)
      requires i < CLASSES && page !in used && LOW <= page < MAPPED_FRAMES && pmm.used == used + {page}
      modifies this
      ensures Valid() && whole == old(whole) && |old(views)| == CLASSES
      ensures views == old(views)[i := Grown(SIZES[i], old(views)[i], page)]
      ensures Calls(caches) == old(Calls(caches))
      ensures |views[i].free| == |old(views)[i].free| + PerPage(SIZES[i])
    {
      var c := caches[i];
      ghost var v := views[i];
      GrowStart(c.objSize, v, page);
      var head, next', grown := Carve(c.objSize, page, c.freeList, next, v);
      GrowClass(c, v, grown, page, head, next');
      var c' := c.(freeList := head, pages := c.pages + 1);
      ghost var v' := grown.(pages := v.pages + {page});
      ClassReplaced(caches, views, next, i, c', v', next', {page});
      SameCalls(caches, i, c');
      PageAdded(views, whole, used, i, v', page);
      caches, next, views := caches[i := c'], next', views[i := v'];
    }

    /** slab_alloc: an object of the class that no one holds, or a whole page for large
        sizes; NULL only when neither the free list nor the page allocator has any. */
    method Alloc(size: nat) returns (r: Outcome, a: Addr)
      requires Valid()
      modifies this, pmm
      ensures Valid()
      ensures r == AllocOutcome(old(views), ClassFor(size), old(pmm.used)) && (a == NULL <==> !r.Done?)
      ensures !r.Done? ==> Lives(views) == old(Lives(views)) && whole == old(whole)
      ensures !r.Done? || ClassFor(size) == CLASSES ==> Calls(caches) == old(Calls(caches))
      ensures r.Done? && ClassFor(size) < CLASSES ==>
        var i := ClassFor(size);
        |old(caches)| == CLASSES && Calls(caches) == Called(old(Calls(caches)), i)
      ensures r.Done? && ClassFor(size) < CLASSES ==>
        && a !in old(views)[ClassFor(size)].live && whole == old(whole) && a.page !in whole
        && Lives(views) == old(Lives(views))[ClassFor(size) := old(views)[ClassFor(size)].live + {a}]
      ensures r.Done? && ClassFor(size) == CLASSES ==>
        a.off == 0 && a.page !in old(pmm.used) && whole == old(whole) + {a.page} && views == old(views)
      ensures r.Done? && ClassFor(size) == CLASSES ==> a.page == NextPage(old(pmm.used))
      ensures pmm.used == if ClassFor(size) < CLASSES && old(views)[ClassFor(size)].free != [] then old(pmm.used)
                          else OneMoreUsed(old(pmm.used))
      ensures r.Done? && ClassFor(size) < CLASSES ==>
        var i := ClassFor(size);
        var stock := Stocked(SIZES[i], old(views)[i], old(pmm.used));
        views == old(views)[i := Taken(stock)] && a == stock.free[0]
      ensures r.Done? && size <= PAGE ==> a.off + size <= PAGE && a.page in pmm.used
    {
      var i := PickCache(size);
      if i == CLASSES {
        r, a := AllocWhole();
      } else {
        r, a := AllocObject(i);
        if r.Done? { LiveFits(caches, views, next, whole, pmm.used, i, a); }
      }
    }

    /** A whole page, for a size over 256. */
    method AllocWhole() returns (r: Outcome, a: Addr)
      requires Valid()
      modifies this, pmm
      ensures Valid() && views == old(views) && caches == old(caches)
      ensures r == (if Full(old(pmm.used)) then NoMemory else Done) && pmm.used == OneMoreUsed(old(pmm.used))
      ensures !r.Done? ==> a == NULL && whole == old(whole)
      ensures r.Done? ==>
        && a == Addr(NextPage(old(pmm.used)), 0) && a != NULL && a.page !in old(pmm.used)
        && whole == old(whole) + {a.page}
    {
      var p := pmm.AllocPage();
      if p == 0 { return NoMemory, NULL; }
      whole := whole + {p};
      return Done, Addr(p, 0);
    }

    method AllocObject(i: nat) returns (r: Outcome, a: Addr)
      requires Valid() && i < CLASSES
      modifies this, pmm
      ensures Valid() && whole == old(whole)
      ensures r == (if old(views)[i].free != [] then Done else GrowthOutcome(old(pmm.used)))
      ensures (a == NULL <==> !r.Done?)
      ensures !r.Done? ==> views == old(views) && Calls(caches) == old(Calls(caches))
      ensures r.Done? ==> |old(caches)| == CLASSES && Calls(caches) == Called(old(Calls(caches)), i)
      ensures r.Done? ==> a !in old(views)[i].live && a.page !in whole
      ensures pmm.used == if old(views)[i].free != [] then old(pmm.used) else OneMoreUsed(old(pmm.used))
      ensures r.Done? ==>
        var stock := Stocked(SIZES[i], old(views)[i], old(pmm.used));
        views == old(views)[i := Taken(stock)] && a == stock.free[0]
      ensures r.Done? ==> Lives(views) == old(Lives(views))[i := old(views)[i].live + {a}]
    {
      r := Restock(i);
      if !r.Done? { return r, NULL; }
      a := Take(i);
    }

    /** Grow the class if its free list is empty. */
    method Restock(i: nat) returns (r: Outcome)
      requires Valid() && i < CLASSES
      modifies this, pmm
      ensures Valid() && whole == old(whole) && Calls(caches) == old(Calls(caches)) && |old(views)| == CLASSES
      ensures r == (if old(views)[i].free != [] then Done else GrowthOutcome(old(pmm.used)))
      ensures pmm.used == if old(views)[i].free != [] then old(pmm.used) else OneMoreUsed(old(pmm.used))
      ensures Lives(views) == old(Lives(views))
      ensures views == if r.Done? then old(views)[i := Stocked(SIZES[i], old(views)[i], old(pmm.used))] else old(views)
    {
      assert ClassOk(caches[i], views[i], next);
      if caches[i].freeList == NULL {
        r := Grow(i);
      } else {
        r := Done;
        assert views == views[i := views[i]];
      }
    }

    method Take(i: nat) returns (a: Addr)
      requires Valid() && i < CLASSES && views[i].free != []
      modifies this
      ensures Valid() && whole == old(whole) && a == old(views)[i].free[0]
      ensures views == old(views)[i := Taken(old(views)[i])]
      ensures a != NULL && a !in old(views)[i].live && a.page in views[i].pages
      ensures |old(caches)| == CLASSES && Calls(caches) == Called(old(Calls(caches)), i)
      ensures |old(Lives(views))| == CLASSES && Lives(views) == old(Lives(views))[i := old(Lives(views))[i] + {a}]
    {
      var c := caches[i];
      a := c.freeList;
      ghost var v := views[i];
      TakenTiles(c.objSize, v);
      assert a in v.free;
      var c' := c.(freeList := next[a], allocs := c.allocs + 1, inUse := c.inUse + 1);
      ClassReplaced(caches, views, next, i, c', Taken(v), next, {});
      PagesKept(views, whole, pmm.used, i, Taken(v));
      caches, views := caches[i := c'], views[i := Taken(v)];
    }

    /** slab_free of NULL, or of an object or page that is held under this size. */
    method Free(a: Addr, size: nat) returns (ok: bool)
      requires Valid()
      requires a != NULL ==> if ClassFor(size) < CLASSES then a in views[ClassFor(size)].live else a.page in whole
      modifies this, pmm
      ensures Valid() && (ok <==> a != NULL)
      ensures !ok ==> views == old(views) && whole == old(whole) && pmm.used == old(pmm.used)
      ensures !ok || ClassFor(size) == CLASSES ==> Calls(caches) == old(Calls(caches))
      ensures ok && ClassFor(size) < CLASSES ==>
        var i := ClassFor(size);
        Calls(caches) == old(Calls(caches))[i := (old(caches)[i].allocs, old(caches)[i].frees + 1)]
      ensures ok && ClassFor(size) < CLASSES ==>
        && pmm.used == old(pmm.used) && whole == old(whole)
        && views == old(views)[ClassFor(size) := Returned(old(views)[ClassFor(size)], a)]
      ensures ok && ClassFor(size) == CLASSES ==>
        pmm.used == old(pmm.used) - {a.page} && whole == old(whole) - {a.page} && views == old(views)
    {
      var i := PickCache(size);
      if a == NULL { return false; }
      ok := true;
      if i == CLASSES {
        pmm.FreePage(a.page);
        whole := whole - {a.page};
        return;
      }
      GiveBack(i, a);
    }

    method GiveBack(i: nat, a: Addr)
      requires Valid() && i < CLASSES && a in views[i].live && a != NULL
      modifies this
      ensures Valid() && whole == old(whole) && views == old(views)[i := Returned(old(views)[i], a)]
      ensures Calls(caches) == old(Calls(caches))[i := (old(caches)[i].allocs, old(caches)[i].frees + 1)]
    {
      var c := caches[i];
      ghost var v := views[i];
      var next' := next[a := c.freeList];
      ReturnedTiles(c.objSize, v, a);
      ChainPushed(next, c.freeList, v.free, a);
      var inUse := c.inUse;
      if inUse > 0 { inUse := inUse - 1; }
      var c' := c.(freeList := a, frees := c.frees + 1, inUse := inUse);
      OnePage(views, whole, i, a.page);
      ClassReplaced(caches, views, next, i, c', Returned(v, a), next', {a.page});
      PagesKept(views, whole, pmm.used, i, Returned(v, a));
      caches, next, views := caches[i := c'], next', views[i := Returned(v, a)];
    }

    /** A program writes a word into a page or an object it holds. */
    method UserWrite(a: Addr, w: Addr, ghost i: nat, ghost obj: Addr)
      requires Valid()
      requires a.page in whole || (i < CLASSES && obj in views[i].live && Inside(a, obj, SIZES[i]))
      modifies this`next
      ensures Valid() && next == old(next)[a := w]
    {
      var next' := next[a := w];
      forall k | 0 <= k < CLASSES ensures ClassOk(caches[k], views[k], next') {
        NotFree(caches, views, next, whole, a, i, obj, k);
        ChainKept(next, next', caches[k].freeList, views[k].free);
      }
      next := next';
    }

    /** slab_get_stats: the free objects counted along the list. */
    method Stats(index: int) returns (r: Option<(Cache, nat)>)
      requires Valid()
      ensures r == if 0 <= index < CLASSES then Some((caches[index], |views[index].free|)) else None
      ensures r.Some? ==> r.value.0.inUse + r.value.1 == r.value.0.pages * PerPage(r.value.0.objSize)
    {
      if index < 0 || index >= CLASSES { return None; }
      var n, count := caches[index].freeList, 0;
      ghost var rest := views[index].free;
      while n != NULL
        invariant Chain(next, n, rest) && count + |rest| == |views[index].free|
        decreases |rest|
      {
        count := count + 1;
        n := next[n];
        rest := rest[1..];
      }
      r := Some((caches[index], count));
    }
  }

  /** Allocations and frees counted for each class. */
  ghost function Calls(caches: seq<Cache>): seq<(nat, nat)>
  {
    seq(|caches|, i requires 0 <= i < |caches| => (caches[i].allocs, caches[i].frees))
  }

  /** One more allocation of class `i`. */
  ghost function Called(calls: seq<(nat, nat)>, i: nat): seq<(nat, nat)>
    requires i < |calls|
  {
    calls[i := (calls[i].0 + 1, calls[i].1)]
  }

  lemma SameCalls(caches: seq<Cache>, i: nat, c: Cache)
    requires i < |caches| && c.allocs == caches[i].allocs && c.frees == caches[i].frees
    ensures Calls(caches[i := c]) == Calls(caches)
  {
  }

  ghost function Lives(views: seq<View>): seq<set<Addr>> { seq(|views|, i requires 0 <= i < |views| => views[i].live) }

  lemma SameLives(views: seq<View>, i: nat, v: View)
    requires i < |views| && v.live == views[i].live
    ensures Lives(views[i := v]) == Lives(views)
  {
  }

  /** A class is unaffected by what is stored in other pages. */
  lemma ClassKept(c: Cache, v: View, next: map<Addr, Addr>, next': map<Addr, Addr>, pages: set<nat>)
    requires ClassOk(c, v, next) && v.pages !! pages
    requires forall a :: a in next && a.page !in pages ==> a in next' && next'[a] == next[a]
    ensures ClassOk(c, v, next')
  {
    forall a | a in v.free ensures a.page !in pages { assert Slot(c.objSize, v.pages, a); }
    ChainKept(next, next', c.freeList, v.free);
  }

  lemma GrowClass(c: Cache, v: View, grown: View, page: nat, head: Addr, next: map<Addr, Addr>)
    requires Tiles(c.objSize, v) && Counted(c, v) && page !in v.pages && Growing(c.objSize, grown, page, PAGE)
    requires Chain(next, head, grown.free)
    requires grown.live == v.live && grown.pages == v.pages && |grown.free| == |v.free| + PerPage(c.objSize)
    ensures ClassOk(c.(freeList := head, pages := c.pages + 1), grown.(pages := v.pages + {page}), next)
  {
    GrowEnd(c.objSize, grown, page);
    OneMorePage(c.pages, PerPage(c.objSize));
  }

  lemma OneMorePage(n: nat, per: nat)
    ensures (n + 1) * per == n * per + per
  {
  }

  /** The loop of slab_grow_cache: pushes every object of the page. */
  method Carve(z: nat, page: nat, head: Addr, next: map<Addr, Addr>, ghost v: View)
    returns (head': Addr, next': map<Addr, Addr>, ghost v': View)
    requires Growing(z, v, page, 0) && Chain(next, head, v.free) && page != 0
    ensures Growing(z, v', page, PAGE) && Chain(next', head', v'.free)
    ensures v'.live == v.live && v'.pages == v.pages && |v'.free| == |v.free| + PerPage(z)
    ensures v'.free == Threaded(z, page, PAGE) + v.free
    ensures OnlyPage(next, next', page)
  {
    var off: nat := 0;
    head', next', v' := head, next, v;
    Turns(z, off);
    while off + z <= PAGE
      invariant SizeOk(z) && Carved(z, page, off, head', next', v', next, v)
      decreases PAGE - off
    {
      head', next', v' := CarveOne(z, page, off, head', next', v', next, v);
      off := off + z;
    }
    AtEnd(z, off);
  }

  /** The objects below `off` have been pushed, and as many are still to come as turns. */
  ghost predicate Carved(
    z: nat, page: nat, off: nat, head: Addr, next: map<Addr, Addr>, v: View, next0: map<Addr, Addr>, v0: View)
    requires SizeOk(z)
  {
    && off <= PAGE && Aligned(z, off) && Growing(z, v, page, off) && Chain(next, head, v.free)
    && v.live == v0.live && v.pages == v0.pages && |v.free| + TurnsFrom(z, off) == |v0.free| + PerPage(z)
    && v.free == Threaded(z, page, off) + v0.free && OnlyPage(next0, next, page)
  }

  /** One turn: the object at `off` is pushed. */
  method CarveOne(
    z: nat, page: nat, off: nat, head: Addr, next: map<Addr, Addr>, ghost v: View, ghost next0: map<Addr, Addr>,
    ghost v0: View)
    returns (head': Addr, next': map<Addr, Addr>, ghost v': View)
    requires SizeOk(z) && Carved(z, page, off, head, next, v, next0, v0) && page != 0 && off + z <= PAGE
    ensures Carved(z, page, off + z, head', next', v', next0, v0)
  {
    var node := Addr(page, off);
    CarveStep(z, page, off, head, next, v);
    next', head', v' := next[node := head], node, Pushed(v, node);
    OnlyPageTrans(next0, next, next', page);
  }

  lemma AtEnd(z: nat, off: nat)
    requires SizeOk(z) && Aligned(z, off) && off <= PAGE < off + z
    ensures off == PAGE && TurnsFrom(z, off) == 0
  {
    if off < PAGE { LastFits(z, off); }
  }

  /** Only words of `page` have been written. */
  ghost predicate OnlyPage(next: map<Addr, Addr>, next': map<Addr, Addr>, page: nat)
  {
    forall a :: a in next && a.page != page ==> a in next' && next'[a] == next[a]
  }

  lemma OnlyPageTrans(next: map<Addr, Addr>, next1: map<Addr, Addr>, next2: map<Addr, Addr>, page: nat)
    requires OnlyPage(next, next1, page) && OnlyPage(next1, next2, page)
    ensures OnlyPage(next, next2, page)
  {
  }

  lemma CarveStep(z: nat, page: nat, off: nat, head: Addr, next: map<Addr, Addr>, v: View)
    requires Growing(z, v, page, off) && Aligned(z, off) && Chain(next, head, v.free) && page != 0
    ensures var node := Addr(page, off);
      && Growing(z, Pushed(v, node), page, off + z) && Aligned(z, off + z)
      && Chain(next[node := head], node, Pushed(v, node).free) && OnlyPage(next, next[node := head], page)
      && |Pushed(v, node).free| == |v.free| + 1
    ensures off + z <= PAGE ==> TurnsFrom(z, off) == 1 + TurnsFrom(z, off + z)
  {
    GrowStep(z, v, page, off);
    ChainPushed(next, head, v.free, Addr(page, off));
  }

  /** The class for a size, or CLASSES when it takes a whole page. */
  /** The smallest class whose objects hold `size` bytes, or CLASSES if none does. */
  function ClassFor(size: nat): (i: nat)
    ensures i <= CLASSES && (i < CLASSES ==> size <= SIZES[i]) && forall j :: 0 <= j < i ==> SIZES[j] < size
  {
    if size <= 32 then 0 else if size <= 64 then 1 else if size <= 128 then 2 else if size <= 256 then 3 else 4
  }
}
