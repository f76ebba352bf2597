/** Growing a file's block map: each step hands a free block to one place of one
    file and disturbs nothing else. */
module Ext2Map {
  import opened Bytes
  import opened Sets
  import opened Ext2Alloc
  import opened Ext2Inode

  /** From one state of file `n` to a later one: blocks keep their places, data blocks,
      those just taken included, their bytes, and what belongs to nobody stays as it was. */
  ghost predicate Grows(g: Geometry, n: nat, v: Volume, i: Inode, owner: Owner, v': Volume, i': Inode, owner': Owner)
  {
    && |v'| == |v| && i' == i.(ptrs := i'.ptrs)
    && OwnerGrows(n, owner, owner')
    && (forall b :: b in owner' && owner'[b] != (n, MAPPED) ==> b < |v| && v'[b] == v[b])
    && (forall b :: 0 <= b < |v| && b !in owner' && b !in g.bitmaps ==> v'[b] == v[b])
    && MapKept(v, i, v', i')
  }

  ghost predicate OwnerGrows(n: nat, owner: Owner, owner': Owner)
  {
    && (forall b :: b in owner ==> b in owner' && owner'[b] == owner[b])
    && (forall b :: b in owner' && b !in owner ==> owner'[b].0 == n)
  }

  /** The blocks marked in the bitmaps. */
  ghost function UsedBlocks(g: Geometry, v: Volume): set<nat>
    requires VolumeOk(g, v)
  {
    set x: nat | x < g.total && Covered(g, x) && InUse(g, v, x)
  }

  /** The bits set are those of the blocks newly owned, and each of these is mapped at
      its place. */
  ghost predicate Takes(g: Geometry, v: Volume, owner: Owner, v': Volume, i': Inode, owner': Owner)
    requires VolumeOk(g, v) && VolumeOk(g, v')
  {
    && UsedBlocks(g, v') == UsedBlocks(g, v) + (owner'.Keys - owner.Keys)
    && (forall b :: b in owner' && b !in owner ==> owner'[b].1 <= MAPPED && BlockAt(v', i', owner'[b].1) == b != 0)
  }

  /** Mapped places stay mapped to the same blocks. */
  ghost predicate MapKept(v: Volume, i: Inode, v': Volume, i': Inode)
  {
    forall k :: 0 <= k <= MAPPED && BlockAt(v, i, k) != 0 ==> BlockAt(v', i', k) == BlockAt(v, i, k)
  }

  /** The blocks not marked in the bitmaps. */
  ghost function FreeBlocks(g: Geometry, v: Volume): set<nat>
    requires VolumeOk(g, v)
  {
    set x: nat | x < g.total && Covered(g, x) && !InUse(g, v, x)
  }

  /** The block a file gets at place `k`: the one mapped there, else the lowest free one; the
      indirect block is taken first where it is missing. 0 if there is none. */
  ghost function Yields(g: Geometry, v: Volume, i: Inode, k: nat): nat
    requires VolumeOk(g, v)
  {
    if k >= MAPPED then 0
    else if BlockAt(v, i, k) != 0 then BlockAt(v, i, k)
    else
      var free := FreeBlocks(g, v);
      if DIRECT <= k && i.ptrs[12] == 0 then Least(free - {Least(free)}) else Least(free)
  }

  /** A place can be had exactly when it is mapped or enough blocks are free. */
  lemma YieldsIff(g: Geometry, v: Volume, i: Inode, k: nat)
    requires VolumeOk(g, v)
    ensures Yields(g, v, i, k) != 0 <==>
      k < MAPPED
      && (BlockAt(v, i, k) != 0 || |FreeBlocks(g, v)| >= if DIRECT <= k && i.ptrs[12] == 0 then 2 else 1)
  {
    var free := FreeBlocks(g, v);
    assert 0 !in free;
    if free != {} {
      assert |free - {Least(free)}| == |free| - 1;
    }
  }

  lemma NoneFree(g: Geometry, v: Volume)
    requires VolumeOk(g, v)
    ensures VolumeFull(g, v) <==> FreeBlocks(g, v) == {}
  {
    if FreeBlocks(g, v) == {} {
      forall x: nat | Covered(g, x) ensures InUse(g, v, x) { assert x !in FreeBlocks(g, v); }
    }
  }

  /** The block whose predecessors are all in use is the lowest free one. */
  lemma LowestFree(g: Geometry, v: Volume, b: nat)
    requires VolumeOk(g, v) && Covered(g, b) && !InUse(g, v, b)
    requires forall x: nat :: Covered(g, x) && x < b ==> InUse(g, v, x)
    ensures b == Least(FreeBlocks(g, v)) != 0
  {
    assert b in FreeBlocks(g, v);
  }

  /** Taking the indirect block leaves the other free blocks for the place itself. */
  lemma YieldsBehind(g: Geometry, v: Volume, i: Inode, v1: Volume, i1: Inode, k: nat)
    requires VolumeOk(g, v) && VolumeOk(g, v1) && DIRECT <= k < MAPPED && i.ptrs[12] == 0
    requires i1.ptrs[12] == Least(FreeBlocks(g, v)) && FreeBlocks(g, v1) == FreeBlocks(g, v) - {i1.ptrs[12]}
    requires BlockAt(v1, i1, k) == BlockAt(v, i, k)
    ensures Yields(g, v, i, k) == if i1.ptrs[12] == 0 then 0 else Yields(g, v1, i1, k)
  {
    assert 0 !in FreeBlocks(g, v);
  }

  /** Outside the places `lo` to `hi` the map is as it was; the indirect block may come only
      with a place that needs it. */
  ghost predicate MapsOnly(v: Volume, i: Inode, v': Volume, i': Inode, lo: nat, hi: nat)
  {
    forall k :: 0 <= k <= MAPPED && !(lo <= k < hi) && !(k == MAPPED && hi > DIRECT) ==>
      BlockAt(v', i', k) == BlockAt(v, i, k)
  }

  lemma TakesTrans(
    g: Geometry, n: nat, v: Volume, owner: Owner, v1: Volume, i1: Inode, owner1: Owner, v2: Volume, i2: Inode,
    owner2: Owner)
    requires VolumeOk(g, v) && VolumeOk(g, v1) && VolumeOk(g, v2)
    requires Takes(g, v, owner, v1, i1, owner1) && Takes(g, v1, owner1, v2, i2, owner2)
    requires OwnerGrows(n, owner, owner1) && OwnerGrows(n, owner1, owner2)
    requires MapKept(v1, i1, v2, i2)
    ensures Takes(g, v, owner, v2, i2, owner2)
  {
  }

  /** Taking one block that was free. */
  lemma TakesOne(g: Geometry, v: Volume, owner: Owner, v1: Volume, v': Volume, i': Inode, b: nat, n: nat, k: nat)
    requires VolumeOk(g, v) && VolumeOk(g, v1) && VolumeOk(g, v') && b !in owner && k <= MAPPED && b != 0
    requires Covered(g, b)
    requires forall x: nat :: Covered(g, x) ==> (InUse(g, v1, x) <==> InUse(g, v, x) || x == b)
    requires forall x :: x in g.bitmaps && x < |v1| ==> v'[x] == v1[x]
    requires BlockAt(v', i', k) == b
    ensures Takes(g, v, owner, v', i', owner[b := (n, k)]) && FreeBlocks(g, v') == FreeBlocks(g, v) - {b}
  {
    SameUse(g, v1, v');
    assert owner[b := (n, k)].Keys - owner.Keys == {b};
    assert UsedBlocks(g, v') == UsedBlocks(g, v) + {b};
    assert FreeBlocks(g, v') == FreeBlocks(g, v) - {b};
  }

  lemma SameUsedBlocks(g: Geometry, v: Volume, v': Volume)
    requires VolumeOk(g, v) && |v'| == |v| && forall b :: b in g.bitmaps && b < |v| ==> v'[b] == v[b]
    ensures UsedBlocks(g, v') == UsedBlocks(g, v) && FreeBlocks(g, v') == FreeBlocks(g, v)
  {
    SameUse(g, v, v');
  }

  lemma GrowsTrans(g: Geometry, n: nat, v: Volume, i: Inode, owner: Owner, v1: Volume, i1: Inode, owner1: Owner,
                   v2: Volume, i2: Inode, owner2: Owner)
    requires Grows(g, n, v, i, owner, v1, i1, owner1) && Grows(g, n, v1, i1, owner1, v2, i2, owner2)
    requires forall b :: b in owner2 ==> b !in g.bitmaps
    ensures Grows(g, n, v, i, owner, v2, i2, owner2)
  {
  }

  /** The places of the file's map that lead nowhere. */
  ghost function Unmapped(v: Volume, i: Inode): set<nat> { set k: nat | k <= MAPPED && BlockAt(v, i, k) == 0 }

  /** Those of them that lead nowhere and that using the places `lo` to `hi` needs, the indirect
      block included. */
  ghost function Missing(v: Volume, i: Inode, lo: nat, hi: nat): set<nat>
  {
    set k: nat | k <= MAPPED && (lo <= k < hi || (k == MAPPED && hi > DIRECT)) && BlockAt(v, i, k) == 0
  }

  /** A run that maps only needed places, one block each: if none is missing afterwards, there
      were enough free blocks, and if one is and no block is left, there were not. */
  lemma EnoughIff(g: Geometry, v: Volume, i: Inode, v': Volume, i': Inode, lo: nat, hi: nat)
    requires VolumeOk(g, v) && VolumeOk(g, v') && Balanced(g, v, i, v', i')
    requires MapKept(v, i, v', i') && MapsOnly(v, i, v', i', lo, hi)
    requires Missing(v', i', lo, hi) == {} || FreeBlocks(g, v') == {}
    ensures Missing(v', i', lo, hi) == {} <==> |Missing(v, i, lo, hi)| <= |FreeBlocks(g, v)|
  {
    UnneededKept(v, i, v', i', lo, hi);
    PartSize(Missing(v, i, lo, hi), Unmapped(v, i));
    PartSize(Missing(v', i', lo, hi), Unmapped(v', i'));
  }

  lemma UnneededKept(v: Volume, i: Inode, v': Volume, i': Inode, lo: nat, hi: nat)
    requires MapKept(v, i, v', i') && MapsOnly(v, i, v', i', lo, hi)
    ensures Missing(v, i, lo, hi) <= Unmapped(v, i) && Missing(v', i', lo, hi) <= Unmapped(v', i')
    ensures Unmapped(v', i') - Missing(v', i', lo, hi) == Unmapped(v, i) - Missing(v, i, lo, hi)
  {
  }

  /** Every block taken fills one place. */
  ghost predicate Balanced(g: Geometry, v: Volume, i: Inode, v': Volume, i': Inode)
    requires VolumeOk(g, v) && VolumeOk(g, v')
  {
    |FreeBlocks(g, v')| + |Unmapped(v, i)| == |FreeBlocks(g, v)| + |Unmapped(v', i')|
  }

  /** A step of file `n` that only takes free blocks and maps them. */
  ghost predicate Extends(g: Geometry, n: nat, v: Volume, i: Inode, owner: Owner, v': Volume, i': Inode, owner': Owner)
    requires VolumeOk(g, v) && VolumeOk(g, v')
  {
    Grows(g, n, v, i, owner, v', i', owner') && Takes(g, v, owner, v', i', owner') && Balanced(g, v, i, v', i')
  }

  lemma ExtendsTrans(g: Geometry, n: nat, v: Volume, i: Inode, owner: Owner, v1: Volume, i1: Inode, owner1: Owner,
                     v2: Volume, i2: Inode, owner2: Owner)
    requires VolumeOk(g, v) && VolumeOk(g, v1) && VolumeOk(g, v2) && OwnedOk(g, v2, owner2)
    requires Extends(g, n, v, i, owner, v1, i1, owner1) && Extends(g, n, v1, i1, owner1, v2, i2, owner2)
    ensures Extends(g, n, v, i, owner, v2, i2, owner2)
  {
    GrowsTrans(g, n, v, i, owner, v1, i1, owner1, v2, i2, owner2);
    TakesTrans(g, n, v, owner, v1, i1, owner1, v2, i2, owner2);
  }

  /** The free block `b` was marked, and then entered at the unmapped place `k`. */
  lemma OneTaken(
    g: Geometry, n: nat, v: Volume, i: Inode, owner: Owner, v1: Volume, v': Volume, i': Inode, b: nat, k: nat)
    requires VolumeOk(g, v) && VolumeOk(g, v1) && VolumeOk(g, v') && OwnedOk(g, v', owner[b := (n, k)])
    requires Grows(g, n, v, i, owner, v1, i, owner) && Grows(g, n, v1, i, owner, v', i', owner[b := (n, k)])
    requires b in FreeBlocks(g, v) && b !in owner && k <= MAPPED
    requires forall x: nat :: Covered(g, x) ==> (InUse(g, v1, x) <==> InUse(g, v, x) || x == b)
    requires forall x :: x in g.bitmaps && x < |v1| ==> v'[x] == v1[x]
    requires BlockAt(v, i, k) == 0 && OnePlace(v, i, v', i', k, b)
    ensures Extends(g, n, v, i, owner, v', i', owner[b := (n, k)]) && FreeBlocks(g, v') == FreeBlocks(g, v) - {b}
  {
    GrowsTrans(g, n, v, i, owner, v1, i, owner, v', i', owner[b := (n, k)]);
    TakesOne(g, v, owner, v1, v', i', b, n, k);
    PlaceFilled(v, i, v', i', k, b);
  }

  lemma PlaceFilled(v: Volume, i: Inode, v': Volume, i': Inode, k: nat, b: nat)
    requires k <= MAPPED && BlockAt(v, i, k) == 0 && OnePlace(v, i, v', i', k, b)
    ensures |Unmapped(v', i')| == |Unmapped(v, i)| - 1
  {
    assert Unmapped(v', i') == Unmapped(v, i) - {k} && k in Unmapped(v, i);
  }

  /** Place `k` leads to `b` now, and the others lead where they did. */
  ghost predicate OnePlace(v: Volume, i: Inode, v': Volume, i': Inode, k: nat, b: nat)
    requires k <= MAPPED
  {
    BlockAt(v', i', k) == b != 0 && forall j :: 0 <= j <= MAPPED && j != k ==> BlockAt(v', i', j) == BlockAt(v, i, j)
  }

  /** The bitmaps read the same when no bitmap block changed. */
  lemma SameUse(g: Geometry, v: Volume, v': Volume)
    requires VolumeOk(g, v) && |v'| == |v| && forall b :: b in g.bitmaps && b < |v| ==> v'[b] == v[b]
    ensures forall x: nat :: Covered(g, x) ==> InUse(g, v', x) == InUse(g, v, x)
  {
    forall x: nat | Covered(g, x) ensures InUse(g, v', x) == InUse(g, v, x) {
      GroupInRange(g, x);
    }
  }

  /** A change that leaves the bitmaps and every other file's blocks alone keeps the other maps. */
  lemma OthersKept(g: Geometry, v: Volume, v': Volume, n: nat, others: map<nat, Inode>, owner: Owner, owner': Owner)
    requires VolumeOk(g, v) && VolumeOk(g, v') && OwnedOk(g, v, owner) && n !in others && OwnerGrows(n, owner, owner')
    requires forall m :: m in others ==> FileMapped(v, others[m], m, owner)
    requires forall b :: b in owner && owner[b].0 != n ==> b < |v| && v'[b] == v[b]
    ensures forall m :: m in others ==> FileMapped(v', others[m], m, owner')
  {
    forall m | m in others ensures FileMapped(v', others[m], m, owner') {
      FileUntouched(v, v', others[m], m, owner);
    }
  }

  /** Marking a free block in use keeps every map; the block belongs to nobody yet. */
  lemma AllocKeeps(g: Geometry, v: Volume, n: nat, i: Inode, others: map<nat, Inode>, owner: Owner, b: nat)
    requires MapOk(g, v, n, i, others, owner) && Covered(g, b) && !InUse(g, v, b)
    ensures var v' := SetUse(g, v, b, true);
      && MapOk(g, v', n, i, others, owner) && InUse(g, v', b) && b !in owner && b !in g.reserved
      && Grows(g, n, v, i, owner, v', i, owner)
      && (forall x :: 0 <= x < |v| && x !in g.bitmaps ==> v'[x] == v[x])
      && (forall x: nat :: Covered(g, x) ==> (InUse(g, v', x) <==> InUse(g, v, x) || x == b))
      && (forall k :: 0 <= k <= MAPPED ==> BlockAt(v', i, k) == BlockAt(v, i, k))
  {
    var v' := SetUse(g, v, b, true);
    SetUseExact(g, v, b, true);
    assert BlockAt(v, i, MAPPED) == i.ptrs[12];
    SameMap(v, v', i);
    OthersKept(g, v, v', n, others, owner, owner);
  }

  /** Giving an owned block away adds to the ownership table only. */
  lemma OwnMore(g: Geometry, v: Volume, v': Volume, owner: Owner, b: nat, n: nat, k: nat)
    requires VolumeOk(g, v) && VolumeOk(g, v') && OwnedOk(g, v, owner) && ReservedOk(g, v)
    requires Covered(g, b) && InUse(g, v, b) && b !in owner && b !in g.reserved
    requires forall x :: x in g.bitmaps ==> x < |v| && v'[x] == v[x]
    ensures OwnedOk(g, v', owner[b := (n, k)]) && ReservedOk(g, v') && OwnerGrows(n, owner, owner[b := (n, k)])
  {
    SameUse(g, v, v');
  }

  /** A fresh block becomes direct block `k`. */
  lemma LinkDirect(g: Geometry, v: Volume, n: nat, i: Inode, others: map<nat, Inode>, owner: Owner, k: nat, b: u32)
    requires MapOk(g, v, n, i, others, owner) && k < DIRECT && i.ptrs[k] == 0
    requires Covered(g, b) && InUse(g, v, b) && b !in owner && b !in g.reserved
    ensures var i' := i.(ptrs := i.ptrs[k := b]);
      && MapOk(g, v, n, i', others, owner[b := (n, k)]) && Grows(g, n, v, i, owner, v, i', owner[b := (n, k)])
      && OnePlace(v, i, v, i', k, b)
  {
    var i', owner' := i.(ptrs := i.ptrs[k := b]), owner[b := (n, k)];
    OwnMore(g, v, v, owner, b, n, k);
    OthersKept(g, v, v, n, others, owner, owner');
    assert forall j :: 0 <= j <= MAPPED && j != k ==> BlockAt(v, i', j) == BlockAt(v, i, j);
  }

  /** A fresh zeroed block becomes the indirect block. */
  lemma LinkIndirect(g: Geometry, v: Volume, n: nat, i: Inode, others: map<nat, Inode>, owner: Owner, b: u32)
    requires MapOk(g, v, n, i, others, owner) && i.ptrs[12] == 0
    requires Covered(g, b) && InUse(g, v, b) && b !in owner && b !in g.reserved
    ensures var i', v' := i.(ptrs := i.ptrs[12 := b]), v[b := Zeros()];
      && MapOk(g, v', n, i', others, owner[b := (n, MAPPED)])
      && Grows(g, n, v, i, owner, v', i', owner[b := (n, MAPPED)])
      && OnePlace(v, i, v', i', MAPPED, b) && forall x :: x in g.bitmaps && x < |v| ==> v'[x] == v[x]
  {
    var i', v', owner' := i.(ptrs := i.ptrs[12 := b]), v[b := Zeros()], owner[b := (n, MAPPED)];
    OwnMore(g, v, v', owner, b, n, MAPPED);
    OthersKept(g, v, v', n, others, owner, owner');
    forall j | 0 <= j < MAPPED ensures BlockAt(v', i', j) == BlockAt(v, i, j) {
      if DIRECT <= j { assert ReadLe32(Zeros(), (j - DIRECT) * 4) == 0; }
    }
  }

  /** Pointers in an indirect block: storing one reads back and leaves the others. */
  lemma EntryRoundTrip(ind: Block, e: nat, b: u32, e': nat)
    requires e < PTRS && e' < PTRS
    ensures ReadLe32(Splice(ind, e * 4, Le32(b)), e' * 4) == if e' == e then b else ReadLe32(ind, e' * 4)
  {
    var r := Splice(ind, e * 4, Le32(b));
    if e' == e {
      assert r[e * 4..e * 4 + 4] == Le32(b);
      FieldRoundTrip32(r, e * 4, b);
    }
  }

  /** A fresh block is entered in the indirect block for file block `k`. */
  lemma LinkEntry(g: Geometry, v: Volume, n: nat, i: Inode, others: map<nat, Inode>, owner: Owner, k: nat, b: u32)
    requires MapOk(g, v, n, i, others, owner) && DIRECT <= k < MAPPED && i.ptrs[12] != 0 && BlockAt(v, i, k) == 0
    requires Covered(g, b) && InUse(g, v, b) && b !in owner && b !in g.reserved
    ensures i.ptrs[12] < |v|
    ensures var v' := v[i.ptrs[12] := Splice(v[i.ptrs[12]], (k - DIRECT) * 4, Le32(b))];
      && MapOk(g, v', n, i, others, owner[b := (n, k)])
      && Grows(g, n, v, i, owner, v', i, owner[b := (n, k)]) && OnePlace(v, i, v', i, k, b)
      && (forall x :: x in g.bitmaps && x < |v| ==> v'[x] == v[x])
  {
    var ib := i.ptrs[12];
    assert BlockAt(v, i, MAPPED) == ib;
    var v', owner' := v[ib := Splice(v[ib], (k - DIRECT) * 4, Le32(b))], owner[b := (n, k)];
    OwnMore(g, v, v', owner, b, n, k);
    OthersKept(g, v, v', n, others, owner, owner');
    forall j | 0 <= j <= MAPPED ensures BlockAt(v', i, j) == if j == k then b else BlockAt(v, i, j) {
      if DIRECT <= j < MAPPED { EntryRoundTrip(v[ib], k - DIRECT, b, j - DIRECT); }
    }
  }
}
