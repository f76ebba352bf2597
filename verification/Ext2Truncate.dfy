/** Truncating an ext2 file to nothing frees exactly its blocks, some of them twice. */
module Ext2Truncate {
  import opened Bytes
  import opened Ext2Alloc
  import opened Ext2Inode
  import opened Ext2Map
  import opened Ext2File

  /** The blocks behind places `a` to `b` of the file's map. */
  ghost function BlocksIn(v: Volume, i: Inode, a: nat, b: nat): set<nat>
    requires b <= MAPPED + 1
  {
    set k | a <= k < b && BlockAt(v, i, k) != 0 :: BlockAt(v, i, k)
  }

  /** Data blocks and indirect block. */
  ghost function FileBlocks(v: Volume, i: Inode): set<nat> { BlocksIn(v, i, 0, MAPPED + 1) }

  /** From `v` to `v'` exactly the blocks in `freed` lost their bits, and only bitmaps changed. */
  ghost predicate Freed(g: Geometry, v: Volume, v': Volume, freed: set<nat>)
    requires VolumeOk(g, v)
  {
    && VolumeOk(g, v')
    && (forall x: nat :: Covered(g, x) ==> (InUse(g, v', x) <==> InUse(g, v, x) && x !in freed))
    && (forall x :: 0 <= x < |v| && x !in g.bitmaps ==> v'[x] == v[x])
  }

  lemma FreeOne(g: Geometry, v: Volume, v1: Volume, freed: set<nat>, b: nat)
    requires VolumeOk(g, v) && Freed(g, v, v1, freed) && Covered(g, b)
    ensures Freed(g, v, SetUse(g, v1, b, false), freed + {b})
  {
    SetUseExact(g, v1, b, false);
  }

  /** The file's blocks have bits of their own, and its indirect block is no bitmap. */
  ghost predicate OwnBlocks(g: Geometry, v: Volume, i: Inode)
    requires VolumeOk(g, v)
  {
    && (forall k :: 0 <= k <= MAPPED && BlockAt(v, i, k) != 0 ==> Covered(g, BlockAt(v, i, k)))
    && (i.ptrs[12] != 0 ==> i.ptrs[12] !in g.bitmaps)
  }

  lemma OwnBlocksOk(g: Geometry, v: Volume, n: nat, i: Inode, others: map<nat, Inode>, owner: Owner)
    requires MapOk(g, v, n, i, others, owner)
    ensures OwnBlocks(g, v, i)
  {
    assert BlockAt(v, i, MAPPED) == i.ptrs[12];
  }

  /** Freeing leaves the file's map readable. */
  lemma MapStays(g: Geometry, v: Volume, v': Volume, i: Inode, freed: set<nat>)
    requires VolumeOk(g, v) && OwnBlocks(g, v, i) && Freed(g, v, v', freed)
    ensures forall k :: 0 <= k <= MAPPED ==> BlockAt(v', i, k) == BlockAt(v, i, k)
    ensures i.ptrs[12] != 0 ==> i.ptrs[12] < |v| && v'[i.ptrs[12]] == v[i.ptrs[12]]
  {
    assert BlockAt(v, i, MAPPED) == i.ptrs[12];
    SameMap(v, v', i);
  }

  lemma BlocksInStep(v: Volume, i: Inode, a: nat, b: nat)
    requires a <= b <= MAPPED
    ensures BlocksIn(v, i, a, b + 1) == BlocksIn(v, i, a, b) + if BlockAt(v, i, b) != 0 then {BlockAt(v, i, b)} else {}
  {
  }

  /** Free the block behind place `k` if there is one. */
  method FreePlace(store: Store, i: Inode, k: nat, b: nat, ghost v0: Volume, ghost freed: set<nat>)
    requires VolumeOk(store.g, v0) && OwnBlocks(store.g, v0, i) && Freed(store.g, v0, store.v, freed)
    requires k <= MAPPED && b == BlockAt(v0, i, k)
    modifies store
    ensures Freed(store.g, v0, store.v, freed + if b != 0 then {b} else {})
  {
    if b != 0 {
      FreeOne(store.g, v0, store.v, freed, b);
      store.FreeBlock(b);
    } else {
      assert freed + {} == freed;
    }
  }

  /** The inode with no blocks and no size. */
  function Cleared(i: Inode): Inode
  {
    i.(ptrs := seq(15, k requires 0 <= k < 15 => if k <= 12 then 0 else i.ptrs[k]), size := 0, blocks := 0)
  }

  /** Nothing is left of the file's size and map, and the rest of the inode is as it was. */
  predicate Emptied(i: Inode, i': Inode)
  {
    && i'.size == 0 && i'.blocks == 0 && (forall k :: 0 <= k <= 12 ==> i'.ptrs[k] == 0)
    && i'.ptrs[13..] == i.ptrs[13..]
    && i'.head == i.head && i'.times == i.times && i'.flags == i.flags && i'.tail == i.tail
  }

  /** inode_clear_blocks: frees every block of the map, whether or not it was freed before. */
  method ClearBlocks(store: Store, i: Inode, ghost v0: Volume, ghost freed: set<nat>) returns (i': Inode)
    requires VolumeOk(store.g, v0) && OwnBlocks(store.g, v0, i) && Freed(store.g, v0, store.v, freed)
    modifies store
    ensures Freed(store.g, v0, store.v, freed + FileBlocks(v0, i)) && i' == Cleared(i)
  {
    ghost var gone := freed;
    assert gone == freed + BlocksIn(v0, i, 0, 0);
    for k := 0 to DIRECT
      invariant Freed(store.g, v0, store.v, gone) && gone == freed + BlocksIn(v0, i, 0, k)
    {
      FreePlace(store, i, k, i.ptrs[k], v0, gone);
      BlocksInStep(v0, i, 0, k);
      gone := freed + BlocksIn(v0, i, 0, k + 1);
      assert Freed(store.g, v0, store.v, gone);
    }
    if i.ptrs[12] != 0 {
      MapStays(store.g, v0, store.v, i, gone);
      var indirect := store.v[i.ptrs[12]];
      for e := 0 to PTRS
        invariant Freed(store.g, v0, store.v, gone) && gone == freed + BlocksIn(v0, i, 0, DIRECT + e)
      {
        FreePlace(store, i, DIRECT + e, ReadLe32(indirect, e * 4), v0, gone);
        BlocksInStep(v0, i, 0, DIRECT + e);
        gone := freed + BlocksIn(v0, i, 0, DIRECT + e + 1);
        assert Freed(store.g, v0, store.v, gone);
      }
      FreePlace(store, i, MAPPED, i.ptrs[12], v0, gone);
      BlocksInStep(v0, i, 0, MAPPED);
    } else {
      assert BlocksIn(v0, i, 0, MAPPED + 1) == BlocksIn(v0, i, 0, DIRECT);
    }
    assert Freed(store.g, v0, store.v, freed + FileBlocks(v0, i));
    i' := i.(ptrs := seq(15, k requires 0 <= k < 15 => if k <= 12 then 0 else i.ptrs[k]), size := 0, blocks := 0);
  }

  lemma FreedTrans(g: Geometry, v: Volume, v1: Volume, f1: set<nat>, v2: Volume, f2: set<nat>)
    requires VolumeOk(g, v) && Freed(g, v, v1, f1) && Freed(g, v1, v2, f2)
    ensures Freed(g, v, v2, f1 + f2)
  {
  }

  lemma ClearedOwnsNothing(g: Geometry, v: Volume, i: Inode)
    requires VolumeOk(g, v)
    ensures OwnBlocks(g, v, Cleared(i)) && FileBlocks(v, Cleared(i)) == {}
  {
    assert forall k :: 0 <= k <= MAPPED ==> BlockAt(v, Cleared(i), k) == 0;
  }

  /** The first loop of ext2_truncate_inode: the blocks below the size. */
  method FreeBelowSize(fs: Fs, i: Inode, count: nat, ghost v0: Volume) returns (ghost freed: set<nat>)
    requires VolumeOk(fs.store.g, v0) && OwnBlocks(fs.store.g, v0, i) && fs.store.v == v0
    modifies fs.store
    ensures Freed(fs.store.g, v0, fs.store.v, freed) && freed <= FileBlocks(v0, i)
  {
    freed := {};
    for k := 0 to count
      invariant Freed(fs.store.g, v0, fs.store.v, freed) && freed <= FileBlocks(v0, i)
    {
      MapStays(fs.store.g, v0, fs.store.v, i, freed);
      var b := fs.FindBlock(i, k);
      if b != 0 {
        FreePlace(fs.store, i, k, b, v0, freed);
        freed := freed + {b};
      }
    }
  }

  /** The frees of ext2_truncate_inode to size 0, most blocks twice over. */
  method FreeEverything(fs: Fs, i: Inode) returns (i': Inode)
    requires fs.store.Valid() && OwnBlocks(fs.store.g, fs.store.v, i)
    modifies fs.store
    ensures Freed(fs.store.g, old(fs.store.v), fs.store.v, FileBlocks(old(fs.store.v), i)) && i' == Cleared(i)
  {
    ghost var g, v0, gone := fs.store.g, fs.store.v, {};
    i' := i;
    var oldBlocks := (i.size + BLOCK - 1) % TWO32 / BLOCK;
    assert Freed(g, v0, v0, {});
    if 0 < oldBlocks {
      gone := FreeBelowSize(fs, i, oldBlocks, v0);
      i' := ClearBlocks(fs.store, i, v0, gone);
      gone := gone + FileBlocks(v0, i);
      assert gone == FileBlocks(v0, i);
      ClearedOwnsNothing(g, fs.store.v, i);
    }
    ghost var v1 := fs.store.v;
    i' := ClearBlocks(fs.store, i', v1, {});
    FreedTrans(g, v0, v1, gone, fs.store.v, {} + FileBlocks(v1, if 0 < oldBlocks then Cleared(i) else i));
    assert gone + ({} + FileBlocks(v1, if 0 < oldBlocks then Cleared(i) else i)) == FileBlocks(v0, i);
    assert Cleared(Cleared(i)) == Cleared(i);
  }

  /** ext2_truncate_inode to size 0: the bits of the file's data blocks and indirect
      block are cleared and no others, though most are cleared twice; besides bitmaps
      only the inode's record changes, and it is then empty. */
  method TruncateToZero(fs: Fs, n: nat, ghost others: map<nat, Inode>, ghost owner: Owner) returns (ok: bool)
    requires fs.Valid() && (InodeExists(fs.store.g, n) ==> fs.OwnMap(n, others, owner))
    modifies fs.store
    ensures fs.Valid() && ok == InodeExists(fs.store.g, n)
    ensures !ok ==> fs.store.v == old(fs.store.v)
    ensures ok ==> Truncated(fs.store.g, old(fs.store.v), fs.store.v, n)
  {
    var i;
    ok, i := fs.ReadInode(n);
    if !ok { return; }
    ghost var g, v0 := fs.store.g, fs.store.v;
    OwnBlocksOk(g, v0, n, i, others, owner);
    var i' := FreeEverything(fs, i);
    RecordCleared(g, v0, fs.store.v, n);
    ok := fs.WriteInode(n, i');
  }

  ghost predicate Truncated(g: Geometry, v: Volume, v': Volume, n: nat)
    requires VolumeOk(g, v) && VolumeOk(g, v') && TablesOk(g) && InodeExists(g, n)
  {
    var i := InodeOf(g, v, n);
    && InodeOf(g, v', n) == Cleared(i) && FileBlocks(v', Cleared(i)) == {} && Emptied(i, Cleared(i))
    && (forall x: nat :: Covered(g, x) ==> (InUse(g, v', x) <==> InUse(g, v, x) && x !in FileBlocks(v, i)))
    && (forall x :: 0 <= x < |v| && x !in g.bitmaps && x != RecordPlace(g, n).0 ==> v'[x] == v[x])
    && (forall m: nat :: InodeExists(g, m) && m != n ==> InodeOf(g, v', m) == InodeOf(g, v, m))
  }

  lemma RecordCleared(g: Geometry, v0: Volume, v: Volume, n: nat)
    requires VolumeOk(g, v0) && TablesOk(g) && InodeExists(g, n)
    requires Freed(g, v0, v, FileBlocks(v0, InodeOf(g, v0, n)))
    ensures Truncated(g, v0, StoreInode(g, v, n, Cleared(InodeOf(g, v0, n))), n)
  {
    var i := InodeOf(g, v0, n);
    var v' := StoreInode(g, v, n, Cleared(i));
    StoreInodeExact(g, v, n, Cleared(i));
    SameUse(g, v, v');
    ClearedOwnsNothing(g, v', i);
    forall m: nat | InodeExists(g, m) && m != n ensures InodeOf(g, v', m) == InodeOf(g, v0, m) {
      assert v[RecordPlace(g, m).0] == v0[RecordPlace(g, m).0];
    }
  }
}
