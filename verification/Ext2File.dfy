/** Reading and writing ext2 files: a file is a byte sequence. */
module Ext2File {
  import opened Bytes
  import opened Sets
  import opened Ext2Alloc
  import opened Ext2Inode
  import opened Ext2Map

  const INVALID_FD: int := -1
  const NO_SPACE: int := -3
  const ERR_IO: int := -5
  const ERR_PERM: int := -6
  const MAX_HANDLES: nat := 256

  datatype Handle = Handle(used: bool, inode: nat, pos: nat, readable: bool, writable: bool)

  /** The bytes `s` with `d` written over them from `pos` on, extending them if need be. */
  function Overwrite(s: seq<byte>, pos: nat, d: seq<byte>): (r: seq<byte>)
    requires pos <= |s|
    ensures |r| == if pos + |d| > |s| then pos + |d| else |s|
    ensures forall k :: 0 <= k < |r| ==> r[k] == if pos <= k < pos + |d| then d[k - pos] else s[k]
  {
    s[..pos] + d + if pos + |d| <= |s| then s[pos + |d|..] else []
  }

  /** The file's first `|s|` bytes are mapped and are `s`. */
  ghost predicate Holds(v: Volume, i: Inode, s: seq<byte>)
  {
    && |s| <= MAPPED * BLOCK
    && (forall k :: 0 <= k < MAPPED && k * BLOCK < |s| ==> BlockAt(v, i, k) != 0)
    && (forall at :: 0 <= at < |s| ==> ByteAt(v, i, at) == s[at])
  }

  lemma HoldsContents(v: Volume, i: Inode)
    requires NoHoles(v, i)
    ensures Holds(v, i, Contents(v, i))
  {
  }

  /** Growing the map does not disturb what the file holds. */
  lemma HoldsGrown(
    g: Geometry, n: nat, v: Volume, i: Inode, owner: Owner, v': Volume, i': Inode, owner': Owner, s: seq<byte>)
    requires Holds(v, i, s) && FileMapped(v, i, n, owner) && Grows(g, n, v, i, owner, v', i', owner')
    ensures Holds(v', i', s)
  {
    forall at | 0 <= at < |s| ensures ByteAt(v', i', at) == s[at] {
      assert BlockAt(v, i, at / BLOCK) != 0;
      assert ByteAt(v, i, at) == s[at];
    }
  }

  /** Writing one data block: exactly that block of that file changes. */
  lemma DataWritten(
    g: Geometry, v: Volume, n: nat, i: Inode, others: map<nat, Inode>, owner: Owner, k: nat, data: Block)
    requires MapOk(g, v, n, i, others, owner) && k < MAPPED && BlockAt(v, i, k) != 0
    ensures BlockAt(v, i, k) < |v|
    ensures var v' := v[BlockAt(v, i, k) := data];
      && MapOk(g, v', n, i, others, owner)
      && (forall j :: 0 <= j <= MAPPED ==> BlockAt(v', i, j) == BlockAt(v, i, j))
      && (forall at :: 0 <= at < MAPPED * BLOCK ==>
            ByteAt(v', i, at) == if at / BLOCK == k then data[at % BLOCK] else ByteAt(v, i, at))
  {
    var b := BlockAt(v, i, k);
    assert b in owner && owner[b] == (n, k);
    var v' := v[b := data];
    assert BlockAt(v, i, MAPPED) == i.ptrs[12];
    SameMap(v, v', i);
    SameUse(g, v, v');
    OthersKept(g, v, v', n, others, owner, owner);
    forall at | 0 <= at < MAPPED * BLOCK
      ensures ByteAt(v', i, at) == if at / BLOCK == k then data[at % BLOCK] else ByteAt(v, i, at)
    {
      assert BlockAt(v', i, at / BLOCK) == BlockAt(v, i, at / BLOCK);
    }
  }

  /** The largest piece that fits the block at the position `at`. */
  function Chunk(at: nat, left: nat): (c: nat)
    ensures left > 0 ==> 0 < c <= left && at % BLOCK + c <= BLOCK
  {
    if BLOCK - at % BLOCK > left then left else BLOCK - at % BLOCK
  }

  /** The file's map is the same, and its bytes differ by the piece at `at`. */
  ghost predicate PiecePut(v: Volume, v': Volume, i: Inode, at: nat, piece: seq<byte>)
  {
    && at / BLOCK < MAPPED && BlockAt(v, i, at / BLOCK) != 0
    && (forall j :: 0 <= j <= MAPPED ==> BlockAt(v', i, j) == BlockAt(v, i, j))
    && (forall x :: 0 <= x < MAPPED * BLOCK ==>
      ByteAt(v', i, x) == if at <= x < at + |piece| then piece[x - at] else ByteAt(v, i, x))
  }

  /** How many places the first `size` bytes of a file take. */
  function Places(size: nat): nat { (size + BLOCK - 1) / BLOCK }

  lemma PlaceWithin(pos: nat, t: nat, size: nat)
    requires t < size
    ensures pos / BLOCK <= (pos + t) / BLOCK < Places(pos + size)
  {
  }

  /** There are places and free blocks for `count` bytes at `pos`. */
  ghost predicate HasSpace(g: Geometry, v: Volume, i: Inode, pos: nat, count: nat)
    requires VolumeOk(g, v)
  {
    && pos + count <= MAPPED * BLOCK
    && |Missing(v, i, pos / BLOCK, Places(pos + count))| <= |FreeBlocks(g, v)|
  }

  /** What the file holds has all its places. */
  lemma NoneMissing(v: Volume, i: Inode, s: seq<byte>, pos: nat, count: nat)
    requires Holds(v, i, s) && pos + count <= |s|
    ensures Missing(v, i, pos / BLOCK, Places(pos + count)) == {}
  {
    var hi := Places(pos + count);
    if hi > DIRECT { assert BlockAt(v, i, hi - 1) != 0; }
  }

  /** One pass of the write loop extends what has been written by one piece. */
  lemma ChunkHolds(v: Volume, v': Volume, i: Inode, s: seq<byte>, pos: nat, d: seq<byte>, t: nat, c: nat)
    requires pos <= |s| && t < |d| && c == Chunk(pos + t, |d| - t)
    requires Holds(v, i, Overwrite(s, pos, d[..t])) && PiecePut(v, v', i, pos + t, d[t..t + c])
    ensures Holds(v', i, Overwrite(s, pos, d[..t + c]))
  {
    var before, after := Overwrite(s, pos, d[..t]), Overwrite(s, pos, d[..t + c]);
    forall at | 0 <= at < |after| ensures ByteAt(v', i, at) == after[at] {
      if at < |before| { assert ByteAt(v, i, at) == before[at]; }
    }
    forall k | 0 <= k < MAPPED && k * BLOCK < |after| ensures BlockAt(v', i, k) != 0 {
      assert BlockAt(v', i, k) == BlockAt(v, i, k);
      if k * BLOCK >= |before| { LastBlock(pos + t, c, k); }
    }
  }

  lemma LastBlock(at: nat, c: nat, k: nat)
    requires at % BLOCK + c <= BLOCK && at <= k * BLOCK < at + c
    ensures k == at / BLOCK
  {
  }

  /** A piece spliced into the block holding `at` changes exactly its own bytes of the file. */
  lemma PieceBytes(at: nat, c: nat, was: Block, piece: seq<byte>, x: nat)
    requires |piece| == c && at % BLOCK + c <= BLOCK && x / BLOCK == at / BLOCK
    ensures Splice(was, at % BLOCK, piece)[x % BLOCK]
         == if at <= x < at + c then piece[x - at] else was[x % BLOCK]
  {
    assert x % BLOCK - at % BLOCK == x - at;
  }

  /** Every other file's inode record is what `others` says. */
  ghost predicate RecordsOk(g: Geometry, v: Volume, others: map<nat, Inode>)
    requires VolumeOk(g, v) && TablesOk(g)
  {
    forall m :: m in others ==> InodeExists(g, m) && InodeOf(g, v, m) == others[m]
  }

  /** The other files keep their inodes and all their bytes. */
  ghost predicate OthersSame(v: Volume, v': Volume, others: map<nat, Inode>)
  {
    forall m, at :: m in others && 0 <= at < MAPPED * BLOCK ==> ByteAt(v', others[m], at) == ByteAt(v, others[m], at)
  }

  lemma OthersRead(v: Volume, v': Volume, n: nat, others: map<nat, Inode>, owner: Owner)
    requires |v'| == |v| && n !in others && forall m :: m in others ==> FileMapped(v, others[m], m, owner)
    requires forall b :: b in owner && owner[b].0 != n ==> b < |v| && v'[b] == v[b]
    ensures OthersSame(v, v', others)
  {
    forall m, at | m in others && 0 <= at < MAPPED * BLOCK
      ensures ByteAt(v', others[m], at) == ByteAt(v, others[m], at)
    {
      FileUntouched(v, v', others[m], m, owner);
    }
  }

  /** Rewriting an inode record disturbs no map and no file. */
  lemma RecordWritten(
    g: Geometry, v: Volume, n: nat, i: Inode, i': Inode, others: map<nat, Inode>, owner: Owner, s: seq<byte>)
    requires MapOk(g, v, n, i, others, owner) && TablesOk(g) && InodeExists(g, n) && RecordsOk(g, v, others)
    requires i'.ptrs == i.ptrs && Holds(v, i, s)
    ensures var v' := StoreInode(g, v, n, i');
      && MapOk(g, v', n, i', others, owner) && RecordsOk(g, v', others) && InodeOf(g, v', n) == i'
      && Holds(v', i', s) && OthersSame(v, v', others)
      && (forall k :: 0 <= k <= MAPPED ==> BlockAt(v', i', k) == BlockAt(v, i, k))
      && UsedBlocks(g, v') == UsedBlocks(g, v)
      && forall b :: 0 <= b < |v| && b != RecordPlace(g, n).0 ==> v'[b] == v[b]
  {
    var v' := StoreInode(g, v, n, i');
    StoreInodeExact(g, v, n, i');
    SameUse(g, v, v');
    SameUsedBlocks(g, v, v');
    FileUntouched(v, v', i, n, owner);
    OthersKept(g, v, v', n, others, owner, owner);
    OthersRead(v, v', n, others, owner);
    assert BlockAt(v, i, MAPPED) == i.ptrs[12];
    SameMap(v, v', i);
    assert forall k :: 0 <= k <= MAPPED ==> BlockAt(v', i', k) == BlockAt(v', i, k);
    assert forall at :: 0 <= at < MAPPED * BLOCK ==> ByteAt(v', i', at) == ByteAt(v', i, at);
  }

  class Fs {
    const store: Store
    var handles: array<Handle>

    ghost predicate Valid()
      reads this, store, handles
    {
      store.Valid() && TablesOk(store.g) && handles.Length == MAX_HANDLES
    }

    constructor (store: Store)
      requires store.Valid() && TablesOk(store.g)
      ensures Valid() && this.store == store && fresh(handles)
    {
      this.store := store;
      handles := new Handle[MAX_HANDLES](_ => Handle(false, 0, 0, false, false));
    }

    /** Give file `n` a fresh block, if there is one. */
    method Allocate(n: nat, i: Inode, ghost others: map<nat, Inode>, ghost owner: Owner) returns (b: nat)
      requires MapOk(store.g, store.v, n, i, others, owner)
      modifies store
      ensures MapOk(store.g, store.v, n, i, others, owner)
      ensures Grows(store.g, n, old(store.v), i, owner, store.v, i, owner)
      ensures forall k :: 0 <= k <= MAPPED ==> BlockAt(store.v, i, k) == BlockAt(old(store.v), i, k)
      ensures b == Least(FreeBlocks(store.g, old(store.v)))
      ensures b == 0 ==> store.v == old(store.v) && VolumeFull(store.g, store.v)
      ensures b != 0 ==> b in FreeBlocks(store.g, old(store.v))
      ensures b != 0 ==>
        Covered(store.g, b) && b < TWO32 && InUse(store.g, store.v, b) && b !in owner && b !in store.g.reserved
      ensures b != 0 ==>
        forall x: nat :: Covered(store.g, x) ==>
          (InUse(store.g, store.v, x) <==> InUse(store.g, old(store.v), x) || x == b)
    {
      var r := store.AllocBlock();
      if r <= 0 {
        NoneFree(store.g, store.v);
        return 0;
      }
      LowestFree(store.g, old(store.v), r);
      AllocKeeps(store.g, old(store.v), n, i, others, owner, r);
      b := r;
    }

    /** inode_get_block without creation. */
    method FindBlock(i: Inode, index: nat) returns (b: nat)
      requires i.ptrs[12] != 0 ==> i.ptrs[12] < |store.v|
      ensures b == if index < MAPPED then BlockAt(store.v, i, index) else 0
    {
      if index < DIRECT { return i.ptrs[index]; }
      if index - DIRECT >= PTRS || i.ptrs[12] == 0 { return 0; }
      b := ReadLe32(store.v[i.ptrs[12]], (index - DIRECT) * 4);
    }

    /** inode_get_block with creation: an unmapped file block gets a fresh block, and
        so does the indirect block when it is needed first. */
    method MapBlock(n: nat, i: Inode, index: nat, ghost others: map<nat, Inode>, ghost owner: Owner)
      returns (i': Inode, b: nat, ghost owner': Owner)
      requires MapOk(store.g, store.v, n, i, others, owner)
      modifies store
      ensures MapOk(store.g, store.v, n, i', others, owner')
      ensures Extends(store.g, n, old(store.v), i, owner, store.v, i', owner')
      ensures MapsOnly(old(store.v), i, store.v, i', index, index + 1)
      ensures b == Yields(store.g, old(store.v), i, index)
      ensures b != 0 ==> index < MAPPED && b == BlockAt(store.v, i', index) && b in owner' && owner'[b] == (n, index)
      ensures b == 0 && index < MAPPED ==> BlockAt(store.v, i', index) == 0 && VolumeFull(store.g, store.v)
    {
      if index >= MAPPED {
        i', b, owner' := i, 0, owner;
      } else if index < DIRECT {
        i', b, owner' := MapDirect(n, i, index, others, owner);
      } else {
        i', b, owner' := MapIndirect(n, i, index, others, owner);
      }
    }

    method MapDirect(n: nat, i: Inode, index: nat, ghost others: map<nat, Inode>, ghost owner: Owner)
      returns (i': Inode, b: nat, ghost owner': Owner)
      requires MapOk(store.g, store.v, n, i, others, owner) && index < DIRECT
      modifies store
      ensures MapOk(store.g, store.v, n, i', others, owner')
      ensures Extends(store.g, n, old(store.v), i, owner, store.v, i', owner')
      ensures MapsOnly(old(store.v), i, store.v, i', index, index + 1)
      ensures b == Yields(store.g, old(store.v), i, index)
      ensures b != 0 ==> b == BlockAt(store.v, i', index) && b in owner' && owner'[b] == (n, index)
      ensures b == 0 ==> BlockAt(store.v, i', index) == 0 && VolumeFull(store.g, store.v)
    {
      i', owner', b := i, owner, i.ptrs[index];
      if b == 0 {
        b := Allocate(n, i, others, owner);
        if b == 0 { return; }
        ghost var v1 := store.v;
        LinkDirect(store.g, store.v, n, i, others, owner, index, b);
        i', owner' := i.(ptrs := i.ptrs[index := b]), owner[b := (n, index)];
        OneTaken(store.g, n, old(store.v), i, owner, v1, store.v, i', b, index);
      }
    }

    method MapIndirect(n: nat, i: Inode, index: nat, ghost others: map<nat, Inode>, ghost owner: Owner)
      returns (i': Inode, b: nat, ghost owner': Owner)
      requires MapOk(store.g, store.v, n, i, others, owner) && DIRECT <= index < MAPPED
      modifies store
      ensures MapOk(store.g, store.v, n, i', others, owner')
      ensures Extends(store.g, n, old(store.v), i, owner, store.v, i', owner')
      ensures MapsOnly(old(store.v), i, store.v, i', index, index + 1)
      ensures b == Yields(store.g, old(store.v), i, index)
      ensures b != 0 ==> b == BlockAt(store.v, i', index) && b in owner' && owner'[b] == (n, index)
      ensures b == 0 ==> BlockAt(store.v, i', index) == 0 && VolumeFull(store.g, store.v)
    {
      if i.ptrs[12] != 0 {
        i' := i;
        b, owner' := MapEntry(n, i, index, others, owner);
        return;
      }
      i', owner' := AddIndirect(n, i, others, owner);
      ghost var v1, owner1 := store.v, owner';
      YieldsBehind(store.g, old(store.v), i, v1, i', index);
      if i'.ptrs[12] == 0 { return i', 0, owner'; }
      b, owner' := MapEntry(n, i', index, others, owner');
      ExtendsTrans(store.g, n, old(store.v), i, owner, v1, i', owner1, store.v, i', owner');
    }

    /** The entry of the indirect block for file block `index`. */
    method MapEntry(n: nat, i: Inode, index: nat, ghost others: map<nat, Inode>, ghost owner: Owner)
      returns (b: nat, ghost owner': Owner)
      requires MapOk(store.g, store.v, n, i, others, owner) && DIRECT <= index < MAPPED && i.ptrs[12] != 0
      modifies store
      ensures MapOk(store.g, store.v, n, i, others, owner')
      ensures Extends(store.g, n, old(store.v), i, owner, store.v, i, owner')
      ensures MapsOnly(old(store.v), i, store.v, i, index, index + 1)
      ensures b == Yields(store.g, old(store.v), i, index)
      ensures b != 0 ==> b == BlockAt(store.v, i, index) && b in owner' && owner'[b] == (n, index)
      ensures b == 0 ==> BlockAt(store.v, i, index) == 0 && VolumeFull(store.g, store.v)
    {
      assert BlockAt(store.v, i, MAPPED) == i.ptrs[12];
      owner', b := owner, ReadLe32(store.v[i.ptrs[12]], (index - DIRECT) * 4);
      if b == 0 { b, owner' := AddEntry(n, i, index, others, owner); }
    }

    method AddEntry(n: nat, i: Inode, index: nat, ghost others: map<nat, Inode>, ghost owner: Owner)
      returns (b: nat, ghost owner': Owner)
      requires MapOk(store.g, store.v, n, i, others, owner)
      requires DIRECT <= index < MAPPED && i.ptrs[12] != 0 && BlockAt(store.v, i, index) == 0
      modifies store
      ensures MapOk(store.g, store.v, n, i, others, owner')
      ensures Extends(store.g, n, old(store.v), i, owner, store.v, i, owner')
      ensures MapsOnly(old(store.v), i, store.v, i, index, index + 1)
      ensures b == Least(FreeBlocks(store.g, old(store.v)))
      ensures b != 0 ==> b == BlockAt(store.v, i, index) && b in owner' && owner'[b] == (n, index)
      ensures b == 0 ==> BlockAt(store.v, i, index) == 0 && VolumeFull(store.g, store.v)
    {
      owner' := owner;
      b := Allocate(n, i, others, owner);
      if b != 0 {
        ghost var v1 := store.v;
        LinkEntry(store.g, store.v, n, i, others, owner, index, b);
        store.v := store.v[i.ptrs[12] := Splice(store.v[i.ptrs[12]], (index - DIRECT) * 4, Le32(b))];
        owner' := owner[b := (n, index)];
        OneTaken(store.g, n, old(store.v), i, owner, v1, store.v, i, b, index);
      }
    }

    method AddIndirect(n: nat, i: Inode, ghost others: map<nat, Inode>, ghost owner: Owner)
      returns (i': Inode, ghost owner': Owner)
      requires MapOk(store.g, store.v, n, i, others, owner) && i.ptrs[12] == 0
      modifies store
      ensures MapOk(store.g, store.v, n, i', others, owner')
      ensures Extends(store.g, n, old(store.v), i, owner, store.v, i', owner')
      ensures forall k :: 0 <= k < MAPPED ==> BlockAt(store.v, i', k) == BlockAt(old(store.v), i, k)
      ensures i'.ptrs[12] == Least(FreeBlocks(store.g, old(store.v)))
      ensures FreeBlocks(store.g, store.v) == FreeBlocks(store.g, old(store.v)) - {i'.ptrs[12]}
      ensures i'.ptrs[12] == 0 ==> VolumeFull(store.g, store.v)
    {
      var b := Allocate(n, i, others, owner);
      if b == 0 { return i, owner; }
      ghost var v1 := store.v;
      LinkIndirect(store.g, store.v, n, i, others, owner, b);
      store.v := store.v[b := Zeros()];
      i', owner' := i.(ptrs := i.ptrs[12 := b]), owner[b := (n, MAPPED)];
      OneTaken(store.g, n, old(store.v), i, owner, v1, store.v, i', b, MAPPED);
    }

    /** One pass of the write loop: the block under `at`, allocated on demand, gets
        the next piece. Yields 0 bytes when no block could be had. */
    method WritePiece(n: nat, i: Inode, at: nat, piece: seq<byte>, ghost others: map<nat, Inode>, ghost owner: Owner)
      returns (i': Inode, ok: bool, ghost owner': Owner, ghost v1: Volume)
      requires MapOk(store.g, store.v, n, i, others, owner) && at % BLOCK + |piece| <= BLOCK
      modifies store
      ensures MapOk(store.g, store.v, n, i', others, owner')
      ensures VolumeOk(store.g, v1) && Extends(store.g, n, old(store.v), i, owner, v1, i', owner')
      ensures MapsOnly(old(store.v), i, v1, i', at / BLOCK, at / BLOCK + 1)
      ensures DataOnly(store.g, n, v1, store.v, i', owner')
      ensures !ok ==> store.v == v1 && OutOfBlocks(store.g, store.v, i', at / BLOCK)
      ensures ok ==> PiecePut(v1, store.v, i', at, piece)
    {
      var b;
      i', b, owner' := MapBlock(n, i, at / BLOCK, others, owner);
      v1 := store.v;
      ok := b != 0;
      if ok {
        PieceWritten(store.g, n, v1, i', at, piece, others, owner');
        store.v := store.v[b := Splice(store.v[b], at % BLOCK, piece)];
      }
    }

    /** The piece spliced into the block under `at`. */
    static lemma PieceWritten(
      g: Geometry, n: nat, v: Volume, i: Inode, at: nat, piece: seq<byte>, others: map<nat, Inode>, owner: Owner)
      requires MapOk(g, v, n, i, others, owner) && at % BLOCK + |piece| <= BLOCK
      requires at / BLOCK < MAPPED && BlockAt(v, i, at / BLOCK) != 0
      ensures BlockAt(v, i, at / BLOCK) < |v|
      ensures var b := BlockAt(v, i, at / BLOCK);
        var v' := v[b := Splice(v[b], at % BLOCK, piece)];
        MapOk(g, v', n, i, others, owner) && DataOnly(g, n, v, v', i, owner) && PiecePut(v, v', i, at, piece)
    {
      var b := BlockAt(v, i, at / BLOCK);
      assert owner[b] == (n, at / BLOCK);
      var data := Splice(v[b], at % BLOCK, piece);
      DataWritten(g, v, n, i, others, owner, at / BLOCK, data);
      forall x | 0 <= x < MAPPED * BLOCK && x / BLOCK == at / BLOCK
        ensures data[x % BLOCK] == if at <= x < at + |piece| then piece[x - at] else ByteAt(v, i, x)
      {
        PieceBytes(at, |piece|, v[b], piece, x);
      }
      forall x | at <= x < at + |piece| ensures x / BLOCK == at / BLOCK { SameBlock(at, |piece|, x); }
      SameUsedBlocks(g, v, v[b := data]);
    }

    /** Only bytes of data blocks of file `n` differ. */
    static ghost predicate DataOnly(g: Geometry, n: nat, v: Volume, v': Volume, i: Inode, owner: Owner)
    {
      && VolumeOk(g, v) && VolumeOk(g, v')
      && UsedBlocks(g, v') == UsedBlocks(g, v) && FreeBlocks(g, v') == FreeBlocks(g, v)
      && (forall k :: 0 <= k <= MAPPED ==> BlockAt(v', i, k) == BlockAt(v, i, k))
      && forall b :: 0 <= b < |v| && (b !in owner || owner[b].0 != n) ==> v'[b] == v[b]
    }

    /** File block `k` cannot be had: it is past the map, or is not mapped and no block is left. */
    static ghost predicate OutOfBlocks(g: Geometry, v: Volume, i: Inode, k: nat)
      requires VolumeOk(g, v)
    {
      k >= MAPPED || (BlockAt(v, i, k) == 0 && VolumeFull(g, v))
    }

    /** The next piece of `d` written to a file that already holds its first `t` bytes. */
    method WriteStep(
      n: nat, i: Inode, pos: nat, d: seq<byte>, t: nat, ghost s: seq<byte>, ghost others: map<nat, Inode>,
      ghost owner: Owner)
      returns (i': Inode, c: nat, ok: bool, ghost owner': Owner)
      requires MapOk(store.g, store.v, n, i, others, owner) && pos <= |s| && t < |d|
      requires Holds(store.v, i, Overwrite(s, pos, d[..t]))
      modifies store
      ensures MapOk(store.g, store.v, n, i', others, owner')
      ensures Onwards(store.g, n, old(store.v), i, owner, store.v, i', owner', (pos + t) / BLOCK, (pos + t) / BLOCK + 1)
      ensures ok ==> 0 < c <= |d| - t && Holds(store.v, i', Overwrite(s, pos, d[..t + c]))
      ensures !ok ==> Holds(store.v, i', Overwrite(s, pos, d[..t]))
      ensures !ok ==> OutOfBlocks(store.g, store.v, i', (pos + t) / BLOCK)
    {
      c := Chunk(pos + t, |d| - t);
      ghost var v1;
      i', ok, owner', v1 := WritePiece(n, i, pos + t, d[t..t + c], others, owner);
      PieceOnwards(store.g, n, old(store.v), i, owner, v1, i', owner', store.v, (pos + t) / BLOCK);
      HoldsGrown(store.g, n, old(store.v), i, owner, v1, i', owner', Overwrite(s, pos, d[..t]));
      if ok {
        ChunkHolds(v1, store.v, i', s, pos, d, t, c);
      }
    }

    /** The write loop of ext2_write on the file with inode `i0`, which holds `s`. */
    method WriteLoop(
      n: nat, i0: Inode, pos: nat, d: seq<byte>, ghost s: seq<byte>, ghost others: map<nat, Inode>, ghost owner: Owner)
      returns (i: Inode, ok: bool, ghost owner': Owner, t: nat)
      requires MapOk(store.g, store.v, n, i0, others, owner) && pos <= |s| && Holds(store.v, i0, s)
      modifies store
      ensures MapOk(store.g, store.v, n, i, others, owner')
      ensures Onwards(store.g, n, old(store.v), i0, owner, store.v, i, owner', pos / BLOCK, Places(pos + |d|))
      ensures ok ==> Holds(store.v, i, Overwrite(s, pos, d))
      ensures !ok ==> t < |d| && Holds(store.v, i, Overwrite(s, pos, d[..t]))
      ensures ok <==> HasSpace(store.g, old(store.v), i0, pos, |d|)
      ensures !ok ==> pos + |d| > MAPPED * BLOCK || VolumeFull(store.g, store.v)
    {
      i, owner', t, ok := i0, owner, 0, true;
      assert d[..0] == [] && Overwrite(s, pos, []) == s;
      while t < |d| && ok
        invariant t <= |d| && (!ok ==> t < |d|)
        invariant MapOk(store.g, store.v, n, i, others, owner')
        invariant Onwards(store.g, n, old(store.v), i0, owner, store.v, i, owner', pos / BLOCK, Places(pos + |d|))
        invariant Holds(store.v, i, Overwrite(s, pos, d[..t]))
        invariant !ok ==> Short(store.g, store.v, i, pos, |d|)
        decreases |d| - t, ok
      {
        i, ok, owner', t := WriteTurn(n, i, pos, d, t, s, others, owner', i0, old(store.v), owner);
      }
      assert d[..|d|] == d;
      SpaceIff(store.g, n, old(store.v), i0, owner, store.v, i, owner', s, pos, d, t, ok);
      NoneFree(store.g, store.v);
    }

    /** The write went through exactly when there was space. */
    static lemma SpaceIff(
      g: Geometry, n: nat, v: Volume, i: Inode, owner: Owner, v': Volume, i': Inode, owner': Owner, s: seq<byte>,
      pos: nat, d: seq<byte>, t: nat, ok: bool)
      requires Onwards(g, n, v, i, owner, v', i', owner', pos / BLOCK, Places(pos + |d|))
      requires pos <= |s| && t <= |d| && Holds(v', i', Overwrite(s, pos, d[..t]))
      requires if ok then t == |d| else Short(g, v', i', pos, |d|)
      ensures ok <==> HasSpace(g, v, i, pos, |d|)
    {
      if ok { NoneMissing(v', i', Overwrite(s, pos, d[..t]), pos, |d|); }
      if pos + |d| <= MAPPED * BLOCK { EnoughIff(g, v, i, v', i', pos / BLOCK, Places(pos + |d|)); }
    }

    /** One turn of the loop, for a write that began with inode `i0` on the volume `v0`. */
    method WriteTurn(
      n: nat, i: Inode, pos: nat, d: seq<byte>, t: nat, ghost s: seq<byte>, ghost others: map<nat, Inode>,
      ghost owner: Owner, ghost i0: Inode, ghost v0: Volume, ghost owner0: Owner)
      returns (i': Inode, ok: bool, ghost owner': Owner, t': nat)
      requires MapOk(store.g, store.v, n, i, others, owner) && pos <= |s| && t < |d|
      requires Onwards(store.g, n, v0, i0, owner0, store.v, i, owner, pos / BLOCK, Places(pos + |d|))
      requires Holds(store.v, i, Overwrite(s, pos, d[..t]))
      modifies store
      ensures MapOk(store.g, store.v, n, i', others, owner')
      ensures Onwards(store.g, n, v0, i0, owner0, store.v, i', owner', pos / BLOCK, Places(pos + |d|)) && t' <= |d|
      ensures Holds(store.v, i', Overwrite(s, pos, d[..t']))
      ensures if ok then t' > t else t' == t && Short(store.g, store.v, i', pos, |d|)
    {
      ghost var v1 := store.v;
      var chunk;
      i', chunk, ok, owner' := WriteStep(n, i, pos, d, t, s, others, owner);
      PlaceWithin(pos, t, |d|);
      Onward(store.g, n, v0, i0, owner0, v1, i, owner, store.v, i', owner', pos / BLOCK, Places(pos + |d|),
             (pos + t) / BLOCK);
      if !ok { StoppedHere(store.g, store.v, i', pos, t, |d|); }
      t' := if ok then t + chunk else t;
    }

    /** A place the write needs is missing, and no block is left for it. */
    static ghost predicate Short(g: Geometry, v: Volume, i: Inode, pos: nat, count: nat)
      requires VolumeOk(g, v)
    {
      pos + count > MAPPED * BLOCK
      || (FreeBlocks(g, v) == {} && Missing(v, i, pos / BLOCK, Places(pos + count)) != {})
    }

    static lemma StoppedHere(g: Geometry, v: Volume, i: Inode, pos: nat, t: nat, count: nat)
      requires VolumeOk(g, v) && t < count && OutOfBlocks(g, v, i, (pos + t) / BLOCK)
      ensures Short(g, v, i, pos, count)
    {
      PlaceWithin(pos, t, count);
      var k := (pos + t) / BLOCK;
      if k < MAPPED {
        NoneFree(g, v);
        assert k in Missing(v, i, pos / BLOCK, Places(pos + count));
      }
    }

    static lemma ElsewhereTrans(g: Geometry, n: nat, v: Volume, v1: Volume, owner1: Owner, v2: Volume, owner2: Owner)
      requires Elsewhere(g, n, v, v1, owner1) && Elsewhere(g, n, v1, v2, owner2) && OwnerGrows(n, owner1, owner2)
      ensures Elsewhere(g, n, v, v2, owner2)
    {
    }

    /** From one state of file `n` to a later one, seen from outside the file; only the places
        `lo` to `hi` were mapped. */
    static ghost predicate Onwards(
      g: Geometry, n: nat, v: Volume, i: Inode, owner: Owner, v': Volume, i': Inode, owner': Owner, lo: nat, hi: nat)
    {
      && VolumeOk(g, v) && VolumeOk(g, v') && OwnerGrows(n, owner, owner') && i' == i.(ptrs := i'.ptrs)
      && Elsewhere(g, n, v, v', owner') && Takes(g, v, owner, v', i', owner') && MapKept(v, i, v', i')
      && MapsOnly(v, i, v', i', lo, hi) && Balanced(g, v, i, v', i')
    }

    static lemma Onward(
      g: Geometry, n: nat, v: Volume, i: Inode, owner: Owner, v1: Volume, i1: Inode, owner1: Owner, v2: Volume,
      i2: Inode, owner2: Owner, lo: nat, hi: nat, k: nat)
      requires Onwards(g, n, v, i, owner, v1, i1, owner1, lo, hi)
      requires Onwards(g, n, v1, i1, owner1, v2, i2, owner2, k, k + 1) && lo <= k < hi
      ensures Onwards(g, n, v, i, owner, v2, i2, owner2, lo, hi)
    {
      ElsewhereTrans(g, n, v, v1, owner1, v2, owner2);
      TakesTrans(g, n, v, owner, v1, i1, owner1, v2, i2, owner2);
    }

    static lemma PieceOnwards(
      g: Geometry, n: nat, v: Volume, i: Inode, owner: Owner, v1: Volume, i': Inode, owner': Owner, v2: Volume, k: nat)
      requires VolumeOk(g, v) && VolumeOk(g, v1) && Extends(g, n, v, i, owner, v1, i', owner')
      requires DataOnly(g, n, v1, v2, i', owner') && MapsOnly(v, i, v1, i', k, k + 1)
      ensures Onwards(g, n, v, i, owner, v2, i', owner', k, k + 1)
    {
      assert Unmapped(v2, i') == Unmapped(v1, i');
    }

    /** Blocks that are not this file's and not bitmaps keep their bytes. */
    static ghost predicate Elsewhere(g: Geometry, n: nat, v: Volume, v': Volume, owner: Owner)
    {
      |v'| == |v| && forall b :: 0 <= b < |v| && (b !in owner || owner[b].0 != n) && b !in g.bitmaps ==> v'[b] == v[b]
    }

    method ReadInode(n: nat) returns (ok: bool, i: Inode)
      requires Valid()
      ensures ok == InodeExists(store.g, n) && (ok ==> i == InodeOf(store.g, store.v, n))
    {
      i := InodeRecord(seq(4, _ => 0), 0, seq(20, _ => 0), 0, seq(8, _ => 0), seq(15, _ => 0), seq(28, _ => 0));
      if n == 0 || n > store.g.totalInodes { return false, i; }
      assert InodeExists(store.g, n);
      var (b, off) := RecordPlace(store.g, n);
      return true, Decode(store.v[b][off..off + RECORD]);
    }

    method WriteInode(n: nat, i: Inode) returns (ok: bool)
      requires Valid()
      modifies store
      ensures Valid() && ok == InodeExists(store.g, n)
      ensures store.v == if ok then StoreInode(store.g, old(store.v), n, i) else old(store.v)
    {
      if n == 0 || n > store.g.totalInodes { return false; }
      assert InodeExists(store.g, n);
      var (b, off) := RecordPlace(store.g, n);
      store.v := store.v[b := Splice(store.v[b], off, Encode(i))];
      ok := true;
    }

    /** The blocks of file `n` and of the others are their own. */
    ghost predicate OwnMap(n: nat, others: map<nat, Inode>, owner: Owner)
      requires Valid() && InodeExists(store.g, n)
      reads this, store, handles
    {
      MapOk(store.g, store.v, n, InodeOf(store.g, store.v, n), others, owner)
    }

    /** File `n` is in order: its map and the other files' share nothing, it has no
        holes, and the position is not past its end. */
    ghost predicate InOrder(n: nat, pos: nat, others: map<nat, Inode>, owner: Owner)
      requires Valid() && InodeExists(store.g, n)
      reads this, store, handles
    {
      var i := InodeOf(store.g, store.v, n);
      && MapOk(store.g, store.v, n, i, others, owner) && RecordsOk(store.g, store.v, others)
      && NoHoles(store.v, i) && pos <= i.size
    }

    /** ext2_write past its handle checks. */
    method WriteFile(n: nat, pos: nat, d: seq<byte>, ghost others: map<nat, Inode>, ghost owner: Owner)
      returns (r: int, ghost owner': Owner)
      requires Valid() && (InodeExists(store.g, n) ==> InOrder(n, pos, others, owner))
      modifies store
      ensures Valid() && r in {|d|, ERR_IO, NO_SPACE}
      ensures r == ERR_IO <==> !InodeExists(store.g, n)
      ensures r == ERR_IO ==> store.v == old(store.v)
      ensures r == |d| ==> Written(store.g, old(store.v), store.v, n, others, owner, owner', pos, d)
      ensures r == NO_SPACE ==> OthersSame(old(store.v), store.v, others)
      ensures r == NO_SPACE ==> PartWritten(store.g, old(store.v), store.v, n, pos, d)
      ensures r == NO_SPACE ==> pos + |d| > MAPPED * BLOCK || VolumeFull(store.g, store.v)
      ensures InodeExists(store.g, n) ==>
        (r == |d| <==> HasSpace(store.g, old(store.v), InodeOf(store.g, old(store.v), n), pos, |d|))
    {
      var ok, i := ReadInode(n);
      if !ok { return ERR_IO, owner; }
      ghost var v0 := store.v;
      HoldsContents(v0, i);
      var i1;
      var t;
      i1, ok, owner', t := WriteLoop(n, i, pos, d, Contents(v0, i), others, owner);
      OthersRead(v0, store.v, n, others, owner);
      if !ok {
        GaveUp(store.g, n, v0, i, owner, store.v, i1, owner', others, pos, d, t);
        return NO_SPACE, owner';
      }
      var size := if pos + |d| > i1.size then pos + |d| else i1.size;
      var i2 := i1.(size := size, blocks := (size + 511) / 512);
      Finish(store.g, n, v0, i, owner, store.v, i1, i2, others, owner', pos, d);
      ok := WriteInode(n, i2);
      r := |d|;
    }

    /** ext2_write: on success the data is spliced into the file, and every other file,
        every other inode and every block that is not this file's own, a bitmap or
        its inode's table block is as before. */
    method Write(h: int, d: seq<byte>, ghost others: map<nat, Inode>, ghost owner: Owner)
      returns (r: int, ghost owner': Owner)
      requires Valid()
      requires 0 <= h < MAX_HANDLES && InodeExists(store.g, handles[h].inode) ==>
        InOrder(handles[h].inode, handles[h].pos, others, owner)
      modifies store, handles
      ensures Valid()
      ensures r == INVALID_FD <==> !(0 <= h < MAX_HANDLES && old(handles[h]).used)
      ensures r == ERR_PERM <==> 0 <= h < MAX_HANDLES && old(handles[h]).used && !old(handles[h]).writable
      ensures r in {|d|, INVALID_FD, ERR_PERM, ERR_IO, NO_SPACE}
      ensures r in {INVALID_FD, ERR_PERM, ERR_IO} ==> store.v == old(store.v)
      ensures r < 0 ==> handles[..] == old(handles[..])
      ensures r >= 0 ==> handles[..] == old(handles[..])[h := old(handles[h]).(pos := old(handles[h]).pos + |d|)]
      ensures r >= 0 ==> InodeExists(store.g, old(handles[h]).inode)
      ensures r >= 0 ==>
        Written(store.g, old(store.v), store.v, old(handles[h]).inode, others, owner, owner', old(handles[h]).pos, d)
      ensures r == NO_SPACE ==> OthersSame(old(store.v), store.v, others)
      ensures r == NO_SPACE ==>
        PartWritten(store.g, old(store.v), store.v, old(handles[h]).inode, old(handles[h]).pos, d)
      ensures r == NO_SPACE ==> old(handles[h]).pos + |d| > MAPPED * BLOCK || VolumeFull(store.g, store.v)
      ensures 0 <= h < MAX_HANDLES && old(handles[h]).used && old(handles[h]).writable ==>
        && (r == ERR_IO <==> !InodeExists(store.g, old(handles[h]).inode))
        && (InodeExists(store.g, old(handles[h]).inode) ==>
             var i := InodeOf(store.g, old(store.v), old(handles[h]).inode);
             (r >= 0 <==> HasSpace(store.g, old(store.v), i, old(handles[h]).pos, |d|)))
    {
      owner' := owner;
      if h < 0 || h >= MAX_HANDLES || !handles[h].used { return INVALID_FD, owner; }
      if !handles[h].writable { return ERR_PERM, owner; }
      r, owner' := WriteFile(handles[h].inode, handles[h].pos, d, others, owner);
      if r >= 0 {
        handles[h] := handles[h].(pos := handles[h].pos + |d|);
      }
    }

    /** ext2_read: exactly the bytes from the position on, at most `size` of them. */
    method Read(h: int, size: nat, ghost others: map<nat, Inode>, ghost owner: Owner) returns (r: int, out: seq<byte>)
      requires Valid()
      requires 0 <= h < MAX_HANDLES && InodeExists(store.g, handles[h].inode) ==>
        OwnMap(handles[h].inode, others, owner)
      modifies handles
      ensures Valid()
      ensures r == INVALID_FD <==> !(0 <= h < MAX_HANDLES && old(handles[h]).used)
      ensures r == ERR_PERM <==> 0 <= h < MAX_HANDLES && old(handles[h]).used && !old(handles[h]).readable
      ensures r >= 0 || r in {INVALID_FD, ERR_PERM, ERR_IO}
      ensures r < 0 ==> handles[..] == old(handles[..]) && out == []
      ensures r >= 0 ==> |out| == r && InodeExists(store.g, old(handles[h]).inode)
      ensures r >= 0 ==>
        out == ReadSlice(store.v, InodeOf(store.g, store.v, old(handles[h]).inode), old(handles[h]).pos, size)
      ensures r >= 0 ==> handles[..] == old(handles[..])[h := old(handles[h]).(pos := old(handles[h]).pos + r)]
    {
      if h < 0 || h >= MAX_HANDLES || !handles[h].used { return INVALID_FD, []; }
      if !handles[h].readable { return ERR_PERM, []; }
      r, out := ReadFile(handles[h].inode, handles[h].pos, size, others, owner);
      if r >= 0 { handles[h] := handles[h].(pos := handles[h].pos + r); }
    }

    /** What was written is read back, after seeking to where the write began. */
    method WriteThenRead(h: int, d: seq<byte>, ghost others: map<nat, Inode>, ghost owner: Owner)
      returns (r: int, out: seq<byte>)
      requires Valid()
      requires 0 <= h < MAX_HANDLES && InodeExists(store.g, handles[h].inode) ==>
        InOrder(handles[h].inode, handles[h].pos, others, owner)
      modifies store, handles
      ensures Valid()
      ensures r >= 0 ==> 0 <= h < MAX_HANDLES && old(handles[h]).readable && r == |d| && out == d
    {
      ghost var owner', v0;
      v0 := store.v;
      out := [];
      r, owner' := Write(h, d, others, owner);
      if r >= 0 {
        var was := handles[h].pos - |d|;
        handles[h] := handles[h].(pos := was);
        ReadBack(Contents(v0, InodeOf(store.g, v0, handles[h].inode)), was, d, was, |d|);
        NoHolesReadsAll(store.v, InodeOf(store.g, store.v, handles[h].inode), was, |d|);
        r, out := Read(h, |d|, others, owner');
      }
    }

    /** ext2_read past its handle checks. */
    method ReadFile(n: nat, pos: nat, size: nat, ghost others: map<nat, Inode>, ghost owner: Owner)
      returns (r: int, out: seq<byte>)
      requires Valid() && (InodeExists(store.g, n) ==> OwnMap(n, others, owner))
      ensures if InodeExists(store.g, n) then r == |out| else r == ERR_IO && out == []
      ensures InodeExists(store.g, n) ==> out == ReadSlice(store.v, InodeOf(store.g, store.v, n), pos, size)
    {
      var ok, i := ReadInode(n);
      if !ok { return ERR_IO, []; }
      if pos >= i.size { return 0, []; }
      out := ReadLoop(n, i, pos, size, others, owner);
      r := |out|;
    }

    method ReadLoop(n: nat, i: Inode, pos: nat, size: nat, ghost others: map<nat, Inode>, ghost owner: Owner)
      returns (out: seq<byte>)
      requires MapOk(store.g, store.v, n, i, others, owner) && pos < i.size
      ensures out == ReadSlice(store.v, i, pos, size)
    {
      var want := if size > i.size - pos then i.size - pos else size;
      out := [];
      var stop := false;
      while |out| < want && !stop
        invariant |out| <= want && ReadSoFar(store.v, i, pos, out)
        invariant stop ==> pos + |out| == ReadEnd(store.v, i, pos)
        decreases want - |out|, !stop
      {
        var piece;
        piece, stop := ReadStep(n, i, pos, pos + |out|, want - |out|, others, owner);
        ReadOn(store.v, i, pos, out, piece);
        out := out + piece;
      }
      ReadWhole(store.v, i, pos, size, out);
    }

    /** What has been read is the file's bytes from `pos` on. */
    static ghost predicate ReadSoFar(v: Volume, i: Inode, pos: nat, out: seq<byte>)
      requires pos < i.size
    {
      pos + |out| <= ReadEnd(v, i, pos) && out == Stretch(v, i, pos, pos + |out|)
    }

    static lemma ReadOn(v: Volume, i: Inode, pos: nat, out: seq<byte>, piece: seq<byte>)
      requires pos < i.size && ReadSoFar(v, i, pos, out)
      requires pos + |out| + |piece| <= ReadEnd(v, i, pos)
      requires piece == Stretch(v, i, pos + |out|, pos + |out| + |piece|)
      ensures ReadSoFar(v, i, pos, out + piece)
    {
      StretchJoin(v, i, pos, pos + |out|, pos + |out| + |piece|);
    }

    static lemma ReadWhole(v: Volume, i: Inode, pos: nat, size: nat, out: seq<byte>)
      requires pos < i.size && ReadSoFar(v, i, pos, out) && |out| <= size && pos + |out| <= i.size
      requires pos + |out| == ReadEnd(v, i, pos) || |out| == size || pos + |out| == i.size
      ensures out == ReadSlice(v, i, pos, size)
    {
    }

    /** One turn of the read loop. */
    method ReadStep(n: nat, i: Inode, pos: nat, at: nat, left: nat, ghost others: map<nat, Inode>, ghost owner: Owner)
      returns (piece: seq<byte>, stop: bool)
      requires MapOk(store.g, store.v, n, i, others, owner) && pos < i.size && 0 < left && at + left <= i.size
      requires pos <= at <= ReadEnd(store.v, i, pos)
      ensures stop ==> piece == [] && at == ReadEnd(store.v, i, pos)
      ensures !stop ==> 0 < |piece| <= left
      ensures at + |piece| <= ReadEnd(store.v, i, pos) && piece == Stretch(store.v, i, at, at + |piece|)
    {
      assert BlockAt(store.v, i, MAPPED) == i.ptrs[12];
      var b := FindBlock(i, at / BLOCK);
      stop := b == 0;
      if stop {
        HoleStops(store.v, i, pos, at);
        piece := [];
      } else {
        piece := ReadPiece(n, i, at, left, b, others, owner);
        PieceBelowEnd(store.v, i, pos, at, |piece|);
      }
    }

    method ReadPiece(n: nat, i: Inode, at: nat, left: nat, b: nat, ghost others: map<nat, Inode>, ghost owner: Owner)
      returns (piece: seq<byte>)
      requires MapOk(store.g, store.v, n, i, others, owner) && 0 < left && at + left <= i.size
      requires at / BLOCK < MAPPED && b == BlockAt(store.v, i, at / BLOCK) != 0
      ensures |piece| == Chunk(at, left) && at / BLOCK * BLOCK + BLOCK <= MAPPED * BLOCK
      ensures at + |piece| <= at / BLOCK * BLOCK + BLOCK && piece == Stretch(store.v, i, at, at + |piece|)
    {
      assert b in owner;
      var c := Chunk(at, left);
      PieceRead(store.v, i, at, c, b);
      piece := store.v[b][at % BLOCK..at % BLOCK + c];
    }

    /** The bytes of one block from `at` on are the file's bytes from `at` on. */
    static lemma PieceRead(v: Volume, i: Inode, at: nat, c: nat, b: nat)
      requires at % BLOCK + c <= BLOCK && at / BLOCK < MAPPED && b == BlockAt(v, i, at / BLOCK) && 0 < b < |v|
      ensures at + c <= at / BLOCK * BLOCK + BLOCK <= MAPPED * BLOCK
      ensures v[b][at % BLOCK..at % BLOCK + c] == Stretch(v, i, at, at + c)
    {
      forall x | at <= x < at + c ensures ByteAt(v, i, x) == v[b][at % BLOCK + (x - at)] {
        SameBlock(at, c, x);
      }
    }
  }

  /** Reading where one has just written gives the written bytes back, and a read
      that ends before or starts after them gives the old ones. */
  lemma ReadBack(s: seq<byte>, pos: nat, d: seq<byte>, at: nat, size: nat)
    requires pos <= |s|
    ensures Slice(Overwrite(s, pos, d), pos, |d|) == d
    ensures at + size <= pos || (pos + |d| <= at && at + size <= |s|) ==>
      Slice(Overwrite(s, pos, d), at, size) == Slice(s, at, size)
  {
    var r := Overwrite(s, pos, d);
    assert Slice(r, pos, |d|) == d;
    if at + size <= pos || (pos + |d| <= at && at + size <= |s|) {
      assert Slice(r, at, size) == Slice(s, at, size);
    }
  }

  /** At most `size` bytes of `s` from `pos` on. */
  function Slice(s: seq<byte>, pos: nat, size: nat): seq<byte>
  {
    if pos >= |s| then [] else s[pos..if pos + size < |s| then pos + size else |s|]
  }

  /** The bytes of the file from `a` to `z`. */
  function Stretch(v: Volume, i: Inode, a: nat, z: nat): (s: seq<byte>)
    requires a <= z && (a < z ==> z <= MAPPED * BLOCK)
    ensures |s| == z - a && forall x :: 0 <= x < |s| ==> s[x] == ByteAt(v, i, a + x)
  {
    seq<byte>(z - a, x requires 0 <= x < z - a => ByteAt(v, i, a + x))
  }

  lemma StretchJoin(v: Volume, i: Inode, a: nat, m: nat, z: nat)
    requires a <= m <= z && (a < z ==> z <= MAPPED * BLOCK)
    ensures Stretch(v, i, a, m) + Stretch(v, i, m, z) == Stretch(v, i, a, z)
  {
  }

  /** The first unmapped place of the file from `k` on. */
  function FirstHole(v: Volume, i: Inode, k: nat): (h: nat)
    ensures k <= h && (k <= MAPPED ==> h <= MAPPED)
    ensures forall j :: k <= j < h && j < MAPPED ==> BlockAt(v, i, j) != 0
    ensures h < MAPPED ==> BlockAt(v, i, h) == 0
    decreases MAPPED - k
  {
    if k >= MAPPED || BlockAt(v, i, k) == 0 then k else FirstHole(v, i, k + 1)
  }

  /** Where reading from `pos` stops: at the end of the file or at its first hole. */
  function ReadEnd(v: Volume, i: Inode, pos: nat): (e: nat)
    requires pos < i.size
    ensures pos <= e <= i.size && (e > pos ==> e <= MAPPED * BLOCK)
  {
    var h := FirstHole(v, i, pos / BLOCK) * BLOCK;
    if h <= pos then pos else if h < i.size then h else i.size
  }

  /** What a read of `size` bytes from `pos` yields. */
  function ReadSlice(v: Volume, i: Inode, pos: nat, size: nat): seq<byte>
  {
    if pos >= i.size then []
    else
      var e := ReadEnd(v, i, pos);
      if e == pos then [] else Stretch(v, i, pos, if pos + size < e then pos + size else e)
  }

  lemma HoleStops(v: Volume, i: Inode, pos: nat, at: nat)
    requires pos < i.size && pos <= at <= ReadEnd(v, i, pos)
    requires at / BLOCK < MAPPED ==> BlockAt(v, i, at / BLOCK) == 0
    ensures at == ReadEnd(v, i, pos)
  {
    var h := FirstHole(v, i, pos / BLOCK);
    DivMono(pos, at);
    assert h <= at / BLOCK;
    DivBound(h, at);
  }

  lemma PieceBelowEnd(v: Volume, i: Inode, pos: nat, at: nat, c: nat)
    requires pos < i.size && pos <= at <= ReadEnd(v, i, pos) && at + c <= i.size && at + c <= at / BLOCK * BLOCK + BLOCK
    requires at / BLOCK < MAPPED && BlockAt(v, i, at / BLOCK) != 0
    ensures at + c <= ReadEnd(v, i, pos)
  {
    var h := FirstHole(v, i, pos / BLOCK);
    DivMono(pos, at);
    AboveDiv(h, at);
  }

  lemma AboveDiv(h: nat, at: nat)
    ensures h * BLOCK <= at ==> h <= at / BLOCK
    ensures h > at / BLOCK ==> h * BLOCK >= at / BLOCK * BLOCK + BLOCK
  {
  }

  lemma DivMono(a: nat, b: nat)
    requires a <= b
    ensures a / BLOCK <= b / BLOCK
  {
  }

  lemma DivBound(h: nat, at: nat)
    requires h <= at / BLOCK
    ensures h * BLOCK <= at
  {
  }

  /** Without holes a read yields the slice of the contents. */
  lemma NoHolesReadsAll(v: Volume, i: Inode, pos: nat, size: nat)
    requires NoHoles(v, i)
    ensures ReadSlice(v, i, pos, size) == Slice(Contents(v, i), pos, size)
  {
    if pos < i.size {
      EndIsSize(v, i, pos);
      var s := ReadSlice(v, i, pos, size);
      assert forall x :: 0 <= x < |s| ==> s[x] == Contents(v, i)[pos + x];
    }
  }

  lemma EndIsSize(v: Volume, i: Inode, pos: nat)
    requires NoHoles(v, i) && pos < i.size
    ensures ReadEnd(v, i, pos) == i.size
  {
    var h := FirstHole(v, i, pos / BLOCK);
    assert h < MAPPED ==> h * BLOCK >= i.size;
    assert h >= MAPPED ==> h * BLOCK >= MAPPED * BLOCK;
  }

  /** The effect of a successful write of `d` at `pos` to file `n`. */
  ghost predicate Written(
    g: Geometry, v: Volume, v': Volume, n: nat, others: map<nat, Inode>, owner: Owner, owner': Owner, pos: nat,
    d: seq<byte>)
    requires VolumeOk(g, v) && VolumeOk(g, v') && TablesOk(g) && InodeExists(g, n)
  {
    var i, i' := InodeOf(g, v, n), InodeOf(g, v', n);
    && MapOk(g, v', n, i', others, owner') && RecordsOk(g, v', others) && NoHoles(v', i') && OthersSame(v, v', others)
    && i.size <= MAPPED * BLOCK && pos <= i.size && Contents(v', i') == Overwrite(Contents(v, i), pos, d)
    && i' == i.(ptrs := i'.ptrs, size := |Contents(v', i')|, blocks := (|Contents(v', i')| + 511) / 512)
    && OwnerGrows(n, owner, owner') && Takes(g, v, owner, v', i', owner')
    && MapsOnly(v, i, v', i', pos / BLOCK, Places(pos + |d|))
    && forall b :: 0 <= b < |v| && (b !in owner' || owner'[b].0 != n) && b !in g.bitmaps && b != RecordPlace(g, n).0 ==>
      v'[b] == v[b]
  }

  /** A write that ran out of blocks: the inode is as before, and the file's bytes are
      overwritten up to where the write stopped; no place the write does not cover was mapped. */
  ghost predicate PartWritten(g: Geometry, v: Volume, v': Volume, n: nat, pos: nat, d: seq<byte>)
    requires VolumeOk(g, v) && VolumeOk(g, v') && TablesOk(g)
  {
    && InodeExists(g, n) && InodeOf(g, v', n) == InodeOf(g, v, n)
    && MapsOnly(v, InodeOf(g, v, n), v', InodeOf(g, v, n), pos / BLOCK, Places(pos + |d|))
    && Stopped(v, v', InodeOf(g, v, n), pos, d)
  }

  ghost predicate Stopped(v: Volume, v': Volume, i: Inode, pos: nat, d: seq<byte>)
  {
    && i.size <= MAPPED * BLOCK && pos <= i.size
    && exists t: nat :: t < |d| && Contents(v', i) == Overwrite(Contents(v, i), pos, d[..t])[..i.size]
  }

  lemma StoppedShort(v: Volume, i: Inode, v': Volume, i': Inode, pos: nat, d: seq<byte>, t: nat)
    requires |v'| == |v| && NoHoles(v, i) && pos <= i.size && t < |d| && MapKept(v, i, v', i')
    requires i.ptrs[12] != 0 ==> i.ptrs[12] < |v|
    requires Holds(v', i', Overwrite(Contents(v, i), pos, d[..t]))
    ensures Stopped(v, v', i, pos, d)
  {
    var s := Overwrite(Contents(v, i), pos, d[..t]);
    forall x | 0 <= x < i.size ensures ByteAt(v', i, x) == s[x] {
      OldPlace(v, i, v', i', x / BLOCK);
      assert ByteAt(v', i', x) == s[x];
    }
    assert Contents(v', i) == s[..i.size];
  }

  lemma GaveUp(g: Geometry, n: nat, v: Volume, i: Inode, owner: Owner, v': Volume, i': Inode, owner': Owner,
               others: map<nat, Inode>, pos: nat, d: seq<byte>, t: nat)
    requires MapOk(g, v, n, i, others, owner) && TablesOk(g) && InodeExists(g, n) && InodeOf(g, v, n) == i
    requires NoHoles(v, i) && pos <= i.size && t < |d| && MapKept(v, i, v', i')
    requires MapsOnly(v, i, v', i', pos / BLOCK, Places(pos + |d|))
    requires VolumeOk(g, v') && OwnedOk(g, v', owner') && Fs.Elsewhere(g, n, v, v', owner')
    requires Holds(v', i', Overwrite(Contents(v, i), pos, d[..t]))
    ensures PartWritten(g, v, v', n, pos, d)
  {
    TableUntouched(g, v, v', owner', n, n);
    assert BlockAt(v, i, MAPPED) == i.ptrs[12];
    StoppedShort(v, i, v', i', pos, d, t);
    OldMapsOnly(v, i, v', i', pos / BLOCK, Places(pos + |d|));
  }

  lemma OldMapsOnly(v: Volume, i: Inode, v': Volume, i': Inode, lo: nat, hi: nat)
    requires |v'| == |v| && MapKept(v, i, v', i') && MapsOnly(v, i, v', i', lo, hi)
    requires i.ptrs[12] != 0 ==> i.ptrs[12] < |v|
    ensures MapsOnly(v, i, v', i, lo, hi)
  {
    assert BlockAt(v, i, MAPPED) == i.ptrs[12] && BlockAt(v', i', MAPPED) == i'.ptrs[12];
  }

  /** The old inode still leads to the blocks it led to. */
  lemma OldPlace(v: Volume, i: Inode, v': Volume, i': Inode, k: nat)
    requires |v'| == |v| && k < MAPPED && BlockAt(v, i, k) != 0 && MapKept(v, i, v', i')
    requires i.ptrs[12] != 0 ==> i.ptrs[12] < |v|
    ensures BlockAt(v', i, k) == BlockAt(v', i', k)
  {
    if k >= DIRECT { assert BlockAt(v, i, MAPPED) == i.ptrs[12] && BlockAt(v', i', MAPPED) == i'.ptrs[12]; }
  }

  lemma Finish(g: Geometry, n: nat, v0: Volume, i: Inode, owner: Owner, v: Volume, i1: Inode, i2: Inode,
               others: map<nat, Inode>, owner': Owner, pos: nat, d: seq<byte>)
    requires VolumeOk(g, v0) && TablesOk(g) && InodeExists(g, n) && InodeOf(g, v0, n) == i && NoHoles(v0, i)
    requires pos <= i.size
    requires MapOk(g, v0, n, i, others, owner) && RecordsOk(g, v0, others)
    requires MapOk(g, v, n, i1, others, owner') && OwnerGrows(n, owner, owner') && i1 == i.(ptrs := i1.ptrs)
    requires Fs.Elsewhere(g, n, v0, v, owner') && OthersSame(v0, v, others)
    requires Holds(v, i1, Overwrite(Contents(v0, i), pos, d)) && Takes(g, v0, owner, v, i1, owner')
    requires MapsOnly(v0, i, v, i1, pos / BLOCK, Places(pos + |d|))
    requires i2 == i1.(size := i2.size, blocks := (i2.size + 511) / 512)
    requires i2.size == |Overwrite(Contents(v0, i), pos, d)|
    ensures Written(g, v0, StoreInode(g, v, n, i2), n, others, owner, owner', pos, d)
  {
    var s, v' := Overwrite(Contents(v0, i), pos, d), StoreInode(g, v, n, i2);
    forall m | m in others ensures InodeOf(g, v, m) == others[m] {
      TableUntouched(g, v0, v, owner', n, m);
    }
    RecordWritten(g, v, n, i1, i2, others, owner', s);
    assert Contents(v', i2) == s;
  }

  /** No inode record lies in a file's blocks or in a bitmap. */
  lemma TableUntouched(g: Geometry, v0: Volume, v: Volume, owner: Owner, n: nat, m: nat)
    requires VolumeOk(g, v0) && VolumeOk(g, v) && TablesOk(g) && InodeExists(g, m)
    requires OwnedOk(g, v, owner) && Fs.Elsewhere(g, n, v0, v, owner)
    ensures InodeOf(g, v, m) == InodeOf(g, v0, m)
  {
    var (b, off) := RecordPlace(g, m);
    assert v[b] == v0[b];
  }

  lemma SameBlock(at: nat, c: nat, x: nat)
    requires at % BLOCK + c <= BLOCK && at <= x < at + c
    ensures x / BLOCK == at / BLOCK && x % BLOCK == at % BLOCK + (x - at)
  {
  }
}
