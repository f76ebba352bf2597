/** A directory on the volume: the blocks of its inode hold the map, and growing it takes
    a block like any other file. */
module Ext2DirFile {
  import opened Wrappers
  import opened Bytes
  import opened Ext2Alloc
  import opened Ext2Inode
  import opened Ext2Map
  import opened Ext2File
  import opened Ext2Dir
  import opened Ext2Grown
  import opened Ext2Directory

  /** The directory bit of the mode, which the record starts with. */
  predicate IsDir(i: Inode) { i.head[1] / 0x40 % 2 == 1 }

  /** The directory bit is 0x4000 of the 16-bit mode. */
  lemma IsDirBit(i: Inode)
    ensures IsDir(i) <==> ReadLe16(i.head, 0) / 0x4000 % 2 == 1
  {
  }

  ghost predicate DirExists(g: Geometry, v: Volume, n: nat)
    requires VolumeOk(g, v) && TablesOk(g)
  {
    InodeExists(g, n) && IsDir(InodeOf(g, v, n))
  }

  /** Whole blocks, all mapped. */
  predicate DirMapped(v: Volume, i: Inode)
  {
    && i.size % BLOCK == 0 && i.size <= MAPPED * BLOCK
    && forall k :: 0 <= k < i.size / BLOCK ==> 0 < BlockAt(v, i, k) < |v|
  }

  /** The blocks of the directory, in order. */
  function DirBlocks(v: Volume, i: Inode): (blocks: seq<Block>)
    requires DirMapped(v, i)
    ensures |blocks| == i.size / BLOCK
  {
    seq(i.size / BLOCK, k requires 0 <= k < i.size / BLOCK => v[BlockAt(v, i, k)])
  }

  /** Inode `n` is a well-formed directory whose blocks are its own. */
  ghost predicate DirIn(g: Geometry, v: Volume, n: nat, others: map<nat, Inode>, owner: Owner)
  {
    && VolumeOk(g, v) && TablesOk(g) && InodeExists(g, n)
    && MapOk(g, v, n, InodeOf(g, v, n), others, owner) && RecordsOk(g, v, others)
    && DirMapped(v, InodeOf(g, v, n)) && IsDir(InodeOf(g, v, n))
  }

  ghost function BlocksOf(g: Geometry, v: Volume, n: nat): seq<Block>
    requires VolumeOk(g, v) && TablesOk(g) && InodeExists(g, n) && DirMapped(v, InodeOf(g, v, n))
  {
    DirBlocks(v, InodeOf(g, v, n))
  }

  /** A directory every block of which is exactly tiled, and that binds no name twice. */
  ghost predicate WellFormed(g: Geometry, v: Volume, n: nat, others: map<nat, Inode>, owner: Owner)
  {
    DirIn(g, v, n, others, owner) && DirOk(BlocksOf(g, v, n))
  }

  // ---- One block changes ------------------------------------------------

  /** Only blocks of file `n` changed: its inode, the bitmaps and everything else are as before. */
  ghost predicate OnlyBlocks(g: Geometry, n: nat, v: Volume, v': Volume, owner: Owner)
    requires VolumeOk(g, v) && VolumeOk(g, v') && TablesOk(g) && InodeExists(g, n)
  {
    && InodeOf(g, v', n) == InodeOf(g, v, n) && UsedBlocks(g, v') == UsedBlocks(g, v)
    && forall b :: 0 <= b < |v| && (b !in owner || owner[b].0 != n) ==> v'[b] == v[b]
  }

  /** Writing block `k` of the directory replaces that block of it, and changes nothing else. */
  lemma BlockWritten(
    g: Geometry, v: Volume, n: nat, others: map<nat, Inode>, owner: Owner, k: nat, data: Block)
    requires DirIn(g, v, n, others, owner) && k < InodeOf(g, v, n).size / BLOCK
    ensures var v' := v[BlockAt(v, InodeOf(g, v, n), k) := data];
      && DirIn(g, v', n, others, owner) && InodeOf(g, v', n) == InodeOf(g, v, n)
      && BlocksOf(g, v', n) == BlocksOf(g, v, n)[k := data] && OthersSame(v, v', others)
      && OnlyBlocks(g, n, v, v', owner)
  {
    var i := InodeOf(g, v, n);
    var b := BlockAt(v, i, k);
    var v' := v[b := data];
    DataWritten(g, v, n, i, others, owner, k, data);
    assert owner[b] == (n, k);
    forall m: nat | InodeExists(g, m) ensures InodeOf(g, v', m) == InodeOf(g, v, m) {
      TableUntouched(g, v, v', owner, n, m);
    }
    OthersRead(v, v', n, others, owner);
    SameUsedBlocks(g, v, v');
    PartsDiffer(v, i, n, owner, k);
    assert DirBlocks(v', i) == DirBlocks(v, i)[k := data];
  }

  /** Different places of the directory lead to different blocks. */
  lemma PartsDiffer(v: Volume, i: Inode, n: nat, owner: Owner, k: nat)
    requires DirMapped(v, i) && FileMapped(v, i, n, owner) && k < i.size / BLOCK
    ensures forall j :: 0 <= j < i.size / BLOCK && j != k ==> BlockAt(v, i, j) != BlockAt(v, i, k)
  {
    forall j | 0 <= j < i.size / BLOCK && j != k ensures BlockAt(v, i, j) != BlockAt(v, i, k) {
      assert owner[BlockAt(v, i, j)] == (n, j) && owner[BlockAt(v, i, k)] == (n, k);
    }
  }

  // ---- Finding ----------------------------------------------------------

  /** The loop over the blocks: which block holds the name, and where in it. */
  method Find(fs: Fs, n: nat, i: Inode, name: Name, ghost others: map<nat, Inode>, ghost owner: Owner)
    returns (k: nat, f: Found)
    requires fs.Valid() && DirIn(fs.store.g, fs.store.v, n, others, owner) && i == InodeOf(fs.store.g, fs.store.v, n)
    requires DirOk(DirBlocks(fs.store.v, i))
    ensures f.Absent? <==> name !in DirMap(DirBlocks(fs.store.v, i))
    ensures f.Found? ==>
      && k < i.size / BLOCK && FoundAt(DirBlocks(fs.store.v, i)[k], name, f)
      && name in Bindings(DirBlocks(fs.store.v, i)[k], 0)
      && DirMap(DirBlocks(fs.store.v, i))[name] == Ino(DirBlocks(fs.store.v, i)[k], f.off)
  {
    ghost var blocks := DirBlocks(fs.store.v, i);
    k := 0;
    while k < i.size / BLOCK
      invariant k <= |blocks| && forall j :: 0 <= j < k ==> name !in Bindings(blocks[j], 0)
    {
      var b := BlockOf(fs, n, i, k, others, owner);
      f := FindRecord(fs.store.v[b], name);
      if f.Found? {
        FoundEntry(blocks, k, name, f);
        return;
      }
      k := k + 1;
    }
    NotFound(blocks, name);
    f := Absent;
  }

  /** Block `k` of the directory, read through the inode's map. */
  method BlockOf(fs: Fs, n: nat, i: Inode, k: nat, ghost others: map<nat, Inode>, ghost owner: Owner) returns (b: nat)
    requires fs.Valid() && DirIn(fs.store.g, fs.store.v, n, others, owner) && i == InodeOf(fs.store.g, fs.store.v, n)
    requires k < i.size / BLOCK
    ensures b == BlockAt(fs.store.v, i, k) && 0 < b < |fs.store.v| && fs.store.v[b] == DirBlocks(fs.store.v, i)[k]
  {
    assert BlockAt(fs.store.v, i, MAPPED) == i.ptrs[12];
    b := fs.FindBlock(i, k);
  }

  /** dir_lookup on inode `n`. */
  method Lookup(fs: Fs, n: nat, name: Name, ghost others: map<nat, Inode>, ghost owner: Owner)
    returns (r: Option<u32>)
    requires fs.Valid()
    requires DirExists(fs.store.g, fs.store.v, n) ==> WellFormed(fs.store.g, fs.store.v, n, others, owner)
    ensures !DirExists(fs.store.g, fs.store.v, n) ==> r == None
    ensures DirExists(fs.store.g, fs.store.v, n) ==>
      var d := DirMap(BlocksOf(fs.store.g, fs.store.v, n));
      r == if name in d then Some(d[name]) else None
  {
    var ok, i := fs.ReadInode(n);
    if !ok || !IsDir(i) { return None; }
    var k, f := Find(fs, n, i, name, others, owner);
    if f.Absent? { return None; }
    var b := BlockOf(fs, n, i, k, others, owner);
    r := Some(Ino(fs.store.v[b], f.off));
  }

  /** dir_remove_entry on inode `n`: the map loses the name, and nothing but the directory's
      blocks changes. */
  method Remove(fs: Fs, n: nat, name: Name, ghost others: map<nat, Inode>, ghost owner: Owner) returns (ok: bool)
    requires fs.Valid()
    requires DirExists(fs.store.g, fs.store.v, n) ==> WellFormed(fs.store.g, fs.store.v, n, others, owner)
    modifies fs.store
    ensures fs.Valid() && OthersSame(old(fs.store.v), fs.store.v, others)
    ensures !DirExists(fs.store.g, old(fs.store.v), n) ==> !ok && fs.store.v == old(fs.store.v)
    ensures DirExists(fs.store.g, old(fs.store.v), n) ==>
      && WellFormed(fs.store.g, fs.store.v, n, others, owner)
      && OnlyBlocks(fs.store.g, n, old(fs.store.v), fs.store.v, owner)
      && var d := DirMap(BlocksOf(fs.store.g, old(fs.store.v), n));
         ok == (name in d) && DirMap(BlocksOf(fs.store.g, fs.store.v, n)) == d - {name}
  {
    var i;
    ok, i := fs.ReadInode(n);
    if !ok || !IsDir(i) { return false; }
    ok := RemoveFrom(fs, n, i, name, others, owner);
  }

  method RemoveFrom(
    fs: Fs, n: nat, i: Inode, name: Name, ghost others: map<nat, Inode>, ghost owner: Owner) returns (ok: bool)
    requires fs.Valid() && WellFormed(fs.store.g, fs.store.v, n, others, owner)
    requires i == InodeOf(fs.store.g, fs.store.v, n)
    modifies fs.store
    ensures fs.Valid() && WellFormed(fs.store.g, fs.store.v, n, others, owner)
    ensures OthersSame(old(fs.store.v), fs.store.v, others)
    ensures OnlyBlocks(fs.store.g, n, old(fs.store.v), fs.store.v, owner)
    ensures var d := DirMap(BlocksOf(fs.store.g, old(fs.store.v), n));
      ok == (name in d) && DirMap(BlocksOf(fs.store.g, fs.store.v, n)) == d - {name}
  {
    var k, f := Find(fs, n, i, name, others, owner);
    ghost var blocks := DirBlocks(fs.store.v, i);
    ok := f.Found?;
    if ok {
      var b := BlockOf(fs, n, i, k, others, owner);
      var data := RemoveAt(fs.store.v[b], name, f);
      RemovedFromBlock(blocks, k, data, name);
      BlockWritten(fs.store.g, fs.store.v, n, others, owner, k, data);
      fs.store.v := fs.store.v[b := data];
    } else {
      assert DirMap(blocks) == DirMap(blocks) - {name};
    }
  }

  // ---- Growing ----------------------------------------------------------

  /** A block has been mapped behind the directory's last: what was there before stays. */
  lemma MappedBehind(
    g: Geometry, v: Volume, n: nat, others: map<nat, Inode>, owner: Owner, v': Volume, i': Inode, owner': Owner)
    requires DirIn(g, v, n, others, owner) && MapOk(g, v', n, i', others, owner')
    requires Grows(g, n, v, InodeOf(g, v, n), owner, v', i', owner')
    ensures RecordsOk(g, v', others) && InodeOf(g, v', n) == InodeOf(g, v, n) && OthersSame(v, v', others)
    ensures DirMapped(v', i') && DirBlocks(v', i') == DirBlocks(v, InodeOf(g, v, n))
  {
    var i := InodeOf(g, v, n);
    assert Fs.Elsewhere(g, n, v, v', owner');
    forall m: nat | InodeExists(g, m) ensures InodeOf(g, v', m) == InodeOf(g, v, m) {
      TableUntouched(g, v, v', owner', n, m);
    }
    OthersRead(v, v', n, others, owner);
    forall k | 0 <= k < i.size / BLOCK
      ensures BlockAt(v', i', k) == BlockAt(v, i, k) && v'[BlockAt(v, i, k)] == v[BlockAt(v, i, k)]
    {
      assert owner[BlockAt(v, i, k)] == (n, k);
    }
  }

  /** If none could be had, the inode on the volume still has the directory. */
  lemma NothingMapped(
    g: Geometry, v: Volume, n: nat, others: map<nat, Inode>, owner: Owner, v': Volume, i': Inode, owner': Owner)
    requires DirIn(g, v, n, others, owner) && MapOk(g, v', n, i', others, owner')
    requires Grows(g, n, v, InodeOf(g, v, n), owner, v', i', owner')
    ensures DirIn(g, v', n, others, owner') && BlocksOf(g, v', n) == BlocksOf(g, v, n) && OthersSame(v, v', others)
  {
    var i := InodeOf(g, v, n);
    MappedBehind(g, v, n, others, owner, v', i', owner');
    assert BlockAt(v, i, MAPPED) == i.ptrs[12] && BlockAt(v', i', MAPPED) == i'.ptrs[12];
    OldMapKept(v, i, n, owner, v', i', owner');
    forall k | 0 <= k < i.size / BLOCK ensures BlockAt(v', i, k) == BlockAt(v', i', k) { OldPlace(v, i, v', i', k); }
  }

  lemma OldMapKept(v: Volume, i: Inode, n: nat, owner: Owner, v': Volume, i': Inode, owner': Owner)
    requires |v'| == |v| && MapKept(v, i, v', i') && FileMapped(v, i, n, owner) && FileMapped(v', i', n, owner')
    requires (i.ptrs[12] != 0 ==> i.ptrs[12] < |v|) && forall b :: b in owner ==> b in owner' && owner'[b] == owner[b]
    ensures FileMapped(v', i, n, owner')
  {
    assert BlockAt(v, i, MAPPED) == i.ptrs[12] && BlockAt(v', i', MAPPED) == i'.ptrs[12];
    forall k | 0 <= k <= MAPPED && BlockAt(v', i, k) != 0
      ensures BlockAt(v', i, k) in owner' && owner'[BlockAt(v', i, k)] == (n, k)
    {
      if DIRECT <= k < MAPPED { assert BlockAt(v', i, k) == BlockAt(v', i', k); }
      else { assert BlockAt(v', i, k) == BlockAt(v, i, k); }
    }
  }

  /** The first `count` places of the map lead to these blocks. */
  ghost predicate Leads(v: Volume, i: Inode, blocks: seq<Block>)
  {
    |blocks| <= MAPPED &&
    forall k :: 0 <= k < |blocks| ==> 0 < BlockAt(v, i, k) < |v| && v[BlockAt(v, i, k)] == blocks[k]
  }

  /** The block behind the last written: one more place leads where it should. */
  lemma DataBehind(
    g: Geometry, v: Volume, n: nat, i: Inode, others: map<nat, Inode>, owner: Owner, blocks: seq<Block>, data: Block)
    requires VolumeOk(g, v) && TablesOk(g) && InodeExists(g, n)
    requires MapOk(g, v, n, i, others, owner) && RecordsOk(g, v, others) && Leads(v, i, blocks)
    requires |blocks| < MAPPED && BlockAt(v, i, |blocks|) != 0
    ensures BlockAt(v, i, |blocks|) < |v|
    ensures var v1 := v[BlockAt(v, i, |blocks|) := data];
      && MapOk(g, v1, n, i, others, owner) && RecordsOk(g, v1, others) && OthersSame(v, v1, others)
      && Leads(v1, i, blocks + [data]) && UsedBlocks(g, v1) == UsedBlocks(g, v)
      && forall k :: 0 <= k <= MAPPED ==> BlockAt(v1, i, k) == BlockAt(v, i, k)
  {
    var b := BlockAt(v, i, |blocks|);
    var v1 := v[b := data];
    DataWritten(g, v, n, i, others, owner, |blocks|, data);
    SameUsedBlocks(g, v, v1);
    assert owner[b] == (n, |blocks|);
    forall m: nat | InodeExists(g, m) ensures InodeOf(g, v1, m) == InodeOf(g, v, m) {
      TableUntouched(g, v, v1, owner, n, m);
    }
    OthersRead(v, v1, n, others, owner);
    forall k | 0 <= k < |blocks| ensures BlockAt(v, i, k) != b { assert owner[BlockAt(v, i, k)] == (n, k); }
  }

  /** The stored inode has the same map, and nothing but its record was written. */
  ghost predicate Resized(g: Geometry, n: nat, v: Volume, i: Inode, v': Volume, i': Inode)
    requires VolumeOk(g, v) && VolumeOk(g, v') && TablesOk(g) && InodeExists(g, n)
  {
    && UsedBlocks(g, v') == UsedBlocks(g, v)
    && (forall k :: 0 <= k <= MAPPED ==> BlockAt(v', i', k) == BlockAt(v, i, k))
    && forall b :: 0 <= b < |v| && b != RecordPlace(g, n).0 ==> v'[b] == v[b]
  }

  /** Storing the inode with its new size leaves the blocks as they are. */
  lemma SizeStored(
    g: Geometry, v: Volume, n: nat, i: Inode, others: map<nat, Inode>, owner: Owner, blocks: seq<Block>, i': Inode)
    requires VolumeOk(g, v) && TablesOk(g) && InodeExists(g, n)
    requires MapOk(g, v, n, i, others, owner) && RecordsOk(g, v, others) && Leads(v, i, blocks)
    requires i'.ptrs == i.ptrs && i'.size == |blocks| * BLOCK && IsDir(i')
    ensures var v' := StoreInode(g, v, n, i');
      && DirIn(g, v', n, others, owner) && InodeOf(g, v', n) == i' && OthersSame(v, v', others)
      && DirBlocks(v', i') == blocks && Resized(g, n, v, i, v', i')
  {
    RecordWritten(g, v, n, i, i', others, owner, []);
    var v' := StoreInode(g, v, n, i');
    forall k | 0 <= k < |blocks| ensures 0 < BlockAt(v', i', k) < |v'| && v'[BlockAt(v', i', k)] == blocks[k] {
      assert owner[BlockAt(v, i, k)] == (n, k) && BlockAt(v, i, k) !in g.reserved;
    }
    assert i'.size / BLOCK == |blocks|;
  }

  /** The new block written and the size stored: the directory is one block longer. */
  lemma GrownByOne(
    g: Geometry, v: Volume, n: nat, i: Inode, others: map<nat, Inode>, owner: Owner, data: Block, i': Inode)
    requires VolumeOk(g, v) && TablesOk(g) && InodeExists(g, n)
    requires MapOk(g, v, n, i, others, owner) && RecordsOk(g, v, others) && DirMapped(v, i) && IsDir(i)
    requires i.size / BLOCK < MAPPED && BlockAt(v, i, i.size / BLOCK) != 0
    requires i' == i.(size := i.size + BLOCK)
    ensures BlockAt(v, i, i.size / BLOCK) < |v|
    ensures var v' := StoreInode(g, v[BlockAt(v, i, i.size / BLOCK) := data], n, i');
      && DirIn(g, v', n, others, owner) && InodeOf(g, v', n) == i'
      && DirBlocks(v', i') == DirBlocks(v, i) + [data] && OthersSame(v, v', others)
      && Stored(g, n, v, i, v', owner)
  {
    var blocks := DirBlocks(v, i);
    DataBehind(g, v, n, i, others, owner, blocks, data);
    var v1 := v[BlockAt(v, i, |blocks|) := data];
    SizeStored(g, v1, n, i, others, owner, blocks + [data], i');
  }

  // ---- Adding -----------------------------------------------------------

  /** The block behind the directory's last, if one is mapped there or can be had, as it is
      before the directory grows into it. */
  ghost function Behind(g: Geometry, v: Volume, n: nat): Option<Block>
    requires VolumeOk(g, v) && TablesOk(g) && InodeExists(g, n)
  {
    var i := InodeOf(g, v, n);
    var b := Yields(g, v, i, i.size / BLOCK);
    if 0 < b < |v| then Some(v[b]) else None
  }

  /** dir_add_entry on inode `n`: into the first record with room, or into the block behind
      the last. */
  method Add(
    fs: Fs, n: nat, name: Name, ino: u32, kind: byte, ghost others: map<nat, Inode>, ghost owner: Owner)
    returns (ok: bool, ghost owner': Owner)
    requires fs.Valid() && NameOk(name) && ino != 0
    requires DirExists(fs.store.g, fs.store.v, n) ==>
      && WellFormed(fs.store.g, fs.store.v, n, others, owner)
      && name !in DirMap(BlocksOf(fs.store.g, fs.store.v, n))
    modifies fs.store
    ensures fs.Valid() && OthersSame(old(fs.store.v), fs.store.v, others)
    ensures !DirExists(fs.store.g, old(fs.store.v), n) ==> !ok && fs.store.v == old(fs.store.v)
    ensures DirExists(fs.store.g, old(fs.store.v), n) ==>
      && DirIn(fs.store.g, fs.store.v, n, others, owner')
      && var blocks, blocks' := BlocksOf(fs.store.g, old(fs.store.v), n), BlocksOf(fs.store.g, fs.store.v, n);
      && AddResult(blocks, blocks', name, ino, kind, ok, Behind(fs.store.g, old(fs.store.v), n))
      && (HasFirstRoom(blocks, name) ==>
           owner' == owner && OnlyBlocks(fs.store.g, n, old(fs.store.v), fs.store.v, owner))
      && (ok && !HasFirstRoom(blocks, name) ==>
           GrownFile(fs.store.g, n, old(fs.store.v), owner, fs.store.v, owner'))
      && (!ok ==> |blocks| == MAPPED || VolumeFull(fs.store.g, fs.store.v))
      && (!ok ==> InodeOf(fs.store.g, fs.store.v, n) == InodeOf(fs.store.g, old(fs.store.v), n))
  {
    var i;
    owner' := owner;
    ok, i := fs.ReadInode(n);
    if !ok || !IsDir(i) { return false, owner; }
    var place := FindPlace(fs, n, i, name, others, owner);
    match place
    case Some((k, off)) =>
      PlaceAt(fs, n, i, k, off, name, ino, kind, others, owner);
      ok := true;
    case None =>
      ok, owner' := Grow(fs, n, i, name, ino, kind, others, owner);
  }

  /** What adding a name makes of the directory's blocks, `behind` being the old contents of
      the block it can grow into: it succeeds if and only if a record has room or there is
      such a block, and makes the intended directory if and only if that is sound. */
  ghost predicate AddResult(
    blocks: seq<Block>, blocks': seq<Block>, name: Name, ino: u32, kind: byte, ok: bool, behind: Option<Block>)
    requires AllTiled(blocks) && NameOk(name)
  {
    && (ok <==> HasFirstRoom(blocks, name) || behind.Some?)
    && (ok ==> (Intended(blocks, blocks', name, ino) <==> Sound(blocks, behind, name, ino)))
    && (HasFirstRoom(blocks, name) ==> Placed(blocks, blocks', name, ino, kind) && AllTiled(blocks'))
    && (ok && !HasFirstRoom(blocks, name) ==> blocks' == blocks + [Grown(behind.value, name, ino, kind)])
    && (!ok ==> blocks' == blocks)
  }

  /** The first record with room was split for the name. */
  ghost predicate Placed(blocks: seq<Block>, blocks': seq<Block>, name: Name, ino: u32, kind: byte)
    requires NameOk(name)
  {
    exists k: nat, o: nat ::
      FirstRoom(blocks, name, k, o) && blocks' == blocks[k := Added(blocks[k], o, name, ino, kind)]
  }

  /** The directory's inode is one block longer, and nothing was mapped but the place behind
      its last block, and the indirect block if that place needs it. */
  ghost predicate GrownFile(g: Geometry, n: nat, v: Volume, owner: Owner, v': Volume, owner': Owner)
    requires VolumeOk(g, v) && VolumeOk(g, v') && TablesOk(g) && InodeExists(g, n)
  {
    var i, i' := InodeOf(g, v, n), InodeOf(g, v', n);
    var k := i.size / BLOCK;
    && i' == i.(ptrs := i'.ptrs, size := i'.size) && i'.size == i.size + BLOCK
    && k < MAPPED && BlockAt(v', i', k) == Yields(g, v, i, k) != 0 && MapsOnly(v, i, v', i', k, k + 1)
    && OwnerGrows(n, owner, owner') && Takes(g, v, owner, v', i', owner')
    && forall b :: 0 <= b < |v| && (b !in owner' || owner'[b].0 != n) && b !in g.bitmaps && b != RecordPlace(g, n).0 ==>
      v'[b] == v[b]
  }

  /** The loop over the blocks: the first record with room. */
  method FindPlace(fs: Fs, n: nat, i: Inode, name: Name, ghost others: map<nat, Inode>, ghost owner: Owner)
    returns (place: Option<(nat, nat)>)
    requires fs.Valid() && DirIn(fs.store.g, fs.store.v, n, others, owner) && i == InodeOf(fs.store.g, fs.store.v, n)
    requires DirOk(DirBlocks(fs.store.v, i))
    ensures place.Some? ==> FirstRoom(DirBlocks(fs.store.v, i), name, place.value.0, place.value.1)
    ensures place.None? ==> !HasFirstRoom(DirBlocks(fs.store.v, i), name)
  {
    ghost var blocks := DirBlocks(fs.store.v, i);
    var k: nat := 0;
    while k < i.size / BLOCK
      invariant k <= |blocks|
      invariant forall j, o: nat :: 0 <= j < k && Reaches(blocks[j], 0, o) ==> !HasRoom(blocks[j], o, name)
    {
      var b := BlockOf(fs, n, i, k, others, owner);
      var at := FindRoom(fs.store.v[b], name);
      RoomInTiled(blocks[k], 0, name);
      if at.Some? { return Some((k, at.value)); }
      k := k + 1;
    }
    place := None;
  }

  method PlaceAt(
    fs: Fs, n: nat, i: Inode, k: nat, off: nat, name: Name, ino: u32, kind: byte,
    ghost others: map<nat, Inode>, ghost owner: Owner)
    requires fs.Valid() && DirIn(fs.store.g, fs.store.v, n, others, owner) && i == InodeOf(fs.store.g, fs.store.v, n)
    requires DirOk(DirBlocks(fs.store.v, i)) && NameOk(name) && ino != 0 && name !in DirMap(DirBlocks(fs.store.v, i))
    requires FirstRoom(DirBlocks(fs.store.v, i), name, k, off)
    modifies fs.store
    ensures fs.Valid() && DirIn(fs.store.g, fs.store.v, n, others, owner)
    ensures OthersSame(old(fs.store.v), fs.store.v, others)
    ensures OnlyBlocks(fs.store.g, n, old(fs.store.v), fs.store.v, owner)
    ensures var blocks, blocks' := DirBlocks(old(fs.store.v), i), BlocksOf(fs.store.g, fs.store.v, n);
      && (Intended(blocks, blocks', name, ino) <==> !FillsBefore(blocks, name))
      && Placed(blocks, blocks', name, ino, kind) && AllTiled(blocks')
  {
    ghost var blocks := DirBlocks(fs.store.v, i);
    var b := BlockOf(fs, n, i, k, others, owner);
    var data := Split(blocks, k, fs.store.v[b], off, name, ino, kind);
    BlockWritten(fs.store.g, fs.store.v, n, others, owner, k, data);
    fs.store.v := fs.store.v[b := data];
  }

  /** The patched block, and what it makes of the directory. */
  method Split(ghost blocks: seq<Block>, ghost k: nat, b: Block, off: nat, name: Name, ino: u32, kind: byte)
    returns (data: Block)
    requires DirOk(blocks) && NameOk(name) && ino != 0 && name !in DirMap(blocks)
    requires FirstRoom(blocks, name, k, off) && b == blocks[k]
    ensures Intended(blocks, blocks[k := data], name, ino) <==> !FillsBefore(blocks, name)
    ensures Placed(blocks, blocks[k := data], name, ino, kind) && AllTiled(blocks[k := data])
  {
    CombinedHas(Parts(blocks), name);
    assert Parts(blocks)[k] == Bindings(blocks[k], 0);
    data := AddAt(b, off, name, ino, kind);
    PlacedIn(blocks, k, off, data, name, ino, kind);
  }

  /** Record `off` of block `k`, the first with room, was split. */
  lemma PlacedIn(blocks: seq<Block>, k: nat, off: nat, data: Block, name: Name, ino: u32, kind: byte)
    requires DirOk(blocks) && FirstRoom(blocks, name, k, off) && name !in DirMap(blocks) && NameOk(name) && ino != 0
    requires Tiled(data, 0) && data == Added(blocks[k], off, name, ino, kind)
    requires !Clobbers(blocks[k], off, name) ==>
      Unique(data, 0) && Bindings(data, 0) == Bindings(blocks[k], 0)[name := ino]
    requires Clobbers(blocks[k], off, name) ==> Misdirected(blocks[k], data, name)
    ensures Intended(blocks, blocks[k := data], name, ino) <==> !FillsBefore(blocks, name)
    ensures Placed(blocks, blocks[k := data], name, ino, kind) && AllTiled(blocks[k := data])
  {
    FirstRoomUnique(blocks, name, k, off);
    if Clobbers(blocks[k], off, name) {
      DamagedInBlock(blocks, k, data, name, ino);
    } else {
      BoundInBlock(blocks, k, data, name, ino);
    }
  }

  method Grow(
    fs: Fs, n: nat, i: Inode, name: Name, ino: u32, kind: byte, ghost others: map<nat, Inode>, ghost owner: Owner)
    returns (ok: bool, ghost owner': Owner)
    requires fs.Valid() && DirIn(fs.store.g, fs.store.v, n, others, owner) && i == InodeOf(fs.store.g, fs.store.v, n)
    requires DirOk(DirBlocks(fs.store.v, i)) && NameOk(name) && ino != 0 && name !in DirMap(DirBlocks(fs.store.v, i))
    modifies fs.store
    ensures fs.Valid() && DirIn(fs.store.g, fs.store.v, n, others, owner')
    ensures OthersSame(old(fs.store.v), fs.store.v, others)
    ensures ok == Behind(fs.store.g, old(fs.store.v), n).Some?
    ensures ok ==> GrownFile(fs.store.g, n, old(fs.store.v), owner, fs.store.v, owner')
    ensures !ok ==> InodeOf(fs.store.g, fs.store.v, n) == i
    ensures var blocks, blocks' := DirBlocks(old(fs.store.v), i), BlocksOf(fs.store.g, fs.store.v, n);
      if ok then
        var was := Behind(fs.store.g, old(fs.store.v), n).value;
        && blocks' == blocks + [Grown(was, name, ino, kind)]
        && (Intended(blocks, blocks', name, ino) <==> Harmless(was, name, ino))
      else
        blocks' == blocks && (|blocks| == MAPPED || VolumeFull(fs.store.g, fs.store.v))
  {
    ghost var g, v0 := fs.store.g, fs.store.v;
    var i1, b;
    i1, b, owner' := fs.MapBlock(n, i, i.size / BLOCK, others, owner);
    ghost var v1 := fs.store.v;
    MappedBehind(g, v0, n, others, owner, v1, i1, owner');
    ok := b != 0;
    if !ok {
      NothingMapped(g, v0, n, others, owner, v1, i1, owner');
      return;
    }
    assert v1[b] == v0[b];
    WriteGrown(fs, n, i1, b, name, ino, kind, others, owner');
    StoredGrown(g, n, v0, owner, v1, i1, owner', fs.store.v);
  }

  /** What mapping the place made of the volume, and storing the block and the inode then. */
  lemma StoredGrown(
    g: Geometry, n: nat, v: Volume, owner: Owner, v1: Volume, i1: Inode, owner': Owner, v': Volume)
    requires VolumeOk(g, v) && VolumeOk(g, v1) && VolumeOk(g, v') && TablesOk(g) && InodeExists(g, n)
    requires var i := InodeOf(g, v, n);
      && i.size / BLOCK < MAPPED && Grows(g, n, v, i, owner, v1, i1, owner') && Takes(g, v, owner, v1, i1, owner')
      && MapsOnly(v, i, v1, i1, i.size / BLOCK, i.size / BLOCK + 1)
      && BlockAt(v1, i1, i.size / BLOCK) == Yields(g, v, i, i.size / BLOCK) != 0
    requires Stored(g, n, v1, i1, v', owner')
    ensures GrownFile(g, n, v, owner, v', owner')
  {
  }

  /** The inode on the volume is `i` with one block more, and only it and blocks of the file
      were written. */
  ghost predicate Stored(g: Geometry, n: nat, v: Volume, i: Inode, v': Volume, owner: Owner)
    requires VolumeOk(g, v) && VolumeOk(g, v') && TablesOk(g) && InodeExists(g, n)
  {
    var i' := InodeOf(g, v', n);
    && i' == i.(size := i'.size) && i'.size == i.size + BLOCK && UsedBlocks(g, v') == UsedBlocks(g, v)
    && (forall k :: 0 <= k <= MAPPED ==> BlockAt(v', i', k) == BlockAt(v, i, k))
    && forall b :: 0 <= b < |v| && (b !in owner || owner[b].0 != n) && b != RecordPlace(g, n).0 ==> v'[b] == v[b]
  }

  /** The block mapped behind the last gets the name, and the inode its new size. */
  method WriteGrown(
    fs: Fs, n: nat, i: Inode, b: nat, name: Name, ino: u32, kind: byte, ghost others: map<nat, Inode>,
    ghost owner: Owner)
    requires fs.Valid() && InodeExists(fs.store.g, n) && MapOk(fs.store.g, fs.store.v, n, i, others, owner)
    requires RecordsOk(fs.store.g, fs.store.v, others) && DirMapped(fs.store.v, i) && IsDir(i)
    requires i.size / BLOCK < MAPPED && b == BlockAt(fs.store.v, i, i.size / BLOCK) != 0 && b < |fs.store.v|
    requires DirOk(DirBlocks(fs.store.v, i)) && NameOk(name) && ino != 0 && name !in DirMap(DirBlocks(fs.store.v, i))
    modifies fs.store
    ensures fs.Valid() && DirIn(fs.store.g, fs.store.v, n, others, owner)
    ensures OthersSame(old(fs.store.v), fs.store.v, others)
    ensures Stored(fs.store.g, n, old(fs.store.v), i, fs.store.v, owner)
    ensures var blocks, blocks' := DirBlocks(old(fs.store.v), i), BlocksOf(fs.store.g, fs.store.v, n);
      && blocks' == blocks + [Grown(old(fs.store.v)[b], name, ino, kind)]
      && (Intended(blocks, blocks', name, ino) <==> Harmless(old(fs.store.v)[b], name, ino))
  {
    ghost var blocks := DirBlocks(fs.store.v, i);
    var data := GrownData(fs.store.v[b], name, ino, kind);
    GrownBindsIff(fs.store.v[b], name, ino, kind);
    LastBlockIff(blocks, data, name, ino);
    var i' := i.(size := i.size + BLOCK);
    GrownByOne(fs.store.g, fs.store.v, n, i, others, owner, data, i');
    fs.store.v := fs.store.v[b := data];
    var _ := fs.WriteInode(n, i');
  }

  method GrownData(b: Block, name: Name, ino: u32, kind: byte) returns (data: Block)
    requires |name| <= 255
    ensures data == Grown(b, name, ino, kind)
  {
    var at := FindRoom(b, name);
    data := Single(name, ino, kind);
    if at.Some? { data := Added(b, at.value, name, ino, kind); }
  }
}
