/** Inodes: their 128-byte records in the inode table, and the direct and
    single-indirect block map. */
module Ext2Inode {
  import opened Bytes
  import opened Ext2Alloc

  const RECORD: nat := 128
  const DIRECT: nat := 12
  const PTRS: nat := 256
  /** File blocks are numbered below 268; 268 itself stands for the indirect block. */
  const MAPPED: nat := 268

  /** The record's fields; the ones this code never interprets are kept as bytes. */
  datatype InodeRecord = InodeRecord(
    head: seq<byte>, size: u32, times: seq<byte>, blocks: u32, flags: seq<byte>, ptrs: seq<u32>, tail: seq<byte>)

  predicate RecordOk(i: InodeRecord)
  {
    |i.head| == 4 && |i.times| == 20 && |i.flags| == 8 && |i.ptrs| == 15 && |i.tail| == 28
  }

  type Inode = i: InodeRecord | RecordOk(i)
    witness InodeRecord(seq(4, _ => 0), 0, seq(20, _ => 0), 0, seq(8, _ => 0), seq(15, _ => 0), seq(28, _ => 0))

  function EncodePtrs(p: seq<u32>): (r: seq<byte>)
    ensures |r| == 4 * |p|
    ensures forall i :: 0 <= i < |p| ==> r[4 * i..4 * i + 4] == Le32(p[i])
  {
    if p == [] then [] else EncodePtrs(p[..|p| - 1]) + Le32(p[|p| - 1])
  }

  function Encode(i: Inode): (r: seq<byte>)
    ensures |r| == RECORD
  {
    i.head + Le32(i.size) + i.times + Le32(i.blocks) + i.flags + EncodePtrs(i.ptrs) + i.tail
  }

  function Decode(r: seq<byte>): Inode
    requires |r| == RECORD
  {
    InodeRecord(r[0..4], ReadLe32(r, 4), r[8..28], ReadLe32(r, 28), r[32..40],
                seq(15, k requires 0 <= k < 15 => ReadLe32(r, 40 + 4 * k)), r[100..128])
  }

  /** Where the fields of the on-disk record are. */
  lemma RecordFields(i: Inode, k: nat)
    requires k < 15
    ensures var r := Encode(i);
      && r[0..4] == i.head && ReadLe32(r, 4) == i.size && ReadLe32(r, 28) == i.blocks
      && ReadLe32(r, 40 + 4 * k) == i.ptrs[k]
  {
    var r := Encode(i);
    RecordRoundTrip(i);
    assert Decode(r).size == ReadLe32(r, 4) && Decode(r).ptrs[k] == ReadLe32(r, 40 + 4 * k);
  }

  /** Records of one group follow each other at the inode size, from the start of its table. */
  lemma RecordsInOrder(g: Geometry, n: nat, group: nat, index: nat)
    requires g.inodesPerGroup > 0 && InodeExists(g, n) && group < |g.tables| && index < g.inodesPerGroup
    requires n == group * g.inodesPerGroup + index + 1
    ensures (n - 1) / g.inodesPerGroup < |g.tables|
    ensures RecordPlace(g, n).0 * BLOCK + RecordPlace(g, n).1 == g.tables[group] * BLOCK + index * g.inodeSize
  {
    GroupUnique(g.inodesPerGroup, group, index);
  }

  lemma RecordRoundTrip(i: Inode)
    ensures Decode(Encode(i)) == i
  {
    var r := Encode(i);
    assert r[0..4] == i.head;
    assert r[4..8] == Le32(i.size);
    assert r[8..28] == i.times;
    assert r[28..32] == Le32(i.blocks);
    assert r[32..40] == i.flags;
    assert r[40..100] == EncodePtrs(i.ptrs);
    TailOf(i.head + Le32(i.size) + i.times + Le32(i.blocks) + i.flags + EncodePtrs(i.ptrs), i.tail, r);
    FieldRoundTrip32(r, 4, i.size);
    FieldRoundTrip32(r, 28, i.blocks);
    forall k | 0 <= k < 15 ensures ReadLe32(r, 40 + 4 * k) == i.ptrs[k] {
      assert r[40 + 4 * k..44 + 4 * k] == r[40..100][4 * k..4 * k + 4];
      FieldRoundTrip32(r, 40 + 4 * k, i.ptrs[k]);
    }
    assert Decode(r).ptrs == i.ptrs;
  }

  // ---- Inode table -----------------------------------------------------

  predicate InodeExists(g: Geometry, n: nat) { 0 < n <= g.totalInodes }

  /** Block and offset of inode `n`'s record. */
  function RecordPlace(g: Geometry, n: nat): (nat, nat)
    requires g.inodesPerGroup > 0 && InodeExists(g, n) && (n - 1) / g.inodesPerGroup < |g.tables|
  {
    var at := (n - 1) % g.inodesPerGroup * g.inodeSize;
    (g.tables[(n - 1) / g.inodesPerGroup] + at / BLOCK, at % BLOCK)
  }

  /** Records lie inside reserved table blocks that are no bitmaps, and never overlap. */
  ghost predicate TablesOk(g: Geometry)
  {
    && g.inodesPerGroup > 0
    && (forall n: nat :: InodeExists(g, n) ==> (n - 1) / g.inodesPerGroup < |g.tables|)
    && (forall n: nat :: InodeExists(g, n) ==>
          var (b, off) := RecordPlace(g, n);
          b < g.total && b in g.reserved && b !in g.bitmaps && off + RECORD <= BLOCK)
    && (forall n: nat, m: nat :: InodeExists(g, n) && InodeExists(g, m) && n != m ==>
          var (b, off) := RecordPlace(g, n);
          var (c, off') := RecordPlace(g, m);
          b != c || off + RECORD <= off' || off' + RECORD <= off)
  }

  ghost function InodeOf(g: Geometry, v: Volume, n: nat): Inode
    requires VolumeOk(g, v) && TablesOk(g) && InodeExists(g, n)
  {
    var (b, off) := RecordPlace(g, n);
    Decode(v[b][off..off + RECORD])
  }

  /** The volume with inode `n`'s record rewritten. */
  ghost function StoreInode(g: Geometry, v: Volume, n: nat, i: Inode): (r: Volume)
    requires VolumeOk(g, v) && TablesOk(g) && InodeExists(g, n)
    ensures VolumeOk(g, r)
  {
    var (b, off) := RecordPlace(g, n);
    v[b := Splice(v[b], off, Encode(i))]
  }

  /** A stored inode is read back, and every other inode and every other block is untouched. */
  lemma StoreInodeExact(g: Geometry, v: Volume, n: nat, i: Inode)
    requires VolumeOk(g, v) && TablesOk(g) && InodeExists(g, n)
    ensures var v' := StoreInode(g, v, n, i);
      && InodeOf(g, v', n) == i
      && (forall m: nat :: InodeExists(g, m) && m != n ==> InodeOf(g, v', m) == InodeOf(g, v, m))
      && (forall b :: 0 <= b < |v| && b != RecordPlace(g, n).0 ==> v'[b] == v[b])
  {
    var v' := StoreInode(g, v, n, i);
    var (b, off) := RecordPlace(g, n);
    assert v'[b][off..off + RECORD] == Encode(i);
    RecordRoundTrip(i);
    forall m: nat | InodeExists(g, m) && m != n ensures InodeOf(g, v', m) == InodeOf(g, v, m) {
      var (c, off') := RecordPlace(g, m);
      assert v'[c][off'..off' + RECORD] == v[c][off'..off' + RECORD];
    }
  }

  // ---- Block map -------------------------------------------------------

  /** Block number behind place `k` of the file's block map, 0 if unmapped. */
  function BlockAt(v: Volume, i: Inode, k: nat): nat
    requires k <= MAPPED
  {
    if k < DIRECT then i.ptrs[k]
    else if k == MAPPED then i.ptrs[12]
    else if i.ptrs[12] == 0 || i.ptrs[12] >= |v| then 0
    else ReadLe32(v[i.ptrs[12]], (k - DIRECT) * 4)
  }

  /** The first 12 places are the pointers of the inode; the other 256 are the entries of the block
      its 13th pointer names, if it names one. */
  lemma MapPlaces(v: Volume, i: Inode, k: nat)
    requires k < 268 && (i.ptrs[12] != 0 ==> i.ptrs[12] < |v|)
    ensures k < 12 ==> BlockAt(v, i, k) == i.ptrs[k]
    ensures k >= 12 ==> BlockAt(v, i, k) == if i.ptrs[12] == 0 then 0 else ReadLe32(v[i.ptrs[12]], (k - 12) * 4)
  {
  }

  /** Which file and which place of its map each block belongs to. */
  type Owner = map<nat, (nat, nat)>

  /** The file's mapped blocks are its own, each at its place. */
  ghost predicate FileMapped(v: Volume, i: Inode, n: nat, owner: Owner)
  {
    forall k :: 0 <= k <= MAPPED && BlockAt(v, i, k) != 0 ==>
      BlockAt(v, i, k) in owner && owner[BlockAt(v, i, k)] == (n, k)
  }

  /** Owned blocks are covered by the bitmaps, in use and not reserved. */
  ghost predicate OwnedOk(g: Geometry, v: Volume, owner: Owner)
    requires VolumeOk(g, v)
  {
    forall b :: b in owner ==> Covered(g, b) && b !in g.reserved && InUse(g, v, b)
  }

  ghost predicate ReservedOk(g: Geometry, v: Volume)
    requires VolumeOk(g, v)
  {
    forall b :: b in g.reserved && Covered(g, b) ==> InUse(g, v, b)
  }

  /** File `n`, whose inode is `i`, and all the others have maps that never share a block. */
  ghost predicate MapOk(g: Geometry, v: Volume, n: nat, i: Inode, others: map<nat, Inode>, owner: Owner)
  {
    && VolumeOk(g, v) && OwnedOk(g, v, owner) && ReservedOk(g, v)
    && n !in others && FileMapped(v, i, n, owner)
    && forall m :: m in others ==> FileMapped(v, others[m], m, owner)
  }

  /** Byte `at` of the file, 0 where no block is mapped. */
  function ByteAt(v: Volume, i: Inode, at: nat): byte
    requires at < MAPPED * BLOCK
  {
    var b := BlockAt(v, i, at / BLOCK);
    if b == 0 || b >= |v| then 0 else v[b][at % BLOCK]
  }

  /** All blocks below the size are mapped. */
  predicate NoHoles(v: Volume, i: Inode)
  {
    i.size <= MAPPED * BLOCK && forall k :: 0 <= k < MAPPED && k * BLOCK < i.size ==> BlockAt(v, i, k) != 0
  }

  /** The file as a byte sequence. */
  function Contents(v: Volume, i: Inode): (r: seq<byte>)
    requires i.size <= MAPPED * BLOCK
    ensures |r| == i.size
  {
    seq(i.size, at requires 0 <= at < i.size => ByteAt(v, i, at))
  }

  /** The map of a file whose indirect block did not change is the same. */
  lemma SameMap(v: Volume, v': Volume, i: Inode)
    requires |v'| == |v| && (i.ptrs[12] < |v| && i.ptrs[12] != 0 ==> v'[i.ptrs[12]] == v[i.ptrs[12]])
    ensures forall k :: 0 <= k <= MAPPED ==> BlockAt(v', i, k) == BlockAt(v, i, k)
  {
  }

  /** A file none of whose blocks changed reads the same. */
  lemma FileUntouched(v: Volume, v': Volume, i: Inode, n: nat, owner: Owner)
    requires |v'| == |v| && FileMapped(v, i, n, owner)
    requires forall b :: b in owner && owner[b].0 == n ==> b < |v| && v'[b] == v[b]
    ensures FileMapped(v', i, n, owner)
    ensures forall at :: 0 <= at < MAPPED * BLOCK ==> ByteAt(v', i, at) == ByteAt(v, i, at)
  {
    assert BlockAt(v, i, MAPPED) == i.ptrs[12];
    SameMap(v, v', i);
    forall at | 0 <= at < MAPPED * BLOCK ensures ByteAt(v', i, at) == ByteAt(v, i, at) {
      assert BlockAt(v', i, at / BLOCK) == BlockAt(v, i, at / BLOCK);
    }
  }
}
