/** The ext2 volume of kernel/ext2fs.c and its block bitmaps. */
module Ext2Alloc {
  import opened Bytes
  import Bitmap

  const BLOCK: nat := 1024

  type Block = b: seq<byte> | |b| == BLOCK witness seq(BLOCK, _ => 0)

  function Zeros(): (r: Block)
    ensures forall k :: 0 <= k < BLOCK ==> r[k] == 0
  {
    seq(BLOCK, _ => 0)
  }

  /** The volume by block number; every block of it can be read and written. */
  type Volume = seq<Block>

  /** What mounting reads: the superblock's counts and, per group, where its bitmap
      and its part of the inode table are. None of it is written afterwards. */
  datatype Geometry = Geometry(
    firstData: nat, perGroup: nat, total: nat,
    bitmaps: seq<nat>, tables: seq<nat>,
    inodesPerGroup: nat, inodeSize: nat, totalInodes: nat,
    reserved: set<nat>)   // superblock, descriptors, bitmaps, inode tables

  /** A volume as mke2fs lays it out with 1024-byte blocks. */
  ghost predicate GeoOk(g: Geometry)
  {
    && 1 <= g.firstData && 0 < g.perGroup <= 8 * BLOCK && g.total < 0x8000_0000
    && |g.bitmaps| == |g.tables| == (g.total + g.perGroup - 1) / g.perGroup
    && (forall i :: 0 <= i < |g.bitmaps| ==> g.bitmaps[i] < g.total && g.bitmaps[i] in g.reserved)
    && (forall i, j :: 0 <= i < j < |g.bitmaps| ==> g.bitmaps[i] != g.bitmaps[j])
  }

  /** A block number the bitmaps cover. */
  predicate Covered(g: Geometry, b: nat) { g.firstData <= b < g.total }

  function GroupOf(g: Geometry, b: nat): nat
    requires g.perGroup > 0 && Covered(g, b)
  {
    (b - g.firstData) / g.perGroup
  }

  function BitIn(g: Geometry, b: nat): nat
    requires g.perGroup > 0 && Covered(g, b)
  {
    (b - g.firstData) % g.perGroup
  }

  lemma GroupInRange(g: Geometry, b: nat)
    requires GeoOk(g) && Covered(g, b)
    ensures GroupOf(g, b) < |g.bitmaps| && BitIn(g, b) < g.perGroup
    ensures b == GroupOf(g, b) * g.perGroup + BitIn(g, b) + g.firstData
  {
    DivideBounds(b - g.firstData, g.total, g.perGroup);
  }

  lemma DivideBounds(x: nat, total: nat, per: nat)
    requires x < total && per > 0
    ensures x / per < (total + per - 1) / per && x == x / per * per + x % per
  {
    var q, n := x / per, (total + per - 1) / per;
    assert n * per > total - 1 by { assert total + per - 1 < (n + 1) * per; }
    if q >= n {
      MulMono(n, q, per);
      assert false;
    }
  }

  lemma MulMono(a: nat, b: nat, k: nat)
    requires a <= b
    ensures a * k <= b * k
  {
  }

  lemma GroupUnique(per: nat, q: nat, r: nat)
    requires per > 0 && r < per
    ensures (q * per + r) / per == q && (q * per + r) % per == r
  {
    var x := q * per + r;
    var q', r' := x / per, x % per;
    if q' < q { MulMono(q' + 1, q, per); } else if q' > q { MulMono(q + 1, q', per); }
  }

  predicate Marked(g: Geometry, v: Volume, b: nat)
    requires g.perGroup > 0 && Covered(g, b)
    requires GroupOf(g, b) < |g.bitmaps| && g.bitmaps[GroupOf(g, b)] < |v| && BitIn(g, b) < 8 * BLOCK
  {
    Bitmap.Test(v[g.bitmaps[GroupOf(g, b)]], BitIn(g, b))
  }

  /** The bitmaps say that block `b` is in use. */
  ghost predicate InUse(g: Geometry, v: Volume, b: nat)
    requires GeoOk(g) && |v| == g.total && Covered(g, b)
  {
    GroupInRange(g, b);
    Marked(g, v, b)
  }

  ghost predicate VolumeOk(g: Geometry, v: Volume) { GeoOk(g) && |v| == g.total }

  /** No block is left. */
  ghost predicate VolumeFull(g: Geometry, v: Volume)
    requires VolumeOk(g, v)
  {
    forall x: nat :: Covered(g, x) ==> InUse(g, v, x)
  }

  /** The volume with block `b` marked in use or free. */
  ghost function SetUse(g: Geometry, v: Volume, b: nat, on: bool): (r: Volume)
    requires VolumeOk(g, v) && Covered(g, b)
    ensures VolumeOk(g, r)
  {
    GroupInRange(g, b);
    var bm := g.bitmaps[GroupOf(g, b)];
    v[bm := Bitmap.Put(v[bm], BitIn(g, b), on)]
  }

  /** Marking a block changes its own bit, no other block's, and nothing outside the bitmaps. */
  lemma SetUseExact(g: Geometry, v: Volume, b: nat, on: bool)
    requires VolumeOk(g, v) && Covered(g, b)
    ensures var v' := SetUse(g, v, b, on);
      && (forall x: nat :: Covered(g, x) ==> (InUse(g, v', x) <==> if x == b then on else InUse(g, v, x)))
      && (forall x :: 0 <= x < |v| && x !in g.bitmaps ==> v'[x] == v[x])
  {
    var v' := SetUse(g, v, b, on);
    GroupInRange(g, b);
    forall x: nat | Covered(g, x) ensures InUse(g, v', x) <==> if x == b then on else InUse(g, v, x) {
      GroupInRange(g, x);
    }
  }

  /** Freeing what was just allocated restores the volume bit for bit. */
  lemma SetUseUndone(g: Geometry, v: Volume, b: nat)
    requires VolumeOk(g, v) && Covered(g, b) && !InUse(g, v, b)
    ensures SetUse(g, SetUse(g, v, b, true), b, false) == v
  {
    GroupInRange(g, b);
    var bm := g.bitmaps[GroupOf(g, b)];
    var v' := SetUse(g, SetUse(g, v, b, true), b, false);
    Bitmap.SameBits(v'[bm], v[bm]);
  }

  /** Group and bit of a block number in the code's unsigned arithmetic. */
  function Place(g: Geometry, b: u32): (r: (nat, nat))
    requires g.perGroup > 0
    ensures r.1 < g.perGroup
    ensures Covered(g, b) ==> r == (GroupOf(g, b), BitIn(g, b))
  {
    var rel := (b - g.firstData) % TWO32;
    assert Covered(g, b) ==> rel == b - g.firstData;
    (rel / g.perGroup, rel % g.perGroup)
  }

  /** The mounted volume updated in place. */
  class Store {
    const g: Geometry
    var v: Volume

    ghost predicate Valid()
      reads this
    {
      VolumeOk(g, v)
    }

    constructor (g: Geometry, v: Volume)
      requires VolumeOk(g, v)
      ensures Valid() && this.g == g && this.v == v
    {
      this.g, this.v := g, v;
    }

    /** The scan of one group's bitmap: its first free block, or the group's end. */
    method ScanGroup(group: nat) returns (bit: nat, full: bool)
      requires Valid() && group < |g.bitmaps|
      ensures bit <= g.perGroup && full == (bit == g.perGroup || group * g.perGroup + bit + g.firstData >= g.total)
      ensures !full ==> !Bitmap.Test(v[g.bitmaps[group]], bit)
      ensures forall k :: 0 <= k < bit ==> Bitmap.Test(v[g.bitmaps[group]], k)
    {
      var bitmap := v[g.bitmaps[group]];
      bit := 0;
      while bit < g.perGroup
        invariant bit <= g.perGroup
        invariant forall k :: 0 <= k < bit ==> Bitmap.Test(bitmap, k)
      {
        if group * g.perGroup + bit + g.firstData >= g.total { return bit, true; }
        if !Bitmap.Test(bitmap, bit) { return bit, false; }
        bit := bit + 1;
      }
      full := true;
    }

    /** alloc_block: marks the first free block, and fails only when every block is in use. */
    method AllocBlock() returns (r: int)
      requires Valid()
      modifies this
      ensures Valid()
      ensures r == -1 ==> v == old(v) && VolumeFull(g, v)
      ensures r != -1 ==>
        && r >= 0 && Covered(g, r) && !InUse(g, old(v), r) && v == SetUse(g, old(v), r, true)
        && forall b: nat :: Covered(g, b) && b < r ==> InUse(g, old(v), b)
    {
      for group := 0 to |g.bitmaps|
        invariant Valid() && v == old(v)
        invariant forall b: nat :: Covered(g, b) && GroupOf(g, b) < group ==> InUse(g, v, b)
      {
        var bit, full := ScanGroup(group);
        GroupScanned(g, v, group, bit);
        if !full {
          var bm := g.bitmaps[group];
          v := v[bm := Bitmap.Put(v[bm], bit, true)];
          return group * g.perGroup + bit + g.firstData;
        }
        EndOfGroup(g, group, bit);
      }
      forall b: nat | Covered(g, b) ensures InUse(g, v, b) { GroupInRange(g, b); }
      r := -1;
    }

    /** What a scan up to `bit` of a group says about block numbers. */
    static lemma GroupScanned(g: Geometry, v: Volume, group: nat, bit: nat)
      requires VolumeOk(g, v) && group < |g.bitmaps| && bit <= g.perGroup
      requires forall k :: 0 <= k < bit ==> Bitmap.Test(v[g.bitmaps[group]], k)
      ensures forall b: nat :: Covered(g, b) && GroupOf(g, b) == group && BitIn(g, b) < bit ==> InUse(g, v, b)
      ensures var b := group * g.perGroup + bit + g.firstData;
        b < g.total && bit < g.perGroup ==> Covered(g, b) && GroupOf(g, b) == group && BitIn(g, b) == bit
      ensures forall b: nat :: Covered(g, b) && b < group * g.perGroup + bit + g.firstData ==>
        GroupOf(g, b) < group || (GroupOf(g, b) == group && BitIn(g, b) < bit)
    {
      if bit < g.perGroup { GroupUnique(g.perGroup, group, bit); }
      forall b: nat | Covered(g, b) && b < group * g.perGroup + bit + g.firstData
        ensures GroupOf(g, b) < group || (GroupOf(g, b) == group && BitIn(g, b) < bit)
      {
        GroupInRange(g, b);
        if GroupOf(g, b) > group { MulMono(group + 1, GroupOf(g, b), g.perGroup); }
      }
    }

    /** A full scan covers the group. */
    static lemma EndOfGroup(g: Geometry, group: nat, bit: nat)
      requires GeoOk(g) && (bit == g.perGroup || group * g.perGroup + bit + g.firstData >= g.total)
      ensures forall b: nat :: Covered(g, b) && GroupOf(g, b) == group ==> BitIn(g, b) < bit
    {
      forall b: nat | Covered(g, b) && GroupOf(g, b) == group ensures BitIn(g, b) < bit {
        GroupInRange(g, b);
      }
    }

    /** free_block, with the unsigned subtraction of the code. */
    method FreeBlock(b: u32)
      requires Valid()
      modifies this
      ensures Valid()
      ensures Covered(g, b) ==> v == SetUse(g, old(v), b, false)
      ensures var (group, bit) := Place(g, b);
        v == if group >= |g.bitmaps| then old(v)
             else old(v)[g.bitmaps[group] := Bitmap.Put(old(v)[g.bitmaps[group]], bit, false)]
      ensures forall x :: 0 <= x < |v| && x !in g.bitmaps ==> v[x] == old(v[x])
    {
      var (group, index) := Place(g, b);
      if Covered(g, b) { GroupInRange(g, b); }
      if group >= |g.bitmaps| { return; }
      var bm := g.bitmaps[group];
      v := v[bm := Bitmap.Put(v[bm], index, false)];
    }
  }
}
