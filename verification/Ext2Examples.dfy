/** Directories on which adding a name goes wrong. */
module Ext2Examples {
  import opened Wrappers
  import opened Bytes
  import opened Ext2Alloc
  import opened Ext2Dir
  import opened Ext2Grown
  import opened Ext2Directory

  const ABC: Name := [97, 98, 99]
  const X: Name := [120]
  const WXYZ: Name := [119, 120, 121, 122]

  /** A record at `off` and zeros elsewhere behind it. */
  function Put(b: Block, off: nat, ino: u32, rec: u16, name: Name): Block
    requires |name| <= 255 && off + 8 + |name| <= BLOCK
  {
    Splice(b, off, Header(ino, rec, name, 1) + name)
  }

  lemma PutFields(b: Block, off: nat, ino: u32, rec: u16, name: Name)
    requires |name| <= 255 && off + 8 + |name| <= BLOCK
    ensures var r := Put(b, off, ino, rec, name);
      Ino(r, off) == ino && RecLen(r, off) == rec && NameLen(r, off) == |name| && NameAt(r, off) == name
  {
    var r := Put(b, off, ino, rec, name);
    assert r[off..off + 8 + |name|] == Header(ino, rec, name, 1) + name;
    HeaderFields(r, off, ino, rec, name, 1);
    FieldRoundTrip32(r, off, ino);
    FieldRoundTrip16(r, off + 4, rec);
  }

  /** Fields in front of a later record stay. */
  lemma PutKeeps(b: Block, off: nat, ino: u32, rec: u16, name: Name, at: nat)
    requires |name| <= 255 && off + 8 + |name| <= BLOCK && at + 8 <= BLOCK && at + 8 + NameLen(b, at) <= off
    ensures var r := Put(b, off, ino, rec, name);
      && Ino(r, at) == Ino(b, at) && RecLen(r, at) == RecLen(b, at)
      && NameLen(r, at) == NameLen(b, at) && NameAt(r, at) == NameAt(b, at)
  {
    var r := Put(b, off, ino, rec, name);
    assert NameAt(r, at) == NameAt(b, at);
  }

  // ---- A name that fills its room ---------------------------------------

  /** "abc" with twelve bytes of slack in front of "x", whose inode is 12. */
  function Crowded(): Block { Put(Put(Zeros(), 0, 11, 24, ABC), 24, 12, 1000, X) }

  lemma CrowdedTiled()
    ensures var b := Crowded();
      && Tiled(b, 0) && Unique(b, 0) && Bindings(b, 0) == map[ABC := 11, X := 12]
      && HasRoom(b, 0, WXYZ) && Clobbers(b, 0, WXYZ)
  {
    var front, b := Put(Zeros(), 0, 11, 24, ABC), Crowded();
    PutFields(Zeros(), 0, 11, 24, ABC);
    PutFields(front, 24, 12, 1000, X);
    PutKeeps(front, 24, 12, 1000, X, 0);
    CrowdedChain(b);
    assert b[24] == (Header(12, 1000, X, 1) + X)[0] == 12;
  }

  lemma CrowdedChain(b: Block)
    requires Ino(b, 0) == 11 && RecLen(b, 0) == 24 && NameLen(b, 0) == 3 && NameAt(b, 0) == ABC
    requires Ino(b, 24) == 12 && RecLen(b, 24) == 1000 && NameLen(b, 24) == 1 && NameAt(b, 24) == X
    ensures Tiled(b, 0) && Unique(b, 0) && Bindings(b, 0) == map[ABC := 11, X := 12] && HasRoom(b, 0, WXYZ)
  {
    LastRecord(b, 24, X, 12);
    assert Actual(b, 0) == 12 && RecordOk(b, 0);
    assert Tiled(b, 0);
  }

  /** Adding "wxyz" to it misdirects "x". */
  lemma FillingNameDamages(ino: u32, kind: byte)
    requires ino != 0
    ensures var b := Crowded();
      && DirOk([b]) && WXYZ !in DirMap([b]) && FirstRoom([b], WXYZ, 0, 0) && Clobbers(b, 0, WXYZ)
      && !Intended([b], [Added(b, 0, WXYZ, ino, kind)], WXYZ, ino)
  {
    CrowdedTiled();
    var b := Crowded();
    AddDamages(b, 0, WXYZ, ino, kind);
    OneBlock(b, Added(b, 0, WXYZ, ino, kind), WXYZ, ino);
  }

  lemma OneBlock(b: Block, b': Block, name: Name, ino: u32)
    requires Tiled(b, 0) && Unique(b, 0) && Tiled(b', 0) && name !in Bindings(b, 0) && Misdirected(b, b', name)
    ensures DirOk([b]) && name !in DirMap([b]) && !Intended([b], [b'], name, ino)
  {
    assert Parts([b]) == [Bindings(b, 0)];
    CombinedHas(Parts([b]), name);
    DamagedInBlock([b], 0, b', name, ino);
    assert [b][0 := b'] == [b'];
  }

  // ---- A grown block with old contents ----------------------------------

  /** Growing into a block that still holds "abc" goes wrong: the scan takes its slack. */
  lemma OldContentsHarm(blocks: seq<Block>, ino: u32, kind: byte)
    requires DirOk(blocks) && X !in DirMap(blocks) && ino != 0
    ensures var b := Single(ABC, 11, 1);
      && FirstUsable(b, 0, X) == Some(0) && !Harmless(b, X, ino)
      && !Intended(blocks, blocks + [Grown(b, X, ino, kind)], X, ino)
  {
    var b := Single(ABC, 11, 1);
    PutFields(Zeros(), 0, 11, BLOCK, ABC);
    assert b == Put(Zeros(), 0, 11, BLOCK, ABC);
    assert Actual(b, 0) == 12;
    GrownBindsIff(b, X, ino, kind);
    LastBlockIff(blocks, Grown(b, X, ino, kind), X, ino);
  }

  /** A last record four bytes long that already binds "x" as it will be bound. */
  function Echoing(ino: u32): Block { Put(Put(Zeros(), 0, 0, 1012, []), 1012, ino, 4, X) }

  /** The other way old contents do no harm. */
  lemma EchoIsHarmless(ino: u32)
    requires ino != 0
    ensures FirstUsable(Echoing(ino), 0, X) == Some(1012) && Harmless(Echoing(ino), X, ino)
  {
    var front, b := Put(Zeros(), 0, 0, 1012, []), Echoing(ino);
    PutFields(Zeros(), 0, 0, 1012, []);
    PutFields(front, 1012, ino, 4, X);
    PutKeeps(front, 1012, ino, 4, X, 0);
    assert Actual(b, 1012) == 12 && Usable(b, 1012, X);
    assert FirstUsable(b, 1012, X) == Some(1012);
    assert Reaches(b, 1012, 1012) && Between(b, 1012, 1012) == map[];
  }
}
