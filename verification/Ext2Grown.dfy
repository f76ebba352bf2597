/** A block that a directory grows into still holds what it held before, and is scanned
    like any other. */
module Ext2Grown {
  import opened Wrappers
  import opened Bytes
  import opened Ext2Alloc
  import opened Ext2Dir

  // ---- The scan, on any bytes -------------------------------------------

  /** The first record the scan of dir_add_entry takes, from `off` on. */
  function FirstUsable(b: Block, off: nat, name: Name): (at: Option<nat>)
    ensures at.Some? ==> off <= at.value && Usable(b, at.value, name)
    decreases BLOCK - off
  {
    if off + 8 > BLOCK || RecLen(b, off) == 0 then None
    else if Usable(b, off, name) then Some(off)
    else FirstUsable(b, off + RecLen(b, off), name)
  }

  /** The inner loop of dir_add_entry. */
  method FindRoom(b: Block, name: Name) returns (at: Option<nat>)
    ensures at == FirstUsable(b, 0, name)
  {
    var off: nat := 0;
    while off + 8 <= BLOCK && RecLen(b, off) != 0
      invariant FirstUsable(b, off, name) == FirstUsable(b, 0, name)
      decreases BLOCK - off
    {
      if Usable(b, off, name) { return Some(off); }
      off := off + RecLen(b, off);
    }
    at := None;
  }

  /** In a well-formed block the scan takes the first record with room. */
  lemma {:induction false} RoomInTiled(b: Block, a: nat, name: Name)
    requires Tiled(b, a)
    ensures var at := FirstUsable(b, a, name);
      && (at.Some? ==> Reaches(b, a, at.value) && HasRoom(b, at.value, name))
      && (at.Some? ==> forall o: nat :: o < at.value && Reaches(b, a, o) ==> !HasRoom(b, o, name))
      && (at.None? ==> forall o: nat :: Reaches(b, a, o) ==> !HasRoom(b, o, name))
    decreases BLOCK - a
  {
    if a < BLOCK && !HasRoom(b, a, name) {
      var next := a + RecLen(b, a);
      RoomInTiled(b, next, name);
      assert FirstUsable(b, a, name).Some? ==> Reaches(b, a, FirstUsable(b, a, name).value);
    } else if a < BLOCK {
      assert FirstUsable(b, a, name) == Some(a);
      forall o: nat | o < a ensures !Reaches(b, a, o) {
        if Reaches(b, a, o) { ReachesOrder(b, a, o); }
      }
    }
  }

  // ---- The record at the place taken ------------------------------------

  /** `b'` is `b` with the record at `off` cut to its name and the new record behind it,
      as far as that lies in the block. */
  predicate Overlaid(b: Block, b': Block, off: nat, name: Name, ino: u32)
    requires off + 8 <= BLOCK
  {
    var p := off + Actual(b, off);
    && (forall k :: 0 <= k < BLOCK && k < p && k != off + 4 && k != off + 5 ==> b'[k] == b[k])
    && RecLen(b', off) == Actual(b, off) && b'[off + 4] == Actual(b, off) % 0x100
    && (p + 8 <= BLOCK ==> Ino(b', p) == ino && NameLen(b', p) == |name|)
    && (p + 8 + |name| <= BLOCK ==> b'[p + 8..p + 8 + |name|] == name)
  }

  lemma AddedOverlays(b: Block, off: nat, name: Name, ino: u32, kind: byte)
    requires Usable(b, off, name) && |name| <= 255
    ensures Overlaid(b, Added(b, off, name, ino, kind), off, name, ino)
  {
    var b', p := Added(b, off, name, ino, kind), off + Actual(b, off);
    var rec := Header(ino, Space(b, off), name, kind) + name;
    FieldRoundTrip16(b', off + 4, Actual(b, off));
    assert b'[off + 4..off + 6][0] == b'[off + 4];
    if p + 8 <= BLOCK {
      assert b'[p..p + 4] == rec[..4] == Le32(ino);
      FieldRoundTrip32(b', p, ino);
      assert b'[p + 6] == rec[6];
    }
    if p + 8 + |name| <= BLOCK { assert b'[p + 8..p + 8 + |name|] == rec[8..]; }
  }

  /** A header that ends one byte into the cut length has no proper length afterwards. */
  lemma NoOverlap(b: Block, b': Block, off: nat, a: nat)
    requires off + 8 <= BLOCK && a + 1 == off && RecLen(b, a) == 1
    requires b'[a + 4] == b[a + 4] && b'[off + 4] == Actual(b, off) % 0x100
    ensures !RecordOk(b', a)
  {
    Low(Actual(b, off));
    assert b[a + 4] == 1;
    assert RecLen(b', a) == 1 + 0x100 * b'[off + 4] as int;
  }

  lemma Low(n: nat)
    requires n % 4 == 0
    ensures n % 0x100 == 0 || n % 0x100 >= 4
  {
    assert n % 0x100 == n - 0x100 * (n / 0x100);
  }

  /** If the result is tiled, its chain leads to the record that was cut. */
  lemma {:induction false} ChainSame(b: Block, b': Block, a: nat, off: nat, name: Name, ino: u32)
    requires FirstUsable(b, a, name) == Some(off) && off + 8 <= BLOCK && Overlaid(b, b', off, name, ino) && Tiled(b', a)
    ensures Reaches(b', a, off) && Tiled(b', off)
    decreases BLOCK - a
  {
    if a != off {
      if a + 1 == off { NoOverlap(b, b', off, a); }
      assert RecLen(b', a) == RecLen(b, a);
      ChainSame(b, b', a + RecLen(b, a), off, name, ino);
    }
  }

  /** What the block held before ends with the very binding that is added, in a last record
      shorter than its name, and binds nothing else. */
  predicate Echo(b: Block, off: nat, name: Name, ino: u32)
    requires off + 8 <= BLOCK
  {
    && off + Actual(b, off) == BLOCK && Ino(b, off) == ino && NameAt(b, off) == name
    && Reaches(b, 0, off) && Between(b, 0, off) == map[]
  }

  /** `b` binds the name and nothing else. */
  predicate BindsOnly(b: Block, name: Name, ino: u32)
  {
    Tiled(b, 0) && Unique(b, 0) && Bindings(b, 0) == map[name := ino]
  }

  lemma OnlyEcho(b: Block, b': Block, off: nat, name: Name, ino: u32)
    requires FirstUsable(b, 0, name) == Some(off) && Usable(b, off, name) && Overlaid(b, b', off, name, ino)
    requires NameOk(name) && ino != 0 && BindsOnly(b', name, ino)
    ensures Echo(b, off, name, ino)
  {
    ChainSame(b, b', 0, off, name, ino);
    assert Ino(b', off) == Ino(b, off);
    SoleRecord(b', off, name, ino);
    CutStays(b, b', off, name, ino);
    CutIsLast(b, b', off, name, ino);
    SameFront(b', b, 0, off);
  }

  lemma CutIsLast(b: Block, b': Block, off: nat, name: Name, ino: u32)
    requires off + 8 <= BLOCK && Overlaid(b, b', off, name, ino) && ino != 0 && off + Actual(b, off) <= BLOCK
    requires Tiled(b', off + RecLen(b', off)) && name !in Bindings(b', off + RecLen(b', off))
    ensures off + Actual(b, off) == BLOCK
  {
    if off + Actual(b, off) < BLOCK { NewBinds(b, b', off, name, ino); }
  }

  /** A live record of a block that binds one name is that binding, and the only one. */
  lemma SoleRecord(b: Block, off: nat, name: Name, ino: u32)
    requires BindsOnly(b, name, ino) && Reaches(b, 0, off) && off + 8 <= BLOCK && Ino(b, off) != 0
    ensures RecordOk(b, off) && NameAt(b, off) == name && Ino(b, off) == ino
    ensures Between(b, 0, off) == map[]
    ensures Tiled(b, off + RecLen(b, off)) && name !in Bindings(b, off + RecLen(b, off))
  {
    ReachesTiled(b, 0, off);
    UniqueAt(b, off);
    NothingInFront(b, off, name, ino);
  }

  /** A new record inside the block binds the name again. */
  lemma NewBinds(b: Block, b': Block, off: nat, name: Name, ino: u32)
    requires off + 8 <= BLOCK && Overlaid(b, b', off, name, ino) && ino != 0
    requires off + Actual(b, off) < BLOCK && Tiled(b', off + Actual(b, off))
    ensures name in Bindings(b', off + Actual(b, off))
  {
    assert NameAt(b', off + Actual(b, off)) == name;
  }

  /** The cut record keeps its inode number and its name. */
  lemma CutStays(b: Block, b': Block, off: nat, name: Name, ino: u32)
    requires Usable(b, off, name) && Overlaid(b, b', off, name, ino) && RecordOk(b', off)
    ensures Ino(b', off) == Ino(b, off) && NameLen(b', off) == NameLen(b, off) && off + Actual(b, off) <= BLOCK
    ensures NameAt(b', off) == NameAt(b, off)
  {
    assert NameLen(b', off) == NameLen(b, off);
    assert NameAt(b', off) == NameAt(b, off);
  }

  lemma NothingInFront(b: Block, off: nat, name: Name, ino: u32)
    requires Tiled(b, 0) && Reaches(b, 0, off) && Tiled(b, off) && Bindings(b, 0) == map[name := ino]
    requires name !in Between(b, 0, off)
    ensures Between(b, 0, off) == map[]
  {
    Split(b, 0, off);
    assert Between(b, 0, off).Keys <= Bindings(b, 0).Keys == {name};
  }

  lemma EchoBinds(b: Block, b': Block, off: nat, name: Name, ino: u32)
    requires Usable(b, off, name) && Overlaid(b, b', off, name, ino)
    requires NameOk(name) && ino != 0 && Echo(b, off, name, ino)
    ensures BindsOnly(b', name, ino)
  {
    EchoTail(b, b', off, name, ino);
    SameFront(b, b', 0, off);
    Split(b', 0, off);
    EmptyUnique(b', 0, off);
    UniqueSplit(b', 0, off);
  }

  lemma EchoTail(b: Block, b': Block, off: nat, name: Name, ino: u32)
    requires Usable(b, off, name) && Overlaid(b, b', off, name, ino)
    requires NameOk(name) && ino != 0 && Echo(b, off, name, ino)
    ensures Tiled(b', off) && Unique(b', off) && Bindings(b', off) == map[name := ino]
  {
    assert NameLen(b', off) == NameLen(b, off);
    assert NameAt(b', off) == NameAt(b, off);
    LastRecord(b', off, name, ino);
  }

  lemma LastRecord(b: Block, off: nat, name: Name, ino: u32)
    requires RecordOk(b, off) && off + RecLen(b, off) == BLOCK && Ino(b, off) == ino != 0 && NameAt(b, off) == name
    ensures Tiled(b, off) && Unique(b, off) && Bindings(b, off) == map[name := ino]
  {
    assert Tiled(b, BLOCK) && Unique(b, BLOCK) && Bindings(b, BLOCK) == map[];
  }

  lemma FrontHas(b: Block, a: nat, z: nat)
    requires Reaches(b, a, z) && a != z
    ensures Ino(b, a) != 0 ==> NameAt(b, a) in Between(b, a, z)
  {
  }

  lemma {:induction false} EmptyUnique(b: Block, a: nat, z: nat)
    requires Reaches(b, a, z) && Between(b, a, z) == map[]
    ensures UniqueBetween(b, a, z)
    decreases BLOCK - a
  {
    if a != z {
      FrontHas(b, a, z);
      EmptyUnique(b, a + RecLen(b, a), z);
    }
  }

  /** When the scan takes a record of the grown block, the block binds what it should if and
      only if the record is an echo of the new binding. */
  lemma StaleBindsIff(b: Block, off: nat, name: Name, ino: u32, kind: byte)
    requires FirstUsable(b, 0, name) == Some(off) && NameOk(name) && ino != 0
    ensures Usable(b, off, name) && (BindsOnly(Added(b, off, name, ino, kind), name, ino) <==> Echo(b, off, name, ino))
  {
    AddedOverlays(b, off, name, ino, kind);
    var b' := Added(b, off, name, ino, kind);
    if Echo(b, off, name, ino) {
      EchoBinds(b, b', off, name, ino);
    } else if BindsOnly(b', name, ino) {
      OnlyEcho(b, b', off, name, ino);
    }
  }

  // ---- The grown block --------------------------------------------------

  /** A block that holds one record of the whole block's length. */
  function Single(name: Name, ino: u32, kind: byte): Block
    requires |name| <= 255
  {
    Splice(Zeros(), 0, Header(ino, BLOCK, name, kind) + name)
  }

  lemma SingleRecord(name: Name, ino: u32, kind: byte)
    requires NameOk(name) && ino != 0
    ensures BindsOnly(Single(name, ino, kind), name, ino)
  {
    var b := Single(name, ino, kind);
    assert b[0..8 + |name|] == Header(ino, BLOCK, name, kind) + name;
    HeaderFields(b, 0, ino, BLOCK, name, kind);
    FieldRoundTrip32(b, 0, ino);
    FieldRoundTrip16(b, 4, BLOCK);
    LastRecord(b, 0, name, ino);
  }

  /** What the block reads after the name was added to it. */
  function Grown(b: Block, name: Name, ino: u32, kind: byte): Block
    requires |name| <= 255
  {
    match FirstUsable(b, 0, name)
    case Some(off) => Added(b, off, name, ino, kind)
    case None => Single(name, ino, kind)
  }

  /** The scan takes no record of the old contents, or an echo of the new binding. */
  predicate Harmless(b: Block, name: Name, ino: u32)
  {
    match FirstUsable(b, 0, name)
    case Some(off) => Echo(b, off, name, ino)
    case None => true
  }

  lemma GrownBindsIff(b: Block, name: Name, ino: u32, kind: byte)
    requires NameOk(name) && ino != 0
    ensures BindsOnly(Grown(b, name, ino, kind), name, ino) <==> Harmless(b, name, ino)
  {
    match FirstUsable(b, 0, name)
    case Some(off) => StaleBindsIff(b, off, name, ino, kind);
    case None => SingleRecord(name, ino, kind);
  }
}
