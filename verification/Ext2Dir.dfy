/** One directory block of ext2: records chained by their lengths, holding a finite
    map from names to inode numbers. */
module Ext2Dir {
  import opened Bytes
  import opened Ext2Alloc

  type Name = seq<byte>

  predicate NameOk(name: Name) { 0 < |name| <= 255 && forall i :: 0 <= i < |name| ==> name[i] != 0 }

  // ---- Records ---------------------------------------------------------

  function Ino(b: Block, off: nat): u32
    requires off + 8 <= BLOCK
  {
    ReadLe32(b, off)
  }

  function RecLen(b: Block, off: nat): u16
    requires off + 8 <= BLOCK
  {
    ReadLe16(b, off + 4)
  }

  function NameLen(b: Block, off: nat): byte
    requires off + 8 <= BLOCK
  {
    b[off + 6]
  }

  function NameAt(b: Block, off: nat): Name
    requires off + 8 <= BLOCK && off + 8 + NameLen(b, off) <= BLOCK
  {
    b[off + 8..off + 8 + NameLen(b, off)]
  }

  /** `n` rounded up to a multiple of 4. */
  function Align4(n: nat): (r: nat)
    ensures n <= r < n + 4
  {
    (n + 3) / 4 * 4
  }

  /** Length of a record's header and name, aligned. */
  function Actual(b: Block, off: nat): nat
    requires off + 8 <= BLOCK
  {
    Align4(8 + NameLen(b, off) as int)
  }

  /** A record that stays in the block; a live one has room for its aligned name. */
  predicate RecordOk(b: Block, off: nat)
  {
    && off + 8 <= BLOCK && 8 <= RecLen(b, off) && off + RecLen(b, off) <= BLOCK
    && (Ino(b, off) != 0 ==> Actual(b, off) <= RecLen(b, off) && NameOk(NameAt(b, off)))
  }

  /** From `off` on the block is exactly tiled by records. */
  predicate Tiled(b: Block, off: nat)
    decreases BLOCK - off
  {
    off == BLOCK || (RecordOk(b, off) && Tiled(b, off + RecLen(b, off)))
  }

  /** The names bound by the records from `off` on; the first record of a name counts. */
  function Bindings(b: Block, off: nat): map<Name, u32>
    requires Tiled(b, off)
    decreases BLOCK - off
  {
    if off == BLOCK then map[]
    else
      var rest := Bindings(b, off + RecLen(b, off));
      if Ino(b, off) != 0 then rest[NameAt(b, off) := Ino(b, off)] else rest
  }

  /** No two records from `off` on bind the same name. */
  predicate Unique(b: Block, off: nat)
    requires Tiled(b, off)
    decreases BLOCK - off
  {
    off == BLOCK ||
    (Unique(b, off + RecLen(b, off)) &&
     (Ino(b, off) != 0 ==> NameAt(b, off) !in Bindings(b, off + RecLen(b, off))))
  }

  // ---- Splitting the chain ---------------------------------------------

  /** The chain from `a` has a record boundary at `z`. */
  predicate Reaches(b: Block, a: nat, z: nat)
    decreases BLOCK - a
  {
    a == z || (a < z <= BLOCK && RecordOk(b, a) && Reaches(b, a + RecLen(b, a), z))
  }

  /** The names bound between two boundaries. */
  function Between(b: Block, a: nat, z: nat): map<Name, u32>
    requires Reaches(b, a, z)
    decreases BLOCK - a
  {
    if a == z then map[]
    else
      var rest := Between(b, a + RecLen(b, a), z);
      if Ino(b, a) != 0 then rest[NameAt(b, a) := Ino(b, a)] else rest
  }

  lemma {:induction false} Split(b: Block, a: nat, z: nat)
    requires Reaches(b, a, z) && Tiled(b, z)
    ensures Tiled(b, a) && Bindings(b, a) == Bindings(b, z) + Between(b, a, z)
    decreases BLOCK - a
  {
    if a != z { Split(b, a + RecLen(b, a), z); }
  }

  lemma {:induction false} ReachesTiled(b: Block, a: nat, z: nat)
    requires Tiled(b, a) && Reaches(b, a, z)
    ensures Tiled(b, z)
    decreases BLOCK - a
  {
    if a != z { ReachesTiled(b, a + RecLen(b, a), z); }
  }

  /** A record depends only on its own bytes. */
  lemma SameRecord(b: Block, b': Block, a: nat)
    requires RecordOk(b, a) && forall k :: a <= k < a + RecLen(b, a) ==> b'[k] == b[k]
    ensures RecordOk(b', a) && RecLen(b', a) == RecLen(b, a) && Ino(b', a) == Ino(b, a)
    ensures Ino(b, a) != 0 ==> NameAt(b', a) == NameAt(b, a)
  {
    if Ino(b, a) != 0 { assert NameAt(b', a) == NameAt(b, a); }
  }

  lemma {:induction false} SameFront(b: Block, b': Block, a: nat, z: nat)
    requires Reaches(b, a, z) && forall k :: a <= k < z ==> b'[k] == b[k]
    ensures Reaches(b', a, z) && Between(b', a, z) == Between(b, a, z)
    decreases BLOCK - a
  {
    if a != z {
      ReachesOrder(b, a + RecLen(b, a), z);
      SameRecord(b, b', a);
      SameFront(b, b', a + RecLen(b, a), z);
    }
  }

  lemma ReachesOrder(b: Block, a: nat, z: nat)
    requires Reaches(b, a, z)
    ensures a <= z
  {
  }

  lemma {:induction false} SameBack(b: Block, b': Block, a: nat)
    requires Tiled(b, a) && forall k :: a <= k < BLOCK ==> b'[k] == b[k]
    ensures Tiled(b', a) && Bindings(b', a) == Bindings(b, a)
    decreases BLOCK - a
  {
    if a != BLOCK {
      SameRecord(b, b', a);
      SameBack(b, b', a + RecLen(b, a));
    }
  }

  /** No two records between the boundaries bind the same name. */
  predicate UniqueBetween(b: Block, a: nat, z: nat)
    requires Reaches(b, a, z)
    decreases BLOCK - a
  {
    a == z ||
    (UniqueBetween(b, a + RecLen(b, a), z) &&
     (Ino(b, a) != 0 ==> NameAt(b, a) !in Between(b, a + RecLen(b, a), z)))
  }

  /** Names are unique exactly when they are in front of a boundary, behind it, and across it. */
  lemma {:induction false} UniqueSplit(b: Block, a: nat, z: nat)
    requires Reaches(b, a, z) && Tiled(b, z) && Tiled(b, a)
    ensures Unique(b, a) <==> UniqueBetween(b, a, z) && Unique(b, z) && Between(b, a, z).Keys !! Bindings(b, z).Keys
    decreases BLOCK - a
  {
    if a != z {
      UniqueSplit(b, a + RecLen(b, a), z);
      Split(b, a + RecLen(b, a), z);
    }
  }

  lemma {:induction false} SameFrontUnique(b: Block, b': Block, a: nat, z: nat)
    requires Reaches(b, a, z) && Reaches(b', a, z) && forall k :: a <= k < z ==> b'[k] == b[k]
    ensures UniqueBetween(b', a, z) == UniqueBetween(b, a, z)
    decreases BLOCK - a
  {
    if a != z {
      ReachesOrder(b, a + RecLen(b, a), z);
      SameRecord(b, b', a);
      SameFront(b, b', a + RecLen(b, a), z);
      SameFrontUnique(b, b', a + RecLen(b, a), z);
    }
  }

  lemma {:induction false} SameBackUnique(b: Block, b': Block, a: nat)
    requires Tiled(b, a) && Tiled(b', a) && forall k :: a <= k < BLOCK ==> b'[k] == b[k]
    ensures Unique(b', a) == Unique(b, a)
    decreases BLOCK - a
  {
    if a != BLOCK {
      SameRecord(b, b', a);
      SameBack(b, b', a + RecLen(b, a));
      SameBackUnique(b, b', a + RecLen(b, a));
    }
  }

  /** One record further. */
  lemma {:induction false} BetweenStep(b: Block, a: nat, z: nat)
    requires Reaches(b, a, z) && z < BLOCK && RecordOk(b, z)
    ensures Reaches(b, a, z + RecLen(b, z))
    ensures Between(b, a, z + RecLen(b, z))
         == (if Ino(b, z) != 0 then map[NameAt(b, z) := Ino(b, z)] else map[]) + Between(b, a, z)
    decreases BLOCK - a
  {
    ReachesOrder(b, a, z);
    if a != z { BetweenStep(b, a + RecLen(b, a), z); }
  }

  /** What uniqueness says about one live record: its name is bound to its inode, and
      neither in front of it nor behind it again. */
  lemma UniqueAt(b: Block, z: nat)
    requires Tiled(b, 0) && Unique(b, 0) && Reaches(b, 0, z) && z < BLOCK
    ensures RecordOk(b, z) && Tiled(b, z + RecLen(b, z))
    ensures Ino(b, z) != 0 ==>
      && NameAt(b, z) !in Between(b, 0, z) && NameAt(b, z) !in Bindings(b, z + RecLen(b, z))
      && NameAt(b, z) in Bindings(b, 0) && Bindings(b, 0)[NameAt(b, z)] == Ino(b, z)
  {
    ReachesTiled(b, 0, z);
    UniqueSplit(b, 0, z);
    Split(b, 0, z);
    if Ino(b, z) != 0 { assert NameAt(b, z) in Bindings(b, z).Keys; }
  }

  // ---- Adding ----------------------------------------------------------

  function Header(ino: u32, rec: u16, name: Name, kind: byte): seq<byte>
    requires |name| <= 255
  {
    Le32(ino) + Le16(rec) + [|name|, kind]
  }

  /** The 8 header bytes in front of a name: inode number and record length, low byte first,
      name length and file type. */
  lemma HeaderBytes(ino: u32, rec: u16, name: Name, kind: byte)
    requires |name| <= 255
    ensures var h := Header(ino, rec, name, kind);
      && |h| == 8 && h[6] == |name| && h[7] == kind
      && h[0] as int + h[1] as int * 0x100 + h[2] as int * 0x1_0000 + h[3] as int * 0x100_0000 == ino
      && h[4] as int + h[5] as int * 0x100 == rec
  {
  }

  /** The slack behind the live record at `off` takes a record for `name`. */
  predicate HasRoom(b: Block, off: nat, name: Name)
  {
    RecordOk(b, off) && Ino(b, off) != 0 && RecLen(b, off) - Actual(b, off) >= Align4(8 + |name|)
  }

  /** What the code takes for the slack behind a record: a 16-bit difference, which wraps
      for a record shorter than its own name. */
  function Space(b: Block, off: nat): u16
    requires off + 8 <= BLOCK
  {
    var d := RecLen(b, off) - Actual(b, off);
    if d >= 0 then d else d + 0x1_0000
  }

  /** The test of dir_add_entry, on any bytes. */
  predicate Usable(b: Block, off: nat, name: Name)
  {
    && off + 8 <= BLOCK && Ino(b, off) != 0 && off + RecLen(b, off) <= BLOCK
    && Space(b, off) >= Align4(8 + |name|)
  }

  /** `b` with two bytes replaced at `cut`, `rec` written at `p` and a zero behind it;
      what falls outside the block is not written back. */
  function Patched(b: Block, cut: nat, two: seq<byte>, p: nat, rec: seq<byte>): (r: Block)
    requires |two| == 2 && cut + 2 <= p && cut + 2 <= BLOCK
    ensures r[cut..cut + 2] == two
    ensures p + |rec| <= BLOCK ==> r[p..p + |rec|] == rec
    ensures forall k :: 0 <= k < BLOCK && k < p && k != cut && k != cut + 1 ==> r[k] == b[k]
    ensures forall k :: p <= k < p + |rec| && k < BLOCK ==> r[k] == rec[k - p]
    ensures forall k :: p + |rec| < k < BLOCK ==> r[k] == b[k]
    ensures p + |rec| < BLOCK ==> r[p + |rec|] == 0
  {
    seq(BLOCK, k requires 0 <= k < BLOCK =>
      if cut <= k < cut + 2 then two[k - cut]
      else if p <= k < p + |rec| then rec[k - p]
      else if k == p + |rec| then 0 else b[k])
  }

  /** The block as dir_add_entry patches it, including the NUL it stores after the
      name, which falls behind the record when the name fills it. */
  function Added(b: Block, off: nat, name: Name, ino: u32, kind: byte): Block
    requires Usable(b, off, name) && |name| <= 255
  {
    var actual := Actual(b, off);
    Patched(b, off + 4, Le16(actual), off + actual, Header(ino, Space(b, off), name, kind) + name)
  }

  /** The NUL lands on a non-zero byte of the next record. */
  predicate Clobbers(b: Block, off: nat, name: Name)
    requires HasRoom(b, off, name)
  {
    && RecLen(b, off) - Actual(b, off) == 8 + |name|
    && off + RecLen(b, off) < BLOCK && b[off + RecLen(b, off)] != 0
  }

  /** `b'` is `b` with the record at `off` cut to its actual length and a record for
      `name` in the slack; `last` is the byte where the next record starts. */
  predicate SplitRecord(b: Block, b': Block, off: nat, name: Name, ino: u32, kind: byte, last: byte)
    requires HasRoom(b, off, name) && |name| <= 255
  {
    var p, q := off + Actual(b, off), off + RecLen(b, off);
    && (forall k :: 0 <= k < p && k != off + 4 && k != off + 5 ==> b'[k] == b[k])
    && b'[off + 4..off + 6] == Le16(Actual(b, off))
    && b'[p..p + 4] == Le32(ino) && b'[p + 4..p + 6] == Le16(q - p) && b'[p + 6] == |name|
    && b'[p + 8..p + 8 + |name|] == name
    && (forall k :: q < k < BLOCK ==> b'[k] == b[k])
    && (q < BLOCK ==> b'[q] == last)
  }

  lemma AddedSplits(b: Block, off: nat, name: Name, ino: u32, kind: byte)
    requires HasRoom(b, off, name) && |name| <= 255
    ensures var q := off + RecLen(b, off);
      SplitRecord(b, Added(b, off, name, ino, kind), off, name, ino, kind,
                  if Clobbers(b, off, name) || q == BLOCK then 0 else b[q])
  {
    var b', p, len := Added(b, off, name, ino, kind), off + Actual(b, off), RecLen(b, off) - Actual(b, off);
    HeaderFields(b', p, ino, len, name, kind);
    PatchSplits(b, b', off, name, ino, kind);
  }

  lemma PatchSplits(b: Block, b': Block, off: nat, name: Name, ino: u32, kind: byte)
    requires HasRoom(b, off, name) && |name| <= 255
    requires var p, len := off + Actual(b, off), RecLen(b, off) - Actual(b, off);
      && b'[off + 4..off + 6] == Le16(Actual(b, off))
      && (forall k :: 0 <= k < p && k != off + 4 && k != off + 5 ==> b'[k] == b[k])
      && (forall k :: p + 8 + |name| < k < BLOCK ==> b'[k] == b[k])
      && (p + 8 + |name| < BLOCK ==> b'[p + 8 + |name|] == 0)
      && b'[p..p + 4] == Le32(ino) && b'[p + 4..p + 6] == Le16(len) && b'[p + 6] == |name|
      && b'[p + 8..p + 8 + |name|] == name
    ensures var q := off + RecLen(b, off);
      SplitRecord(b, b', off, name, ino, kind, if Clobbers(b, off, name) || q == BLOCK then 0 else b[q])
  {
  }

  lemma HeaderFields(b: Block, p: nat, ino: u32, len: u16, name: Name, kind: byte)
    requires |name| <= 255 && p + 8 + |name| <= BLOCK && b[p..p + 8 + |name|] == Header(ino, len, name, kind) + name
    ensures b[p..p + 4] == Le32(ino) && b[p + 4..p + 6] == Le16(len) && b[p + 6] == |name|
    ensures b[p + 8..p + 8 + |name|] == name
  {
    var rec := Header(ino, len, name, kind) + name;
    assert forall k :: p <= k < p + |rec| ==> b[k] == b[p..p + 8 + |name|][k - p];
  }

  lemma CutRecord(b: Block, b': Block, off: nat, name: Name, ino: u32, kind: byte, last: byte)
    requires HasRoom(b, off, name) && |name| <= 255 && SplitRecord(b, b', off, name, ino, kind, last)
    ensures RecordOk(b', off) && RecLen(b', off) == Actual(b, off)
    ensures Ino(b', off) == Ino(b, off) && NameAt(b', off) == NameAt(b, off)
  {
    FieldRoundTrip16(b', off + 4, Actual(b, off));
    assert NameLen(b', off) == NameLen(b, off);
    assert NameAt(b', off) == NameAt(b, off);
  }

  lemma NewRecord(b: Block, b': Block, off: nat, name: Name, ino: u32, kind: byte, last: byte)
    requires HasRoom(b, off, name) && NameOk(name) && SplitRecord(b, b', off, name, ino, kind, last)
    ensures var p := off + Actual(b, off);
      && RecordOk(b', p) && p + RecLen(b', p) == off + RecLen(b, off)
      && Ino(b', p) == ino && NameAt(b', p) == name
  {
    var p, q := off + Actual(b, off), off + RecLen(b, off);
    RecordReads(b', p, ino, q - p, name);
  }

  lemma RecordReads(b: Block, p: nat, ino: u32, len: u16, name: Name)
    requires Align4(8 + |name|) <= len && p + len <= BLOCK && NameOk(name)
    requires b[p..p + 4] == Le32(ino) && b[p + 4..p + 6] == Le16(len) && b[p + 6] == |name|
    requires b[p + 8..p + 8 + |name|] == name
    ensures RecordOk(b, p) && RecLen(b, p) == len && Ino(b, p) == ino && NameAt(b, p) == name
  {
    FieldRoundTrip32(b, p, ino);
    FieldRoundTrip16(b, p + 4, len);
  }

  /** The bindings of a block whose record at `off` was split. */
  lemma SplitBindings(b: Block, b': Block, off: nat, name: Name, ino: u32, kind: byte, last: byte)
    requires Tiled(b, 0) && Reaches(b, 0, off) && HasRoom(b, off, name) && NameOk(name) && ino != 0
    requires SplitRecord(b, b', off, name, ino, kind, last) && Tiled(b', off + RecLen(b, off))
    ensures Tiled(b', 0) && Tiled(b', off) && Reaches(b', 0, off)
    ensures Bindings(b', 0) ==
      Bindings(b', off + RecLen(b, off))[name := ino][NameAt(b, off) := Ino(b, off)] + Between(b, 0, off)
  {
    TwoRecords(b, b', off, name, ino, kind, last);
    SameFront(b, b', 0, off);
    Split(b', 0, off);
  }

  lemma TwoRecords(b: Block, b': Block, off: nat, name: Name, ino: u32, kind: byte, last: byte)
    requires HasRoom(b, off, name) && NameOk(name) && ino != 0
    requires SplitRecord(b, b', off, name, ino, kind, last) && Tiled(b', off + RecLen(b, off))
    ensures Tiled(b', off)
    ensures Bindings(b', off) == Bindings(b', off + RecLen(b, off))[name := ino][NameAt(b, off) := Ino(b, off)]
  {
    NewRecord(b, b', off, name, ino, kind, last);
    CutRecord(b, b', off, name, ino, kind, last);
    PairBinds(b', off, off + Actual(b, off), off + RecLen(b, off));
  }

  lemma PairBinds(b: Block, off: nat, p: nat, q: nat)
    requires Tiled(b, q) && RecordOk(b, p) && p + RecLen(b, p) == q && Ino(b, p) != 0
    requires RecordOk(b, off) && off + RecLen(b, off) == p && Ino(b, off) != 0
    ensures Tiled(b, off)
    ensures Bindings(b, off) == Bindings(b, q)[NameAt(b, p) := Ino(b, p)][NameAt(b, off) := Ino(b, off)]
  {
    assert Tiled(b, p) && Bindings(b, p) == Bindings(b, q)[NameAt(b, p) := Ino(b, p)];
  }

  /** Adding a new name to a well-formed block binds it and keeps every other binding
      and the tiling, unless the NUL damages the next record. */
  lemma AddBinds(b: Block, off: nat, name: Name, ino: u32, kind: byte)
    requires Tiled(b, 0) && Reaches(b, 0, off) && HasRoom(b, off, name) && NameOk(name) && ino != 0
    requires name !in Bindings(b, 0) && !Clobbers(b, off, name)
    ensures var b' := Added(b, off, name, ino, kind);
      Tiled(b', 0) && Bindings(b', 0) == Bindings(b, 0)[name := ino]
  {
    AddedSplits(b, off, name, ino, kind);
    var q := off + RecLen(b, off);
    UndamagedBindings(b, Added(b, off, name, ino, kind), off, name, ino, kind, if q == BLOCK then 0 else b[q]);
  }

  lemma UndamagedBindings(b: Block, b': Block, off: nat, name: Name, ino: u32, kind: byte, last: byte)
    requires Tiled(b, 0) && Reaches(b, 0, off) && HasRoom(b, off, name) && NameOk(name) && ino != 0
    requires SplitRecord(b, b', off, name, ino, kind, last) && name !in Bindings(b, 0)
    requires off + RecLen(b, off) < BLOCK ==> last == b[off + RecLen(b, off)]
    ensures Tiled(b', 0) && Bindings(b', 0) == Bindings(b, 0)[name := ino]
  {
    ReachesTiled(b, 0, off);
    BehindKept(b, b', off, name, ino, kind, last);
    SameBack(b, b', off + RecLen(b, off));
    SplitBindings(b, b', off, name, ino, kind, last);
    AddedToFront(b, off, name, ino);
  }

  /** The bindings of a block with one more behind the record at `off`. */
  lemma AddedToFront(b: Block, off: nat, name: Name, ino: u32)
    requires Tiled(b, 0) && Reaches(b, 0, off) && off < BLOCK && Tiled(b, off) && Ino(b, off) != 0
    requires name !in Bindings(b, 0)
    ensures var m := Bindings(b, off + RecLen(b, off));
      m[name := ino][NameAt(b, off) := Ino(b, off)] + Between(b, 0, off) == Bindings(b, 0)[name := ino]
  {
    Split(b, 0, off);
    var m := Bindings(b, off + RecLen(b, off));
    assert Bindings(b, off) == m[NameAt(b, off) := Ino(b, off)];
    BindLast(m, Between(b, 0, off), NameAt(b, off), Ino(b, off), name, ino);
  }

  lemma BindLast(m: map<Name, u32>, front: map<Name, u32>, was: Name, i: u32, name: Name, ino: u32)
    requires name !in m[was := i] + front
    ensures m[name := ino][was := i] + front == (m[was := i] + front)[name := ino]
  {
    assert name != was;
  }

  /** The added block keeps its names unique. */
  lemma AddKeepsUnique(b: Block, off: nat, name: Name, ino: u32, kind: byte)
    requires Tiled(b, 0) && Unique(b, 0) && Reaches(b, 0, off) && HasRoom(b, off, name) && NameOk(name) && ino != 0
    requires name !in Bindings(b, 0) && !Clobbers(b, off, name)
    ensures Tiled(Added(b, off, name, ino, kind), 0) && Unique(Added(b, off, name, ino, kind), 0)
  {
    AddBinds(b, off, name, ino, kind);
    AddedSplits(b, off, name, ino, kind);
    var q := off + RecLen(b, off);
    SplitUnique(b, Added(b, off, name, ino, kind), off, name, ino, kind, if q == BLOCK then 0 else b[q]);
  }

  lemma SplitUnique(b: Block, b': Block, off: nat, name: Name, ino: u32, kind: byte, last: byte)
    requires Tiled(b, 0) && Unique(b, 0) && Reaches(b, 0, off) && HasRoom(b, off, name) && NameOk(name) && ino != 0
    requires SplitRecord(b, b', off, name, ino, kind, last) && name !in Bindings(b, 0)
    requires off + RecLen(b, off) < BLOCK ==> last == b[off + RecLen(b, off)]
    ensures Tiled(b', 0) && Unique(b', 0)
  {
    SplitMakesTwo(b, b', off, name, ino, kind, last);
    TwoAreUnique(b, b', off, off + Actual(b, off), name);
  }

  /** In place of the record at `off` there are two, the first as it was and the second for
      `name`; everything in front and behind stays. */
  predicate TwoRecordsFor(b: Block, b': Block, off: nat, p: nat, name: Name)
  {
    && RecordOk(b, off) && Ino(b, off) != 0
    && RecordOk(b', off) && off + RecLen(b', off) == p
    && Ino(b', off) == Ino(b, off) && NameAt(b', off) == NameAt(b, off)
    && RecordOk(b', p) && p + RecLen(b', p) == off + RecLen(b, off) && Ino(b', p) != 0 && NameAt(b', p) == name
    && (forall k :: 0 <= k < off ==> b'[k] == b[k])
    && (forall k :: off + RecLen(b, off) <= k < BLOCK ==> b'[k] == b[k])
  }

  lemma SplitMakesTwo(b: Block, b': Block, off: nat, name: Name, ino: u32, kind: byte, last: byte)
    requires HasRoom(b, off, name) && NameOk(name) && ino != 0 && SplitRecord(b, b', off, name, ino, kind, last)
    requires off + RecLen(b, off) < BLOCK ==> last == b[off + RecLen(b, off)]
    ensures TwoRecordsFor(b, b', off, off + Actual(b, off), name)
  {
    BehindKept(b, b', off, name, ino, kind, last);
    NewRecord(b, b', off, name, ino, kind, last);
    CutRecord(b, b', off, name, ino, kind, last);
  }

  lemma TwoAreUnique(b: Block, b': Block, off: nat, p: nat, name: Name)
    requires Tiled(b, 0) && Unique(b, 0) && Reaches(b, 0, off) && TwoRecordsFor(b, b', off, p, name)
    requires name !in Bindings(b, 0)
    ensures Tiled(b', 0) && Unique(b', 0)
  {
    UniqueAt(b, off);
    ReachesTiled(b, 0, off);
    Split(b, 0, off);
    UniqueSplit(b, 0, off);
    BackKept(b, b', off + RecLen(b, off));
    PairAdds(b, b', off, p, name);
    JoinUnique(b, b', off);
  }

  /** The bytes behind the record stay, when the NUL does not change the first of them. */
  lemma BehindKept(b: Block, b': Block, off: nat, name: Name, ino: u32, kind: byte, last: byte)
    requires HasRoom(b, off, name) && |name| <= 255 && SplitRecord(b, b', off, name, ino, kind, last)
    requires off + RecLen(b, off) < BLOCK ==> last == b[off + RecLen(b, off)]
    ensures forall k :: off + RecLen(b, off) <= k < BLOCK ==> b'[k] == b[k]
  {
  }

  lemma PairAdds(b: Block, b': Block, off: nat, p: nat, name: Name)
    requires off < BLOCK && Tiled(b, off) && Unique(b, off) && Ino(b, off) != 0 && name !in Bindings(b, off)
    requires var q := off + RecLen(b, off);
      && Tiled(b', q) && Unique(b', q) && Bindings(b', q) == Bindings(b, q)
      && RecordOk(b', p) && p + RecLen(b', p) == q && Ino(b', p) != 0 && NameAt(b', p) == name
    requires RecordOk(b', off) && off + RecLen(b', off) == p && Ino(b', off) == Ino(b, off)
    requires NameAt(b', off) == NameAt(b, off)
    ensures Tiled(b', off) && Unique(b', off) && Bindings(b', off).Keys == Bindings(b, off).Keys + {name}
  {
    OwnName(b, off);
    PairUnique(b', off, p, off + RecLen(b, off));
  }

  lemma BackKept(b: Block, b': Block, q: nat)
    requires Tiled(b, q) && Unique(b, q) && forall k :: q <= k < BLOCK ==> b'[k] == b[k]
    ensures Tiled(b', q) && Unique(b', q) && Bindings(b', q) == Bindings(b, q)
  {
    SameBack(b, b', q);
    SameBackUnique(b, b', q);
  }

  lemma OwnName(b: Block, off: nat)
    requires off < BLOCK && Tiled(b, off) && Unique(b, off) && Ino(b, off) != 0
    ensures var q := off + RecLen(b, off);
      NameAt(b, off) !in Bindings(b, q) && Bindings(b, off).Keys == Bindings(b, q).Keys + {NameAt(b, off)}
  {
  }

  lemma PairUnique(b: Block, off: nat, p: nat, q: nat)
    requires Tiled(b, q) && Unique(b, q)
    requires RecordOk(b, p) && p + RecLen(b, p) == q && Ino(b, p) != 0 && NameAt(b, p) !in Bindings(b, q)
    requires RecordOk(b, off) && off + RecLen(b, off) == p && Ino(b, off) != 0
    requires NameAt(b, off) !in Bindings(b, q) && NameAt(b, off) != NameAt(b, p)
    ensures Tiled(b, off) && Unique(b, off)
    ensures Bindings(b, off).Keys == Bindings(b, q).Keys + {NameAt(b, p), NameAt(b, off)}
  {
    assert Tiled(b, p) && Bindings(b, p) == Bindings(b, q)[NameAt(b, p) := Ino(b, p)] && Unique(b, p);
  }

  /** Unique names in front and behind, none on both sides. */
  lemma JoinUnique(b: Block, b': Block, off: nat)
    requires Tiled(b, 0) && Unique(b, 0) && Reaches(b, 0, off) && forall k :: 0 <= k < off ==> b'[k] == b[k]
    requires Tiled(b', off) && Unique(b', off) && Between(b, 0, off).Keys !! Bindings(b', off).Keys
    ensures Tiled(b', 0) && Unique(b', 0)
  {
    ReachesTiled(b, 0, off);
    UniqueSplit(b, 0, off);
    SameFront(b, b', 0, off);
    SameFrontUnique(b, b', 0, off);
    Split(b', 0, off);
    UniqueSplit(b', 0, off);
  }

  /** The damaged inode number: its low byte is gone. */
  lemma LowByteGone(b: Block, b': Block, q: nat)
    requires q + 8 <= BLOCK && b'[q] == 0 && b[q] != 0 && forall k :: q < k < q + 4 ==> b'[k] == b[k]
    ensures Ino(b', q) == Ino(b, q) - b[q] && Ino(b, q) != 0
  {
  }

  /** Some name other than `name` that `b` binds is gone from `b'` or leads elsewhere. */
  ghost predicate Misdirected(b: Block, b': Block, name: Name)
    requires Tiled(b, 0) && Tiled(b', 0)
  {
    exists nm ::
      && nm in Bindings(b, 0) && nm != name
      && (nm in Bindings(b', 0) ==> Bindings(b', 0)[nm] != Bindings(b, 0)[nm])
  }

  /** When the NUL lands on a record, that record's name no longer leads where it did. */
  lemma AddDamages(b: Block, off: nat, name: Name, ino: u32, kind: byte)
    requires Tiled(b, 0) && Unique(b, 0) && Reaches(b, 0, off) && HasRoom(b, off, name) && NameOk(name) && ino != 0
    requires name !in Bindings(b, 0) && Clobbers(b, off, name)
    ensures var b' := Added(b, off, name, ino, kind);
      Tiled(b', 0) && Misdirected(b, b', name)
  {
    AddedSplits(b, off, name, ino, kind);
    DamagedBindings(b, Added(b, off, name, ino, kind), off, name, ino, kind);
  }

  lemma DamagedBindings(b: Block, b': Block, off: nat, name: Name, ino: u32, kind: byte)
    requires Tiled(b, 0) && Unique(b, 0) && Reaches(b, 0, off) && HasRoom(b, off, name) && NameOk(name) && ino != 0
    requires SplitRecord(b, b', off, name, ino, kind, 0) && name !in Bindings(b, 0)
    requires off + RecLen(b, off) < BLOCK && b[off + RecLen(b, off)] != 0
    ensures Tiled(b', 0) && Misdirected(b, b', name)
  {
    var q := off + RecLen(b, off);
    BetweenStep(b, 0, off);
    UniqueAt(b, q);
    DamagedRecord(b, b', q);
    SplitBindings(b, b', off, name, ino, kind, 0);
    var nm := NameAt(b, q);
    assert nm != name && nm != NameAt(b, off) && nm !in Between(b, 0, off);
  }

  lemma DamagedRecord(b: Block, b': Block, q: nat)
    requires q < BLOCK && Tiled(b, q) && b'[q] == 0 && b[q] != 0 && forall k :: q < k < BLOCK ==> b'[k] == b[k]
    requires Ino(b, q) != 0 ==> NameAt(b, q) !in Bindings(b, q + RecLen(b, q))
    ensures Tiled(b', q) && Ino(b, q) != 0
    ensures NameAt(b, q) in Bindings(b', q) ==> Bindings(b', q)[NameAt(b, q)] != Ino(b, q)
  {
    LowByteGone(b, b', q);
    SameBack(b, b', q + RecLen(b, q));
    assert RecLen(b', q) == RecLen(b, q) && NameLen(b', q) == NameLen(b, q);
    assert NameAt(b', q) == NameAt(b, q);
  }

  /** Adding a name does exactly what it should if and only if the stored NUL does not
      fall on a non-zero byte of the next record. */
  lemma AddBindsIff(b: Block, off: nat, name: Name, ino: u32, kind: byte)
    requires Tiled(b, 0) && Unique(b, 0) && Reaches(b, 0, off) && HasRoom(b, off, name) && NameOk(name) && ino != 0
    requires name !in Bindings(b, 0)
    ensures var b' := Added(b, off, name, ino, kind);
      Tiled(b', 0) && (Bindings(b', 0) == Bindings(b, 0)[name := ino] <==> !Clobbers(b, off, name))
  {
    if Clobbers(b, off, name) {
      AddDamages(b, off, name, ino, kind);
    } else {
      AddBinds(b, off, name, ino, kind);
    }
  }

  /** A name whose length is not a multiple of 4 never causes damage. */
  lemma OddLengthsAreSafe(b: Block, off: nat, name: Name)
    requires HasRoom(b, off, name) && |name| % 4 != 0
    ensures !Clobbers(b, off, name)
  {
    assert Align4(8 + |name|) > 8 + |name|;
  }
}
