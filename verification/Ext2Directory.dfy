/** A directory of one or more blocks is a finite map: lookup, add and remove. */
module Ext2Directory {
  import opened Wrappers
  import opened Bytes
  import opened Ext2Alloc
  import opened Ext2Dir
  import opened Ext2Grown

  // ---- Removing from a block -------------------------------------------

  /** The first record unlinked: its inode number is zero. */
  function Unlinked(b: Block): Block { Splice(b, 0, [0, 0, 0, 0]) }

  /** `b'` differs from `b` in its first four bytes, which are zero. */
  lemma UnlinkFirst(b: Block, b': Block)
    requires Tiled(b, 0) && Unique(b, 0) && Ino(b, 0) != 0
    requires Ino(b', 0) == 0 && forall k :: 4 <= k < BLOCK ==> b'[k] == b[k]
    ensures Tiled(b', 0) && Unique(b', 0)
    ensures Bindings(b', 0) == Bindings(b, 0) - {NameAt(b, 0)}
  {
    assert RecLen(b', 0) == RecLen(b, 0);
    BackKept(b, b', RecLen(b, 0));
    RecordBinds(b, 0);
  }

  /** The record at `off` absorbed by the one in front of it. */
  function Merged(b: Block, prev: nat, off: nat): Block
    requires RecordOk(b, prev) && RecordOk(b, off) && prev + RecLen(b, prev) == off
  {
    Splice(b, prev + 4, Le16(RecLen(b, prev) + RecLen(b, off)))
  }

  /** `b'` differs from `b` in the length of the record at `prev`, which reaches to the end of the one at `off`. */
  predicate Absorbed(b: Block, b': Block, prev: nat, off: nat)
    requires RecordOk(b, prev) && RecordOk(b, off)
  {
    && RecordOk(b', prev) && RecLen(b', prev) == RecLen(b, prev) + RecLen(b, off) && Ino(b', prev) == Ino(b, prev)
    && (Ino(b, prev) != 0 ==> NameAt(b', prev) == NameAt(b, prev))
    && (forall k :: 0 <= k < BLOCK && k != prev + 4 && k != prev + 5 ==> b'[k] == b[k])
  }

  lemma MergedAbsorbs(b: Block, prev: nat, off: nat)
    requires RecordOk(b, prev) && RecordOk(b, off) && prev + RecLen(b, prev) == off
    ensures Absorbed(b, Merged(b, prev, off), prev, off)
  {
    var b' := Merged(b, prev, off);
    assert b'[prev + 4..prev + 6] == Le16(RecLen(b, prev) + RecLen(b, off));
    FieldRoundTrip16(b', prev + 4, RecLen(b, prev) + RecLen(b, off));
    assert NameLen(b', prev) == NameLen(b, prev);
    if Ino(b, prev) != 0 { assert NameAt(b', prev) == NameAt(b, prev); }
  }

  /** One record's binding in front of the rest. */
  function Bind(m: map<Name, u32>, ino: u32, name: Name): map<Name, u32>
  {
    if ino != 0 then m[name := ino] else m
  }

  lemma RecordBinds(b: Block, off: nat)
    requires off < BLOCK && Tiled(b, off)
    ensures var rest := Bindings(b, off + RecLen(b, off));
      Bindings(b, off) == if Ino(b, off) != 0 then rest[NameAt(b, off) := Ino(b, off)] else rest
  {
  }

  lemma ForgetMiddle(m: map<Name, u32>, nm: Name, i: u32, ino: u32, name: Name)
    requires nm !in m && (ino != 0 ==> name != nm)
    ensures Bind(m[nm := i], ino, name) - {nm} == Bind(m, ino, name)
  {
  }

  /** The pair of records becomes one that binds what the first did. */
  lemma MergedBack(b: Block, b': Block, prev: nat, off: nat)
    requires RecordOk(b, prev) && prev + RecLen(b, prev) == off < BLOCK && Tiled(b, off) && Unique(b, prev)
    requires Ino(b, off) != 0
    requires RecordOk(b', prev) && RecLen(b', prev) == RecLen(b, prev) + RecLen(b, off) && Ino(b', prev) == Ino(b, prev)
    requires Ino(b, prev) != 0 ==> NameAt(b', prev) == NameAt(b, prev)
    requires Tiled(b', off + RecLen(b, off)) && Bindings(b', off + RecLen(b, off)) == Bindings(b, off + RecLen(b, off))
    requires Unique(b', off + RecLen(b, off))
    ensures Tiled(b', prev) && Unique(b', prev)
    ensures Bindings(b', prev) == Bindings(b, prev) - {NameAt(b, off)}
  {
    var m := Bindings(b, off + RecLen(b, off));
    assert Unique(b, off) && NameAt(b, off) !in m;
    RecordBinds(b, prev);
    RecordBinds(b, off);
    assert Tiled(b', prev);
    RecordBinds(b', prev);
    assert Ino(b, prev) != 0 ==> NameAt(b, prev) !in m && NameAt(b, prev) != NameAt(b, off);
    var name := if Ino(b, prev) != 0 then NameAt(b, prev) else [];
    ForgetMiddle(m, NameAt(b, off), Ino(b, off), Ino(b, prev), name);
  }

  /** Absorbing a record removes its name and nothing else. */
  lemma MergeRemoves(b: Block, b': Block, prev: nat, off: nat)
    requires Tiled(b, 0) && Unique(b, 0) && Reaches(b, 0, prev) && prev < off < BLOCK
    requires RecordOk(b, prev) && prev + RecLen(b, prev) == off && RecordOk(b, off) && Ino(b, off) != 0
    requires Absorbed(b, b', prev, off)
    ensures Tiled(b', 0) && Unique(b', 0) && Bindings(b', 0) == Bindings(b, 0) - {NameAt(b, off)}
  {
    MergeContext(b, prev, off);
    BackKept(b, b', off + RecLen(b, off));
    MergedBack(b, b', prev, off);
    JoinRemoved(b, b', prev, NameAt(b, off));
  }

  lemma MergeContext(b: Block, prev: nat, off: nat)
    requires Tiled(b, 0) && Unique(b, 0) && Reaches(b, 0, prev) && prev < off < BLOCK
    requires RecordOk(b, prev) && prev + RecLen(b, prev) == off && RecordOk(b, off) && Ino(b, off) != 0
    ensures Tiled(b, prev) && Unique(b, prev) && Tiled(b, off) && Unique(b, off + RecLen(b, off))
    ensures NameAt(b, off) !in Between(b, 0, prev)
  {
    BetweenStep(b, 0, prev);
    UniqueAt(b, off);
    ReachesTiled(b, 0, prev);
    UniqueSplit(b, 0, prev);
  }

  /** A block changed only from `prev` on, where it lost the name `nm`. */
  lemma JoinRemoved(b: Block, b': Block, prev: nat, nm: Name)
    requires Tiled(b, 0) && Unique(b, 0) && Reaches(b, 0, prev) && forall k :: 0 <= k < prev ==> b'[k] == b[k]
    requires Tiled(b, prev) && Tiled(b', prev) && Unique(b', prev) && Bindings(b', prev) == Bindings(b, prev) - {nm}
    requires nm !in Between(b, 0, prev)
    ensures Tiled(b', 0) && Unique(b', 0) && Bindings(b', 0) == Bindings(b, 0) - {nm}
  {
    UniqueSplit(b, 0, prev);
    JoinUnique(b, b', prev);
    SameFront(b, b', 0, prev);
    Split(b, 0, prev);
    Split(b', 0, prev);
  }

  // ---- Scanning a block -------------------------------------------------

  /** Where a record was found, and the record in front of it. */
  datatype Found = Found(off: nat, prev: Option<nat>) | Absent

  predicate FoundAt(b: Block, name: Name, f: Found)
  {
    && f.Found? && f.off < BLOCK && Reaches(b, 0, f.off) && RecordOk(b, f.off)
    && Ino(b, f.off) != 0 && NameAt(b, f.off) == name
    && (f.prev.None? ==> f.off == 0)
    && (f.prev.Some? ==>
      && f.prev.value < f.off && Reaches(b, 0, f.prev.value) && RecordOk(b, f.prev.value)
      && f.prev.value + RecLen(b, f.prev.value) == f.off)
  }

  lemma ScanStep(b: Block, off: nat, name: Name)
    requires Tiled(b, 0) && Reaches(b, 0, off) && Tiled(b, off) && off < BLOCK
    requires name !in Between(b, 0, off) && (Ino(b, off) != 0 ==> NameAt(b, off) != name)
    ensures Reaches(b, 0, off + RecLen(b, off)) && name !in Between(b, 0, off + RecLen(b, off))
  {
    BetweenStep(b, 0, off);
  }

  lemma ScanEnd(b: Block, name: Name)
    requires Reaches(b, 0, BLOCK) && name !in Between(b, 0, BLOCK)
    ensures Tiled(b, 0) && name !in Bindings(b, 0)
  {
    Split(b, 0, BLOCK);
  }

  /** The inner loop of lookup and removal. */
  method FindRecord(b: Block, name: Name) returns (f: Found)
    requires Tiled(b, 0)
    ensures f.Absent? <==> name !in Bindings(b, 0)
    ensures f.Found? ==> FoundAt(b, name, f)
  {
    var off: nat, prev: Option<nat> := 0, None;
    while off + 8 <= BLOCK && RecLen(b, off) != 0
      invariant Reaches(b, 0, off) && Tiled(b, off) && off <= BLOCK
      invariant name !in Between(b, 0, off)
      invariant prev.None? ==> off == 0
      invariant prev.Some? ==>
        && prev.value < off && Reaches(b, 0, prev.value) && RecordOk(b, prev.value)
        && prev.value + RecLen(b, prev.value) == off
      decreases BLOCK - off
    {
      if Ino(b, off) != 0 && NameAt(b, off) == name {
        Split(b, 0, off);
        return Found(off, prev);
      }
      ScanStep(b, off, name);
      prev := Some(off);
      off := off + RecLen(b, off);
    }
    ScanEnd(b, name);
    f := Absent;
  }

  // ---- Several blocks ---------------------------------------------------

  /** Maps combined, the first that has a name counting. */
  function Combined(parts: seq<map<Name, u32>>): map<Name, u32>
  {
    if parts == [] then map[] else Combined(parts[1..]) + parts[0]
  }

  /** No name is in two of the maps. */
  predicate Disjoint(parts: seq<map<Name, u32>>)
  {
    forall i, j :: 0 <= i < j < |parts| ==> parts[i].Keys !! parts[j].Keys
  }

  lemma {:induction false} CombinedHas(parts: seq<map<Name, u32>>, name: Name)
    ensures name in Combined(parts) <==> exists i :: 0 <= i < |parts| && name in parts[i]
  {
    if parts != [] {
      var rest := parts[1..];
      CombinedHas(rest, name);
      assert forall i :: 0 <= i < |rest| ==> rest[i] == parts[i + 1];
    }
  }

  lemma {:induction false} CombinedAt(parts: seq<map<Name, u32>>, k: nat, name: Name)
    requires k < |parts| && name in parts[k] && forall i :: 0 <= i < k ==> name !in parts[i]
    ensures name in Combined(parts) && Combined(parts)[name] == parts[k][name]
  {
    if k > 0 {
      assert forall i :: 0 <= i < k - 1 ==> parts[1..][i] == parts[i + 1];
      CombinedAt(parts[1..], k - 1, name);
    }
  }

  /** Lookup goes by the only part that has the name. */
  lemma OnlyPart(parts: seq<map<Name, u32>>, k: nat, name: Name)
    requires Disjoint(parts) && k < |parts| && name in parts[k]
    ensures name in Combined(parts) && Combined(parts)[name] == parts[k][name]
  {
    forall i | 0 <= i < k ensures name !in parts[i] { assert parts[i].Keys !! parts[k].Keys; }
    CombinedAt(parts, k, name);
  }

  lemma LaterGain(rest: map<Name, u32>, first: map<Name, u32>, name: Name, ino: u32)
    requires name !in first
    ensures Bind(rest, ino, name) + first == Bind(rest + first, ino, name)
  {
  }

  lemma LaterLoss(rest: map<Name, u32>, first: map<Name, u32>, name: Name)
    requires name !in first
    ensures (rest - {name}) + first == (rest + first) - {name}
  {
  }

  lemma FirstGain(rest: map<Name, u32>, first: map<Name, u32>, name: Name, ino: u32)
    requires name !in rest
    ensures rest + Bind(first, ino, name) == Bind(rest + first, ino, name)
  {
  }

  lemma FirstLoss(rest: map<Name, u32>, first: map<Name, u32>, name: Name)
    requires name !in rest
    ensures rest + (first - {name}) == (rest + first) - {name}
  {
  }

  /** A part gains a name that none had. */
  lemma {:induction false} PartGains(parts: seq<map<Name, u32>>, k: nat, name: Name, ino: u32)
    requires k < |parts| && name !in Combined(parts)
    ensures Combined(parts[k := Bind(parts[k], ino, name)]) == Bind(Combined(parts), ino, name)
  {
    var p', rest := parts[k := Bind(parts[k], ino, name)], parts[1..];
    if k > 0 {
      assert p'[1..] == rest[k - 1 := Bind(rest[k - 1], ino, name)];
      PartGains(rest, k - 1, name, ino);
      LaterGain(Combined(rest), parts[0], name, ino);
    } else {
      assert p'[1..] == rest;
      FirstGain(Combined(rest), parts[0], name, ino);
    }
  }

  /** A part loses a name that only it had. */
  lemma {:induction false} PartLoses(parts: seq<map<Name, u32>>, k: nat, name: Name)
    requires k < |parts| && forall i :: 0 <= i < |parts| && i != k ==> name !in parts[i]
    ensures Combined(parts[k := parts[k] - {name}]) == Combined(parts) - {name}
  {
    var p', rest := parts[k := parts[k] - {name}], parts[1..];
    if k > 0 {
      assert p'[1..] == rest[k - 1 := rest[k - 1] - {name}];
      PartLoses(rest, k - 1, name);
      LaterLoss(Combined(rest), parts[0], name);
    } else {
      assert p'[1..] == rest;
      CombinedHas(rest, name);
      FirstLoss(Combined(rest), parts[0], name);
    }
  }

  /** A part that takes no name of another keeps the parts disjoint. */
  lemma ReplacedDisjoint(parts: seq<map<Name, u32>>, k: nat, m: map<Name, u32>)
    requires Disjoint(parts) && k < |parts|
    requires forall i :: 0 <= i < |parts| && i != k ==> m.Keys !! parts[i].Keys
    ensures Disjoint(parts[k := m])
  {
  }

  lemma {:induction false} PartAppended(parts: seq<map<Name, u32>>, last: map<Name, u32>)
    ensures Combined(parts + [last]) == last + Combined(parts)
  {
    if parts == [] {
      assert (parts + [last])[1..] == [];
    } else {
      assert (parts + [last])[1..] == parts[1..] + [last];
      PartAppended(parts[1..], last);
    }
  }

  lemma DisjointAppended(parts: seq<map<Name, u32>>, name: Name, ino: u32)
    requires Disjoint(parts) && name !in Combined(parts)
    ensures Disjoint(parts + [map[name := ino]])
  {
    CombinedHas(parts, name);
    var p' := parts + [map[name := ino]];
    forall i, j | 0 <= i < j < |p'| ensures p'[i].Keys !! p'[j].Keys {
      assert p'[i] == parts[i];
    }
  }

  predicate AllTiled(blocks: seq<Block>) { forall i :: 0 <= i < |blocks| ==> Tiled(blocks[i], 0) }

  function Parts(blocks: seq<Block>): (ms: seq<map<Name, u32>>)
    requires AllTiled(blocks)
  {
    seq(|blocks|, i requires 0 <= i < |blocks| => Bindings(blocks[i], 0))
  }

  /** Every block is exactly tiled, and no name occurs twice in the directory. */
  predicate DirOk(blocks: seq<Block>)
  {
    AllTiled(blocks) && (forall i :: 0 <= i < |blocks| ==> Unique(blocks[i], 0)) && Disjoint(Parts(blocks))
  }

  /** The directory as a finite map. */
  function DirMap(blocks: seq<Block>): map<Name, u32>
    requires AllTiled(blocks)
  {
    Combined(Parts(blocks))
  }

  lemma BoundInBlock(blocks: seq<Block>, k: nat, b': Block, name: Name, ino: u32)
    requires ino != 0 && DirOk(blocks) && k < |blocks| && name !in DirMap(blocks)
    requires Tiled(b', 0) && Unique(b', 0) && Bindings(b', 0) == Bindings(blocks[k], 0)[name := ino]
    ensures DirOk(blocks[k := b']) && DirMap(blocks[k := b']) == DirMap(blocks)[name := ino]
  {
    var parts := Parts(blocks);
    assert Parts(blocks[k := b']) == parts[k := Bind(parts[k], ino, name)];
    PartGains(parts, k, name, ino);
    CombinedHas(parts, name);
    OthersDisjoint(parts, k);
    ReplacedDisjoint(parts, k, Bind(parts[k], ino, name));
  }

  lemma OthersDisjoint(parts: seq<map<Name, u32>>, k: nat)
    requires Disjoint(parts) && k < |parts|
    ensures forall i :: 0 <= i < |parts| && i != k ==> parts[k].Keys !! parts[i].Keys
  {
  }

  lemma RemovedFromBlock(blocks: seq<Block>, k: nat, b': Block, name: Name)
    requires DirOk(blocks) && k < |blocks| && name in Bindings(blocks[k], 0)
    requires Tiled(b', 0) && Unique(b', 0) && Bindings(b', 0) == Bindings(blocks[k], 0) - {name}
    ensures DirOk(blocks[k := b']) && DirMap(blocks[k := b']) == DirMap(blocks) - {name}
  {
    var parts := Parts(blocks);
    assert Parts(blocks[k := b']) == parts[k := parts[k] - {name}];
    OthersDisjoint(parts, k);
    PartLoses(parts, k, name);
    ReplacedDisjoint(parts, k, parts[k] - {name});
  }

  lemma BoundInNewBlock(blocks: seq<Block>, b': Block, name: Name, ino: u32)
    requires DirOk(blocks) && name !in DirMap(blocks)
    requires Tiled(b', 0) && Unique(b', 0) && Bindings(b', 0) == map[name := ino]
    ensures DirOk(blocks + [b']) && DirMap(blocks + [b']) == DirMap(blocks)[name := ino]
  {
    PartsAppended(blocks, b');
    PartAppended(Parts(blocks), map[name := ino]);
    DisjointAppended(Parts(blocks), name, ino);
    OneAhead(DirMap(blocks), name, ino);
  }

  lemma PartsAppended(blocks: seq<Block>, b': Block)
    requires AllTiled(blocks) && Tiled(b', 0)
    ensures AllTiled(blocks + [b']) && Parts(blocks + [b']) == Parts(blocks) + [Bindings(b', 0)]
  {
  }

  lemma OneAhead(d: map<Name, u32>, name: Name, ino: u32)
    requires name !in d
    ensures map[name := ino] + d == d[name := ino]
  {
  }

  /** A part that loses or changes the value of a name shows in the whole. */
  lemma PartDamaged(parts: seq<map<Name, u32>>, k: nat, m: map<Name, u32>, nm: Name)
    requires k < |parts| && Disjoint(parts) && nm in parts[k] && (nm in m ==> m[nm] != parts[k][nm])
    ensures nm in Combined(parts)
    ensures nm in Combined(parts[k := m]) ==> Combined(parts[k := m])[nm] != Combined(parts)[nm]
  {
    var p' := parts[k := m];
    OnlyPart(parts, k, nm);
    CombinedHas(p', nm);
    forall i | 0 <= i < |parts| && i != k ensures nm !in p'[i] {
      assert p'[i] == parts[i];
      assert if i < k then parts[i].Keys !! parts[k].Keys else parts[k].Keys !! parts[i].Keys;
    }
    if nm in m { CombinedAt(p', k, nm); }
  }

  lemma DamagedInBlock(blocks: seq<Block>, k: nat, b': Block, name: Name, ino: u32)
    requires DirOk(blocks) && k < |blocks| && Tiled(b', 0) && Misdirected(blocks[k], b', name)
    ensures AllTiled(blocks[k := b']) && DirMap(blocks[k := b']) != DirMap(blocks)[name := ino]
  {
    var nm :| nm in Bindings(blocks[k], 0) && nm != name
      && (nm in Bindings(b', 0) ==> Bindings(b', 0)[nm] != Bindings(blocks[k], 0)[nm]);
    var parts := Parts(blocks);
    assert Parts(blocks[k := b']) == parts[k := Bindings(b', 0)];
    PartDamaged(parts, k, Bindings(b', 0), nm);
  }

  // ---- Choosing the place -----------------------------------------------

  /** The record at offset `o` of block `k` is the first of the directory with room for the name. */
  ghost predicate FirstRoom(blocks: seq<Block>, name: Name, k: nat, o: nat)
  {
    && k < |blocks| && Reaches(blocks[k], 0, o) && HasRoom(blocks[k], o, name)
    && (forall p: nat :: p < o && Reaches(blocks[k], 0, p) ==> !HasRoom(blocks[k], p, name))
    && (forall i, p: nat :: 0 <= i < k && Reaches(blocks[i], 0, p) ==> !HasRoom(blocks[i], p, name))
  }

  /** The name fills the first room it fits in, and the next record's inode number has a
      non-zero low byte. */
  ghost predicate FillsBefore(blocks: seq<Block>, name: Name)
  {
    exists k: nat, o: nat :: FirstRoom(blocks, name, k, o) && Clobbers(blocks[k], o, name)
  }

  ghost predicate HasFirstRoom(blocks: seq<Block>, name: Name)
  {
    exists k: nat, o: nat :: FirstRoom(blocks, name, k, o)
  }

  /** Adding the name does what it should: it does not fill its room in front of a record,
      and the old contents of a grown block do no harm. */
  ghost predicate Sound(blocks: seq<Block>, grown: Option<Block>, name: Name, ino: u32)
  {
    if HasFirstRoom(blocks, name) then !FillsBefore(blocks, name)
    else grown.Some? ==> Harmless(grown.value, name, ino)
  }

  lemma FirstRoomUnique(blocks: seq<Block>, name: Name, k: nat, o: nat)
    requires FirstRoom(blocks, name, k, o)
    ensures FillsBefore(blocks, name) <==> Clobbers(blocks[k], o, name)
  {
    if k': nat, o': nat :| FirstRoom(blocks, name, k', o') && Clobbers(blocks[k'], o', name) {
      assert k' == k && o' == o;
    }
  }

  /** A name whose length is not a multiple of 4 never fills its room. */
  lemma UnalignedNeverFills(blocks: seq<Block>, name: Name)
    requires |name| % 4 != 0
    ensures !FillsBefore(blocks, name)
  {
    if k: nat, o: nat :| FirstRoom(blocks, name, k, o) && Clobbers(blocks[k], o, name) {
      OddLengthsAreSafe(blocks[k], o, name);
    }
  }

  /** The patch of dir_add_entry to one block. */
  method AddAt(b: Block, off: nat, name: Name, ino: u32, kind: byte) returns (b': Block)
    requires Tiled(b, 0) && Unique(b, 0) && Reaches(b, 0, off) && HasRoom(b, off, name)
    requires NameOk(name) && ino != 0 && name !in Bindings(b, 0)
    ensures Tiled(b', 0) && b' == Added(b, off, name, ino, kind)
    ensures !Clobbers(b, off, name) ==> Unique(b', 0) && Bindings(b', 0) == Bindings(b, 0)[name := ino]
    ensures Clobbers(b, off, name) ==> Misdirected(b, b', name)
  {
    b' := Added(b, off, name, ino, kind);
    if Clobbers(b, off, name) {
      AddDamages(b, off, name, ino, kind);
    } else {
      AddBinds(b, off, name, ino, kind);
      AddKeepsUnique(b, off, name, ino, kind);
    }
  }

  // ---- The directory ----------------------------------------------------

  /** The directory with the name bound to the inode, well-formed. */
  predicate Intended(blocks: seq<Block>, blocks': seq<Block>, name: Name, ino: u32)
    requires AllTiled(blocks)
  {
    DirOk(blocks') && DirMap(blocks') == DirMap(blocks)[name := ino]
  }

  /** One more block makes the intended directory exactly when it binds the name alone. */
  lemma LastBlockIff(blocks: seq<Block>, b': Block, name: Name, ino: u32)
    requires DirOk(blocks) && name !in DirMap(blocks)
    ensures Intended(blocks, blocks + [b'], name, ino) <==> BindsOnly(b', name, ino)
  {
    if BindsOnly(b', name, ino) { BoundInNewBlock(blocks, b', name, ino); }
    if Intended(blocks, blocks + [b'], name, ino) { OnlyName(blocks, b', name, ino); }
  }

  lemma OnlyName(blocks: seq<Block>, b': Block, name: Name, ino: u32)
    requires DirOk(blocks) && name !in DirMap(blocks) && Intended(blocks, blocks + [b'], name, ino)
    ensures BindsOnly(b', name, ino)
  {
    var grown := blocks + [b'];
    assert grown[|blocks|] == b';
    PartsAppended(blocks, b');
    var m, d := Bindings(b', 0), DirMap(blocks);
    PartAppended(Parts(blocks), m);
    forall nm | nm in m ensures nm !in d { LastApart(Parts(blocks), m, nm); }
    DisjointSum(m, d, name, ino);
  }

  lemma LastApart(parts: seq<map<Name, u32>>, m: map<Name, u32>, nm: Name)
    requires Disjoint(parts + [m]) && nm in m
    ensures nm !in Combined(parts)
  {
    CombinedHas(parts, nm);
    forall i | 0 <= i < |parts| ensures nm !in parts[i] {
      assert (parts + [m])[i] == parts[i] && (parts + [m])[|parts|] == m;
    }
  }

  lemma DisjointSum(m: map<Name, u32>, d: map<Name, u32>, name: Name, ino: u32)
    requires m + d == d[name := ino] && name !in d && forall nm :: nm in m ==> nm !in d
    ensures m == map[name := ino]
  {
    assert forall nm :: nm in m + d <==> nm in d[name := ino];
    assert (m + d)[name] == ino;
    assert m.Keys == {name};
  }

  lemma FoundEntry(blocks: seq<Block>, k: nat, name: Name, f: Found)
    requires DirOk(blocks) && k < |blocks| && FoundAt(blocks[k], name, f)
    ensures name in Bindings(blocks[k], 0) && name in DirMap(blocks) && DirMap(blocks)[name] == Ino(blocks[k], f.off)
  {
    UniqueAt(blocks[k], f.off);
    assert Parts(blocks)[k] == Bindings(blocks[k], 0);
    OnlyPart(Parts(blocks), k, name);
  }

  lemma NotFound(blocks: seq<Block>, name: Name)
    requires AllTiled(blocks) && forall i :: 0 <= i < |blocks| ==> name !in Bindings(blocks[i], 0)
    ensures name !in DirMap(blocks)
  {
    CombinedHas(Parts(blocks), name);
  }

  /** The patch of dir_remove_entry to one block. */
  method RemoveAt(b: Block, name: Name, f: Found) returns (b': Block)
    requires Tiled(b, 0) && Unique(b, 0) && FoundAt(b, name, f)
    ensures Tiled(b', 0) && Unique(b', 0) && Bindings(b', 0) == Bindings(b, 0) - {name}
  {
    match f.prev
    case Some(prev) =>
      b' := Merged(b, prev, f.off);
      MergedAbsorbs(b, prev, f.off);
      MergeRemoves(b, b', prev, f.off);
    case None =>
      b' := Unlinked(b);
      UnlinkFirst(b, b');
  }
}
