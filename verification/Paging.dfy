/** Two-level page tables held in physical frames: entries, and the layout of a user
    address space. */
module Paging {
  import opened Pmm
  import opened Sets

  const WORDS: nat := 1024
  /** Directory slots of the user half, 0x40000000 to 0xBFFFFFFF. */
  const USER_FIRST: nat := 256
  const USER_END: nat := 768

  /** A 32-bit word read as a page-table entry: bits 31-12, 0, 1, 2, and 11-3. */
  datatype Word = Word(frame: nat, present: bool, writable: bool, user: bool, other: nat)

  const ZERO: Word := Word(0, false, false, false, 0)

  type Frame = f: seq<Word> | |f| == WORDS witness seq(WORDS, _ => ZERO)
  /** Physical memory by page number. */
  type Ram = seq<Frame>

  /** Present and accessible from user mode. */
  predicate Live(w: Word) { w.present && w.user }

  function UserEntry(p: nat): (w: Word)
    ensures Live(w) && w.writable && w.frame == p
  {
    Word(p, true, true, true, 0)
  }

  function KernelEntry(p: nat): (w: Word)
    ensures w.present && w.writable && !w.user && w.frame == p
  {
    Word(p, true, true, false, 0)
  }

  /** `w` maps what the kernel's entry `k` maps, to the kernel only. */
  predicate ForKernel(k: Word, w: Word)
  {
    && w.present == k.present && !w.user
    && (k.present ==> w.frame == k.frame && w.writable == k.writable && w.other == k.other)
  }

  /** A present entry with the user bit cleared, or an empty one. */
  function Supervisor(k: Word): (w: Word)
    ensures ForKernel(k, w)
  {
    if k.present then k.(user := false) else ZERO.(writable := true)
  }

  /** Outside the slots `user` the directory maps what the kernel's directory maps, to the kernel only. */
  ghost predicate KernelMapped(kernel: Frame, dir: Frame, user: set<nat>)
  {
    forall i: nat :: i < WORDS && i !in user ==> ForKernel(kernel[i], dir[i])
  }

  // ---- Layouts ----------------------------------------------------------

  /** A user address space: the directory's frame, the frame of each user page table,
      and the frame of each user page by directory and table index. */
  datatype Layout = Layout(dir: nat, tables: map<nat, nat>, pages: map<(nat, nat), nat>)

  ghost function Owned(l: Layout): set<nat> { {l.dir} + l.tables.Values + l.pages.Values }

  /** Frames needed to hold a layout once. */
  ghost function Need(l: Layout): nat { 1 + |l.tables| + |l.pages| }

  /** The directory and the tables are different frames. */
  ghost predicate TablesDistinct(l: Layout)
  {
    && (forall i, j :: i in l.tables && j in l.tables && i != j ==> l.tables[i] != l.tables[j])
    && l.dir !in l.tables.Values
  }

  /** No frame is used for two things. */
  ghost predicate Distinct(l: Layout)
  {
    && TablesDistinct(l)
    && (forall a, b :: a in l.pages && b in l.pages && a != b ==> l.pages[a] != l.pages[b])
    && l.dir !in l.pages.Values && l.tables.Values !! l.pages.Values
  }

  /** The directory and the tables can be reached at their own addresses. */
  ghost predicate Reachable(l: Layout)
  {
    l.dir < MAPPED_FRAMES && forall i :: i in l.tables ==> l.tables[i] < MAPPED_FRAMES
  }

  /** The table holds the pages of row `i`. */
  ghost predicate RowLays(table: Frame, pages: map<(nat, nat), nat>, i: nat)
  {
    && (forall j: nat :: j < WORDS ==> (Live(table[j]) <==> (i, j) in pages))
    && (forall j: nat :: j < WORDS && (i, j) in pages ==> table[j].frame == pages[(i, j)])
  }

  /** The directory and the tables in memory hold exactly this layout. */
  ghost predicate Lays(ram: Ram, l: Layout)
  {
    && l.dir < |ram|
    && (forall i: nat :: USER_FIRST <= i < USER_END ==> (Live(ram[l.dir][i]) <==> i in l.tables))
    && (forall i :: i in l.tables ==> USER_FIRST <= i < USER_END && l.tables[i] < |ram|)
    && (forall i :: i in l.tables ==> ram[l.dir][i].frame == l.tables[i])
    && (forall k :: k in l.pages ==> k.0 in l.tables && k.1 < WORDS)
    && (forall i :: i in l.tables ==> RowLays(ram[l.tables[i]], l.pages, i))
  }

  /** Every page table of the directory is in memory. */
  predicate Walkable(ram: Ram, pd: nat)
  {
    pd < |ram| && forall i: nat :: USER_FIRST <= i < USER_END && Live(ram[pd][i]) ==> ram[pd][i].frame < |ram|
  }

  /** What the hardware finds by walking the directory at `pd`. */
  ghost function LayoutOf(ram: Ram, pd: nat): Layout
    requires Walkable(ram, pd)
  {
    Layout(pd,
           map i: nat | USER_FIRST <= i < USER_END && Live(ram[pd][i]) :: ram[pd][i].frame,
           map i: nat, j: nat |
             USER_FIRST <= i < USER_END && Live(ram[pd][i]) && j < WORDS && Live(ram[ram[pd][i].frame][j])
             :: (i, j) := ram[ram[pd][i].frame][j].frame)
  }

  lemma LayoutLays(ram: Ram, pd: nat)
    requires Walkable(ram, pd)
    ensures Lays(ram, LayoutOf(ram, pd))
  {
  }

  /** The walk finds a layout exactly when memory holds it. */
  lemma LaysIsLayout(ram: Ram, l: Layout)
    requires Lays(ram, l)
    ensures Walkable(ram, l.dir) && LayoutOf(ram, l.dir) == l
  {
    var w := LayoutOf(ram, l.dir);
    assert w.tables == l.tables;
    forall k ensures k in w.pages <==> k in l.pages {
      if k in l.pages { assert RowLays(ram[l.tables[k.0]], l.pages, k.0); }
    }
    assert w.pages == l.pages;
  }

  // ---- Counting ---------------------------------------------------------

  lemma ValuesPut<K>(m: map<K, nat>, k: K, v: nat)
    requires k !in m
    ensures m[k := v].Values == m.Values + {v}
  {
    var m' := m[k := v];
    forall x | x in m.Values ensures x in m'.Values {
      var a :| a in m && m[a] == x;
      assert m'[a] == x;
    }
    assert m'[k] == v;
  }

  lemma {:induction false} ValuesCount<K>(m: map<K, nat>)
    requires forall a, b :: a in m && b in m && a != b ==> m[a] != m[b]
    ensures |m.Values| == |m|
  {
    if m != map[] {
      var k :| k in m;
      var rest := m - {k};
      ValuesCount(rest);
      assert m == rest[k := m[k]];
      ValuesPut(rest, k, m[k]);
      NotAmong(rest, m[k]);
    }
  }

  lemma NotAmong<K>(m: map<K, nat>, v: nat)
    requires forall a :: a in m ==> m[a] != v
    ensures v !in m.Values
  {
  }

  lemma OwnedCount(l: Layout)
    requires Distinct(l)
    ensures |Owned(l)| == Need(l)
  {
    ValuesCount(l.tables);
    ValuesCount(l.pages);
    SizeOfThree(l.dir, l.tables.Values, l.pages.Values);
  }

  lemma SizeOfThree(x: nat, a: set<nat>, b: set<nat>)
    requires x !in a && x !in b && a !! b
    ensures |{x} + a + b| == 1 + |a| + |b|
  {
    DisjointUnion({x}, a);
    DisjointUnion({x} + a, b);
  }

  // ---- Changing a layout ------------------------------------------------

  ghost predicate SameExcept(ram: Ram, ram': Ram, touched: set<nat>)
  {
    |ram'| == |ram| && forall p: nat :: p < |ram| && p !in touched ==> ram'[p] == ram[p]
  }

  function Zeros(): (f: Frame)
    ensures forall j :: 0 <= j < WORDS ==> f[j] == ZERO
  {
    seq(WORDS, _ => ZERO)
  }

  ghost function WithTable(l: Layout, i: nat, t: nat): Layout { l.(tables := l.tables[i := t]) }

  ghost function WithPage(l: Layout, i: nat, j: nat, f: nat): Layout { l.(pages := l.pages[(i, j) := f]) }

  lemma WithTableDistinct(l: Layout, i: nat, t: nat)
    requires Distinct(l) && t !in Owned(l) && i !in l.tables
    ensures Distinct(WithTable(l, i, t)) && Owned(WithTable(l, i, t)) == Owned(l) + {t}
  {
    ValuesPut(l.tables, i, t);
  }

  lemma WithPageDistinct(l: Layout, i: nat, j: nat, f: nat)
    requires Distinct(l) && f !in Owned(l) && (i, j) !in l.pages
    ensures Distinct(WithPage(l, i, j, f)) && Owned(WithPage(l, i, j, f)) == Owned(l) + {f}
  {
    ValuesPut(l.pages, (i, j), f);
  }

  /** An empty table hung into the directory. */
  lemma TableHung(ram: Ram, ram': Ram, l: Layout, i: nat, t: nat, w: Word)
    requires Lays(ram, l) && Distinct(l) && t < |ram| && t !in Owned(l)
    requires USER_FIRST <= i < USER_END && i !in l.tables && Live(w) && w.frame == t
    requires SameExcept(ram, ram', {t, l.dir}) && ram'[t] == Zeros() && ram'[l.dir] == ram[l.dir][i := w]
    ensures Lays(ram', WithTable(l, i, t))
  {
    forall k | k in l.tables ensures ram'[l.tables[k]] == ram[l.tables[k]] {
      assert l.tables[k] in l.tables.Values;
    }
    assert RowLays(ram'[t], l.pages, i) by {
      assert forall k :: k in l.pages ==> k.0 != i;
    }
  }

  /** A page entered in a table. */
  lemma PageEntered(ram: Ram, ram': Ram, l: Layout, i: nat, j: nat, f: nat, w: Word, touched: set<nat>)
    requires Lays(ram, l) && Distinct(l) && i in l.tables && j < WORDS && Live(w) && w.frame == f
    requires touched !! Owned(l) && SameExcept(ram, ram', touched + {l.tables[i]})
    requires ram'[l.tables[i]] == ram[l.tables[i]][j := w]
    ensures Lays(ram', WithPage(l, i, j, f))
  {
    var l' := WithPage(l, i, j, f);
    OtherTables(ram, ram', l, i, touched);
    RowEntered(ram[l.tables[i]], l.pages, i, j, f, w);
    forall k | k in l.tables && k != i ensures RowLays(ram'[l'.tables[k]], l'.pages, k) {
      RowKept(ram[l.tables[k]], l.pages, i, j, f, k);
    }
  }

  lemma RowEntered(table: Frame, pages: map<(nat, nat), nat>, i: nat, j: nat, f: nat, w: Word)
    requires RowLays(table, pages, i) && j < WORDS && Live(w) && w.frame == f
    ensures RowLays(table[j := w], pages[(i, j) := f], i)
  {
  }

  lemma RowKept(table: Frame, pages: map<(nat, nat), nat>, i: nat, j: nat, f: nat, k: nat)
    requires RowLays(table, pages, k) && k != i
    ensures RowLays(table, pages[(i, j) := f], k)
  {
  }

  lemma OtherTables(ram: Ram, ram': Ram, l: Layout, i: nat, touched: set<nat>)
    requires Lays(ram, l) && Distinct(l) && i in l.tables
    requires touched !! Owned(l) && SameExcept(ram, ram', touched + {l.tables[i]})
    ensures ram'[l.dir] == ram[l.dir]
    ensures forall k :: k in l.tables && k != i ==> ram'[l.tables[k]] == ram[l.tables[k]]
  {
    forall k | k in l.tables && k != i ensures ram'[l.tables[k]] == ram[l.tables[k]] {
      assert l.tables[k] in l.tables.Values;
    }
  }
}
