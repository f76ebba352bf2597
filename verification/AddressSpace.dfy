/** Building, cloning and destroying user address spaces. */
module AddressSpace {
  import opened Wrappers
  import opened Pmm
  import opened Paging
  import opened Sets

  /** Directory slot of the two kernel windows used for copying, and their table slots. */
  const WINDOW_DIR: nat := 255
  const WINDOW_SRC: nat := 768
  const WINDOW_DST: nat := 767

  /** A window table with both windows unmapped. */
  function Wiped(f: Frame): Frame { f[WINDOW_SRC := ZERO][WINDOW_DST := ZERO] }

  // ---- Mapping and resolving --------------------------------------------

  /** The page tables of a directory are different frames, all in use. */
  ghost predicate TablesApart(ram: Ram, used: set<nat>, pd: nat)
  {
    && pd < |ram| && pd in used
    && (forall i: nat :: i < WORDS && ram[pd][i].present ==>
      ram[pd][i].frame < |ram| && ram[pd][i].frame in used && ram[pd][i].frame != pd)
    && (forall i: nat, k: nat :: i < k < WORDS && ram[pd][i].present && ram[pd][k].present ==>
      ram[pd][i].frame != ram[pd][k].frame)
  }

  /** resolve_user_phys: the page behind slot `i`, entry `j`. */
  function Resolve(ram: Ram, pd: nat, i: nat, j: nat): Option<nat>
    requires pd < |ram| && i < WORDS && j < WORDS && (ram[pd][i].present ==> ram[pd][i].frame < |ram|)
  {
    if pd == 0 || !ram[pd][i].present then None
    else
      var pte := ram[ram[pd][i].frame][j];
      if pte.present then Some(pte.frame) else None
  }

  /** An address resolves exactly if its table is present and has it present, to the frame there. */
  lemma ResolvesIff(ram: Ram, pd: nat, i: nat, j: nat, f: nat)
    requires pd < |ram| && i < WORDS && j < WORDS && (ram[pd][i].present ==> ram[pd][i].frame < |ram|)
    ensures Resolve(ram, pd, i, j) == Some(f) <==>
      pd != 0 && ram[pd][i].present && ram[ram[pd][i].frame][j].present && ram[ram[pd][i].frame][j].frame == f
  {
  }

  /** The pages of a layout are what its addresses resolve to. */
  lemma LayoutResolves(ram: Ram, pd: nat, k: (nat, nat))
    requires pd != 0 && Walkable(ram, pd) && k in LayoutOf(ram, pd).pages
    ensures k.0 < WORDS && k.1 < WORDS && ram[pd][k.0].present && ram[pd][k.0].frame < |ram|
    ensures Resolve(ram, pd, k.0, k.1) == Some(LayoutOf(ram, pd).pages[k])
  {
    LayoutLays(ram, pd);
  }

  /** Where a directory maps what the kernel's maps, and the kernel's table is as it was, every
      address resolves as it does for the kernel. */
  lemma KernelResolves(ram: Ram, ram': Ram, kernelPd: nat, pd: nat, user: set<nat>, i: nat, j: nat)
    requires |ram'| == |ram| && kernelPd < |ram| && pd < |ram| && kernelPd != 0 && pd != 0
    requires KernelMapped(ram[kernelPd], ram'[pd], user) && i < WORDS && j < WORDS && i !in user
    requires ram[kernelPd][i].present ==>
      ram[kernelPd][i].frame < |ram| && ram'[ram[kernelPd][i].frame][j] == ram[ram[kernelPd][i].frame][j]
    ensures Resolve(ram', pd, i, j) == Resolve(ram, kernelPd, i, j) && !Live(ram'[pd][i])
  {
    assert ForKernel(ram[kernelPd][i], ram'[pd][i]);
  }

  /** The table of slot `i`, or the frame it would get, is mapped, or there is none to get. */
  ghost predicate TableMapped(ram: Ram, used: set<nat>, pd: nat, i: nat)
    requires pd < |ram| && i < WORDS
  {
    if ram[pd][i].present then ram[pd][i].frame < MAPPED_FRAMES else Full(used) || !LowFull(used)
  }

  /** All addresses of the space but one (none, if `i` is no slot) resolve as before. */
  ghost predicate SameResolve(ram: Ram, ram': Ram, pd: nat, i: nat, j: nat)
    requires TablesIn(ram, pd) && TablesIn(ram', pd)
  {
    forall k: nat, n: nat :: k < WORDS && n < WORDS && (k, n) != (i, j) ==>
      Resolve(ram', pd, k, n) == Resolve(ram, pd, k, n)
  }

  /** The directory's tables are frames of memory. */
  predicate TablesIn(ram: Ram, pd: nat)
  {
    pd < |ram| && forall i: nat :: i < WORDS && ram[pd][i].present ==> ram[pd][i].frame < |ram|
  }

  /** An empty table at a slot that had none changes no address. */
  lemma NewTableIsEmpty(ram: Ram, used: set<nat>, pd: nat, i: nat, t: nat)
    requires TablesApart(ram, used, pd) && i < WORDS && !ram[pd][i].present && t < |ram| && t !in used
    ensures var ram' := TableAdded(ram, t, pd, i);
      && TablesApart(ram', used + {t}, pd) && SameResolve(ram, ram', pd, WORDS, 0)
      && SameExcept(ram, ram', {pd, t}) && ram'[pd][i] == UserEntry(t)
  {
    var ram' := TableAdded(ram, t, pd, i);
    forall k: nat, n: nat | k < WORDS && n < WORDS ensures Resolve(ram', pd, k, n) == Resolve(ram, pd, k, n) {
      if k != i && ram[pd][k].present { assert ram'[ram[pd][k].frame] == ram[ram[pd][k].frame]; }
    }
  }

  /** Setting one entry of a present table changes the address it stands for. */
  lemma EntrySet(ram: Ram, used: set<nat>, pd: nat, i: nat, j: nat, p: nat)
    requires TablesApart(ram, used, pd) && pd != 0 && i < WORDS && j < WORDS && ram[pd][i].present
    ensures var t := ram[pd][i].frame;
      var ram' := ram[t := ram[t][j := UserEntry(p)]];
      && TablesApart(ram', used, pd) && SameResolve(ram, ram', pd, i, j) && Resolve(ram', pd, i, j) == Some(p)
      && SameExcept(ram, ram', {t})
  {
    var t := ram[pd][i].frame;
    var ram' := ram[t := ram[t][j := UserEntry(p)]];
    assert ram'[pd] == ram[pd];
    forall k: nat, n: nat | k < WORDS && n < WORDS && (k, n) != (i, j)
      ensures Resolve(ram', pd, k, n) == Resolve(ram, pd, k, n)
    {
      if k != i && ram[pd][k].present { assert ram[pd][k].frame != t; }
    }
  }

  // ---- A clone in progress ----------------------------------------------

  /** What a clone starts from: memory, the used frames, the source's layout, the
      kernel's directory and the table behind the windows. */
  datatype Origin = Origin(ram: Ram, used: set<nat>, src: Layout, kernelPd: nat, win: nat)

  /** All frames involved are in use, and the window table is not part of the source. */
  ghost predicate OriginOk(o: Origin)
  {
    && |o.ram| == PAGES && Lays(o.ram, o.src) && Owned(o.src) <= o.used - {o.win}
    && (forall p :: p in o.used ==> p < PAGES)
    && o.kernelPd in o.used && o.win in o.used && o.kernelPd != o.win
    && o.ram[o.kernelPd][WINDOW_DIR].present && o.ram[o.kernelPd][WINDOW_DIR].frame == o.win
    && o.kernelPd < MAPPED_FRAMES && o.win < MAPPED_FRAMES
  }

  /** Pages of `l` hold what the corresponding pages of `src` held. */
  ghost predicate Copies(ram0: Ram, src: Layout, ram: Ram, l: Layout)
  {
    && l.tables.Keys <= src.tables.Keys && l.pages.Keys <= src.pages.Keys
    && (forall k :: k in l.pages ==>
      l.pages[k] < |ram| && src.pages[k] < |ram0| && ram[l.pages[k]] == ram0[src.pages[k]])
  }

  /** Frames in use before are unchanged, except that the windows may have been wiped. */
  ghost predicate Undisturbed(ram0: Ram, used0: set<nat>, ram: Ram, win: nat)
  {
    && |ram| == |ram0| && win < |ram|
    && (forall p: nat :: p in used0 && p < |ram| && p != win ==> ram[p] == ram0[p])
    && Wiped(ram[win]) == Wiped(ram0[win])
  }

  /** The layout's frames were free, and are all that has been taken. */
  ghost predicate Fresh(used0: set<nat>, used: set<nat>, l: Layout)
  {
    Owned(l) !! used0 && used == used0 + Owned(l) && forall p :: p in Owned(l) ==> LOW <= p < PAGES
  }

  ghost predicate Cloning(o: Origin, ram: Ram, used: set<nat>, l: Layout)
  {
    && |ram| == PAGES && Lays(ram, l) && Distinct(l) && Fresh(o.used, used, l)
    && Copies(o.ram, o.src, ram, l) && Undisturbed(o.ram, o.used, ram, o.win)
    && o.kernelPd < |o.ram| && KernelMapped(o.ram[o.kernelPd], ram[l.dir], l.tables.Keys)
    && AllWritable(ram, l)
  }

  /** User mode may write to every page of the layout. */
  ghost predicate AllWritable(ram: Ram, l: Layout)
  {
    && l.dir < |ram| && (forall i :: i in l.tables ==> i < WORDS && ram[l.dir][i].writable && l.tables[i] < |ram|)
    && (forall k :: k in l.pages ==> k.0 in l.tables && k.1 < WORDS && ram[l.tables[k.0]][k.1].writable)
  }

  lemma TableWritable(ram: Ram, l: Layout, i: nat, t: nat)
    requires AllWritable(ram, l) && t < |ram| && i < WORDS && i !in l.tables && t != l.dir && t !in l.tables.Values
    requires l.dir !in l.tables.Values
    ensures AllWritable(TableAdded(ram, t, l.dir, i), WithTable(l, i, t))
  {
    forall j | j in l.tables ensures l.tables[j] != t && l.tables[j] != l.dir { assert l.tables[j] in l.tables.Values; }
  }

  lemma PageWritable(ram: Ram, ram': Ram, l: Layout, i: nat, j: nat, f: nat, others: set<nat>)
    requires AllWritable(ram, l) && i in l.tables && j < WORDS && TablesDistinct(l)
    requires SameExcept(ram, ram', others + {l.tables[i]}) && others !! {l.dir} + l.tables.Values
    requires ram'[l.tables[i]] == ram[l.tables[i]][j := UserEntry(f)]
    ensures AllWritable(ram', WithPage(l, i, j, f))
  {
    assert l.tables[i] in l.tables.Values;
    forall n | n in l.tables ensures l.tables[n] !in others && l.tables[n] != l.dir {
      assert l.tables[n] in l.tables.Values;
    }
  }

  /** All source pages up to entry `j` of row `i` are in the clone, and no others. */
  ghost predicate RowsBefore(src: Layout, l: Layout, i: nat, j: nat)
  {
    && (forall k :: k in src.pages && (k.0 < i || (k.0 == i && k.1 < j)) ==> k in l.pages)
    && (forall k :: k in l.pages ==> k.0 < i || (k.0 == i && k.1 < j))
  }

  /** Row `i` is in both layouts, with table `s` in the source and `t` in the clone. */
  ghost predicate InRow(o: Origin, l: Layout, i: nat, s: nat, t: nat)
  {
    i in o.src.tables && o.src.tables[i] == s && i in l.tables && l.tables[i] == t
  }

  lemma RowSkipped(src: Layout, l: Layout, i: nat, j: nat)
    requires RowsBefore(src, l, i, j) && (i, j) !in src.pages
    ensures RowsBefore(src, l, i, j + 1)
  {
  }

  lemma RowAdvanced(src: Layout, l: Layout, i: nat, j: nat, f: nat)
    requires RowsBefore(src, l, i, j)
    ensures (i, j) !in l.pages && RowsBefore(src, WithPage(l, i, j, f), i, j + 1)
  {
  }

  lemma RowStopped(src: Layout, l: Layout, i: nat, j: nat)
    requires RowsBefore(src, l, i, j) && (i, j) in src.pages && l.pages.Keys <= src.pages.Keys
    ensures l.pages.Keys < src.pages.Keys
  {
    assert (i, j) in src.pages.Keys && (i, j) !in l.pages.Keys;
  }

  lemma OwnedBy(l: Layout)
    ensures l.dir in Owned(l)
    ensures forall i :: i in l.tables ==> l.tables[i] in Owned(l)
    ensures forall k :: k in l.pages ==> l.pages[k] in Owned(l)
  {
  }

  lemma FreshGrows(used0: set<nat>, used: set<nat>, l: Layout, l': Layout, f: nat)
    requires Fresh(used0, used, l) && f !in used && LOW <= f < PAGES && Owned(l') == Owned(l) + {f}
    ensures Fresh(used0, used + {f}, l')
  {
  }

  /** Frames of the clone are neither the window table nor free. */
  lemma Apart(o: Origin, ram: Ram, used: set<nat>, l: Layout, f: nat)
    requires OriginOk(o) && Cloning(o, ram, used, l) && f !in used
    ensures {f, o.win} !! Owned(l) && f !in o.used && Owned(l) !! o.used
    ensures l.dir !in l.pages.Values && l.tables.Values !! l.pages.Values
  {
  }

  /** The source's tables still read as they did. */
  lemma SourceEntry(o: Origin, ram: Ram, i: nat, j: nat)
    requires OriginOk(o) && Undisturbed(o.ram, o.used, ram, o.win) && i in o.src.tables && j < WORDS
    ensures o.src.tables[i] < PAGES && ram[o.src.tables[i]] == o.ram[o.src.tables[i]]
    ensures Live(ram[o.src.tables[i]][j]) <==> (i, j) in o.src.pages
    ensures (i, j) in o.src.pages ==> ram[o.src.tables[i]][j].frame == o.src.pages[(i, j)]
    ensures (i, j) in o.src.pages ==> o.src.pages[(i, j)] in o.used - {o.win}
  {
    OwnedBy(o.src);
    assert RowLays(o.ram[o.src.tables[i]], o.src.pages, i);
  }

  lemma CopiesKept(ram0: Ram, src: Layout, ram: Ram, ram': Ram, l: Layout, touched: set<nat>)
    requires Copies(ram0, src, ram, l) && SameExcept(ram, ram', touched) && touched !! l.pages.Values
    ensures Copies(ram0, src, ram', l)
  {
    forall k | k in l.pages ensures ram'[l.pages[k]] == ram[l.pages[k]] {
      assert l.pages[k] in l.pages.Values;
    }
  }

  lemma CopiesGrow(ram0: Ram, src: Layout, ram: Ram, l: Layout, i: nat, j: nat, f: nat)
    requires Copies(ram0, src, ram, l) && (i, j) in src.pages && src.pages[(i, j)] < |ram0| && f < |ram|
    requires ram[f] == ram0[src.pages[(i, j)]]
    ensures Copies(ram0, src, ram, WithPage(l, i, j, f))
  {
  }

  lemma StillUndisturbed(ram0: Ram, used0: set<nat>, ram: Ram, ram': Ram, win: nat, touched: set<nat>)
    requires Undisturbed(ram0, used0, ram, win) && SameExcept(ram, ram', touched) && touched !! used0 - {win}
    requires ram'[win] == ram[win] || ram'[win] == Wiped(ram[win])
    ensures Undisturbed(ram0, used0, ram', win)
  {
    assert Wiped(Wiped(ram[win])) == Wiped(ram[win]);
  }

  /** Memory with an empty table at `t` hung into slot `i` of the directory. */
  ghost function TableAdded(ram: Ram, t: nat, dir: nat, i: nat): Ram
    requires t < |ram| && dir < |ram| && i < WORDS
  {
    ram[t := Zeros()][dir := ram[dir][i := UserEntry(t)]]
  }

  /** A new table keeps the clone in progress in order. */
  lemma CloneTableStep(o: Origin, ram: Ram, used: set<nat>, l: Layout, i: nat, t: nat)
    requires OriginOk(o) && Cloning(o, ram, used, l)
    requires i in o.src.tables && i !in l.tables && t !in used && LOW <= t < PAGES
    ensures Cloning(o, TableAdded(ram, t, l.dir, i), used + {t}, WithTable(l, i, t))
  {
    var ram', touched := TableAdded(ram, t, l.dir, i), {t, l.dir};
    Apart(o, ram, used, l, t);
    TableHung(ram, ram', l, i, t, UserEntry(t));
    WithTableDistinct(l, i, t);
    FreshGrows(o.used, used, l, WithTable(l, i, t), t);
    CopiesKept(o.ram, o.src, ram, ram', l, touched);
    StillUndisturbed(o.ram, o.used, ram, ram', o.win, touched);
    OneSlotMore(o.ram[o.kernelPd], ram[l.dir], l, i, t);
    TableWritable(ram, l, i, t);
  }

  lemma OneSlotMore(kernel: Frame, dir: Frame, l: Layout, i: nat, t: nat)
    requires KernelMapped(kernel, dir, l.tables.Keys) && i < WORDS
    ensures KernelMapped(kernel, dir[i := UserEntry(t)], WithTable(l, i, t).tables.Keys)
  {
    assert l.tables[i := t].Keys == l.tables.Keys + {i};
  }

  /** A directory with nothing but kernel mappings is an empty space. */
  lemma EmptySpace(ram: Ram, pd: nat, kernel: Frame)
    requires pd < |ram| && KernelMapped(kernel, ram[pd], {})
    ensures Lays(ram, Layout(pd, map[], map[]))
  {
    assert forall i: nat :: i < WORDS ==> ForKernel(kernel[i], ram[pd][i]);
  }

  /** Page `p` is copied to `f` through the windows, and `f` entered in table `t`. */
  ghost predicate PageCopied(ram: Ram, ram': Ram, p: nat, f: nat, win: nat, t: nat, j: nat)
    requires p < |ram| && f < |ram| && win < |ram| && t < |ram| && j < WORDS
  {
    && SameExcept(ram, ram', {f, win, t}) && ram'[f] == ram[p] && ram'[win] == Wiped(ram[win])
    && ram'[t] == ram[t][j := UserEntry(f)]
  }

  /** What copying page `p` to `f` and entering it in table `t` needs. */
  ghost predicate CopyOk(ram: Ram, used: set<nat>, kernelPd: nat, win: nat, p: nat, f: nat, t: nat)
  {
    && |ram| == PAGES && kernelPd in used && win in used && kernelPd < MAPPED_FRAMES && win < MAPPED_FRAMES
    && win != kernelPd
    && ram[kernelPd][WINDOW_DIR].present && ram[kernelPd][WINDOW_DIR].frame == win
    && p < PAGES && f < PAGES && t < PAGES
    && p != win && f != win && f != kernelPd && f != p && t != f && t != win
  }

  lemma PageReady(o: Origin, ram: Ram, used: set<nat>, l: Layout, i: nat, j: nat, f: nat)
    requires OriginOk(o) && Cloning(o, ram, used, l) && i in l.tables && (i, j) in o.src.pages && f !in used
    requires f < PAGES
    requires o.src.pages[(i, j)] in o.used - {o.win}
    ensures CopyOk(ram, used + {f}, o.kernelPd, o.win, o.src.pages[(i, j)], f, l.tables[i])
  {
    Apart(o, ram, used, l, f);
    OwnedBy(l);
  }

  /** A copied page keeps the clone in progress in order. */
  lemma PageStep(o: Origin, ram: Ram, ram': Ram, used: set<nat>, l: Layout, i: nat, j: nat, f: nat)
    requires OriginOk(o) && Cloning(o, ram, used, l) && f !in used && LOW <= f < PAGES
    requires i in l.tables && j < WORDS && (i, j) in o.src.pages && (i, j) !in l.pages
    requires o.src.pages[(i, j)] in o.used - {o.win}
    requires PageCopied(ram, ram', o.src.pages[(i, j)], f, o.win, l.tables[i], j)
    ensures Cloning(o, ram', used + {f}, WithPage(l, i, j, f))
  {
    Apart(o, ram, used, l, f);
    OwnedBy(l);
    var touched := {f, o.win, l.tables[i]};
    assert touched == {f, o.win} + {l.tables[i]};
    PageEntered(ram, ram', l, i, j, f, UserEntry(f), {f, o.win});
    WithPageDistinct(l, i, j, f);
    FreshGrows(o.used, used, l, WithPage(l, i, j, f), f);
    CopiesKept(o.ram, o.src, ram, ram', l, touched);
    CopiesGrow(o.ram, o.src, ram', l, i, j, f);
    PageWritable(ram, ram', l, i, j, f, {f, o.win});
    StillUndisturbed(o.ram, o.used, ram, ram', o.win, touched);
  }

  // ---- The finished clone -----------------------------------------------

  /** Same pages with the same contents, in frames that were all free and are now the
      only ones taken. */
  ghost predicate IsClone(ram0: Ram, used0: set<nat>, src: Layout, ram: Ram, used: set<nat>, l: Layout)
  {
    && l.tables.Keys == src.tables.Keys && l.pages.Keys == src.pages.Keys
    && Copies(ram0, src, ram, l) && Distinct(l) && Fresh(used0, used, l)
  }

  lemma EnoughFrames(used0: set<nat>, used: set<nat>, l: Layout)
    requires Distinct(l) && Fresh(used0, used, l) && forall p :: p in used ==> p < PAGES
    ensures |used0| + Need(l) == |used| <= PAGES
  {
    OwnedCount(l);
    assert |used0 + Owned(l)| == |used0| + |Owned(l)|;
    Counts(used, PAGES);
  }

  lemma FewerFrames(l: Layout, src: Layout)
    requires l.tables.Keys <= src.tables.Keys && l.pages.Keys <= src.pages.Keys
    requires l.tables.Keys < src.tables.Keys || l.pages.Keys < src.pages.Keys
    ensures Need(l) < Need(src)
  {
    assert |l.tables| == |l.tables.Keys| && |src.tables| == |src.tables.Keys|;
    assert |l.pages| == |l.pages.Keys| && |src.pages| == |src.pages.Keys|;
    Subset(l.tables.Keys, src.tables.Keys);
    Subset(l.pages.Keys, src.pages.Keys);
    if l.tables.Keys < src.tables.Keys {
      ProperSubset(l.tables.Keys, src.tables.Keys);
    }
    if l.pages.Keys < src.pages.Keys {
      ProperSubset(l.pages.Keys, src.pages.Keys);
    }
  }

  // ---- Which frames are handed out --------------------------------------

  ghost predicate UsedUpTo(used: set<nat>, top: nat) { forall q: nat :: q < top ==> q in used }

  ghost predicate OwnedUnder(l: Layout, top: nat) { forall p :: p in Owned(l) ==> p < top }

  /** The layout has the lowest frames that were free. */
  ghost predicate Lowest(used: set<nat>, l: Layout)
  {
    exists top: nat :: UsedUpTo(used, top) && OwnedUnder(l, top)
  }

  lemma LowestGrows(used: set<nat>, l: Layout, l': Layout, f: nat)
    requires UsedUpTo(used, f) && f !in used && Lowest(used, l) && Owned(l') == Owned(l) + {f}
    ensures Lowest(used + {f}, l')
  {
    var top: nat :| UsedUpTo(used, top) && OwnedUnder(l, top);
    assert top <= f;
    assert UsedUpTo(used + {f}, f + 1) && OwnedUnder(l', f + 1);
  }

  /** When no mapped frame is left, the layout has taken all that were free. */
  lemma LowTaken(used0: set<nat>, used: set<nat>, l: Layout)
    requires Distinct(l) && Fresh(used0, used, l) && LowFull(used)
    ensures LowFree(used0) <= Need(l)
  {
    OwnedCount(l);
    LowUsed(used, MAPPED_FRAMES);
    Subset(UsedBelow(used, MAPPED_FRAMES), UsedBelow(used0, MAPPED_FRAMES) + Owned(l));
    UnionAtMost(UsedBelow(used0, MAPPED_FRAMES), Owned(l));
  }

  lemma PageTaken(o: Origin, used: set<nat>, l: Layout, i: nat, j: nat, f: nat)
    requires Distinct(l) && Fresh(o.used, used, l) && (i, j) !in l.pages && f !in used && UsedUpTo(used, f)
    requires Lowest(used, l)
    ensures Lowest(used + {f}, WithPage(l, i, j, f))
  {
    WithPageDistinct(l, i, j, f);
    LowestGrows(used, l, WithPage(l, i, j, f), f);
  }

  lemma TableTaken(o: Origin, used: set<nat>, l: Layout, i: nat, t: nat)
    requires Distinct(l) && Fresh(o.used, used, l) && i !in l.tables && t !in used && UsedUpTo(used, t)
    requires Lowest(used, l)
    ensures Lowest(used + {t}, WithTable(l, i, t))
  {
    WithTableDistinct(l, i, t);
    LowestGrows(used, l, WithTable(l, i, t), t);
  }

  /** When a mapped frame is handed out, it was left over by the layout. */
  lemma LowLeft(used0: set<nat>, used: set<nat>, l: Layout, t: nat)
    requires Distinct(l) && Fresh(used0, used, l) && Lowest(used, l) && t !in used && t < MAPPED_FRAMES
    ensures Need(l) < LowFree(used0)
  {
    OwnedCount(l);
    var top: nat :| UsedUpTo(used, top) && OwnedUnder(l, top);
    ThreeParts(UsedBelow(used0, MAPPED_FRAMES), Owned(l), t, MAPPED_FRAMES);
  }

  lemma ThreeParts(a: set<nat>, b: set<nat>, t: nat, n: nat)
    requires a !! b && t !in a && t !in b && t < n && (forall p :: p in a ==> p < n) && (forall p :: p in b ==> p < n)
    ensures |a| + |b| < n
  {
    assert |a + b + {t}| == |a| + |b| + 1;
    Counts(a + b + {t}, n);
  }

  /** A frame still to be had. */
  lemma OneLeft(used: set<nat>, t: nat, n: nat)
    requires t !in used && t < n && forall p :: p in used ==> p < n
    ensures |used| < n
  {
    ThreeParts(used, {}, t, n);
  }

  lemma LowFreeIs(used: set<nat>)
    ensures LowFull(used) ==> LowFree(used) == 0
    ensures forall t: nat :: t < MAPPED_FRAMES && t !in used ==> LowFree(used) > 0
  {
    if LowFull(used) { LowUsed(used, MAPPED_FRAMES); }
    forall t: nat | t < MAPPED_FRAMES && t !in used ensures LowFree(used) > 0 {
      OneLeft(UsedBelow(used, MAPPED_FRAMES), t, MAPPED_FRAMES);
    }
  }

  /** The part of a layout in the rows before `i`. */
  ghost function Front(src: Layout, i: nat): Layout
  {
    Layout(src.dir,
           map k | k in src.tables && k < i :: src.tables[k],
           map k | k in src.pages && k.0 < i :: src.pages[k])
  }

  /** The frames taken when the table of row `i` is asked for. */
  ghost function Before(src: Layout, i: nat): nat { Need(Front(src, i)) }

  /** The directory or some table would get a frame that is not mapped. */
  ghost predicate Faults(used: set<nat>, src: Layout)
  {
    || (LowFree(used) == 0 && Free(used) > 0)
    || exists i :: i in src.tables && LowFree(used) <= Before(src, i) < Free(used)
  }

  lemma BeforeIs(src: Layout, l: Layout, i: nat)
    requires SlotsBefore(src, l, i) && l.tables.Keys <= src.tables.Keys && l.pages.Keys <= src.pages.Keys
    ensures Before(src, i) == Need(l)
  {
    assert Front(src, i).tables.Keys == l.tables.Keys;
    assert Front(src, i).pages.Keys == l.pages.Keys;
    SameNeed(l, Front(src, i));
  }

  /** A later table is asked for after everything in `l`. */
  lemma BeforeLater(src: Layout, l: Layout, k: nat)
    requires l.tables.Keys <= src.tables.Keys && l.pages.Keys <= src.pages.Keys
    requires (forall i :: i in l.tables ==> i < k) && (forall i :: i in l.pages ==> i.0 < k)
    ensures Before(src, k) >= Need(l)
  {
    var f := Front(src, k);
    assert l.tables.Keys <= f.tables.Keys && l.pages.Keys <= f.pages.Keys;
    FrontNeed(l, f);
  }

  lemma FrontNeed(l: Layout, f: Layout)
    requires l.tables.Keys <= f.tables.Keys && l.pages.Keys <= f.pages.Keys
    ensures Need(l) <= Need(f)
  {
    Subset(l.tables.Keys, f.tables.Keys);
    Subset(l.pages.Keys, f.pages.Keys);
    assert |l.tables| == |l.tables.Keys| && |f.tables| == |f.tables.Keys|;
    assert |l.pages| == |l.pages.Keys| && |f.pages| == |f.pages.Keys|;
  }

  /** The tables of the rows before `i` got mapped frames. */
  ghost predicate Mapped(o: Origin, i: nat)
  {
    LowFree(o.used) > 0 && forall k :: k in o.src.tables && k < i ==> Before(o.src, k) < LowFree(o.used)
  }

  /** Out of frames at row `i`: no later table is asked for. */
  lemma StopsEarly(o: Origin, used: set<nat>, l: Layout, i: nat)
    requires Distinct(l) && Fresh(o.used, used, l) && Full(used) && Mapped(o, i) && forall p :: p in used ==> p < PAGES
    requires l.tables.Keys <= o.src.tables.Keys && l.pages.Keys <= o.src.pages.Keys
    requires forall k :: k in o.src.tables && i <= k ==> Before(o.src, k) >= Need(l)
    ensures !Faults(o.used, o.src)
  {
    EnoughFrames(o.used, used, l);
    Counts(used, PAGES);
  }

  /** With every mapped frame in use and the others free, a clone faults at its directory. */
  lemma FaultsAtDirectory(src: Layout)
    ensures Faults(Below(MAPPED_FRAMES), src)
  {
    LowFreeIs(Below(MAPPED_FRAMES));
  }

  /** With one mapped frame left and one above, the directory gets the mapped one and the
      first table faults. */
  lemma FaultsAtTable(used: set<nat>, last: nat, above: nat, src: Layout, i: nat)
    requires last < MAPPED_FRAMES <= above < PAGES && above !in used && forall p :: p in used ==> p < PAGES
    requires forall p: nat :: p < MAPPED_FRAMES ==> (p in used <==> p != last)
    requires i in src.tables && (forall k :: k in src.tables ==> i <= k) && forall k :: k in src.pages ==> i <= k.0
    ensures LowFree(used) == 1 && Faults(used, src)
  {
    LowUsed(used + {last}, MAPPED_FRAMES);
    assert UsedBelow(used + {last}, MAPPED_FRAMES) == UsedBelow(used, MAPPED_FRAMES) + {last};
    var front := Front(src, i);
    assert front.tables == map[] && front.pages == map[];
    ThreeParts(used, {last}, above, PAGES);
  }

  /** For example a space of one table, when all frames below 2047 are in use. */
  lemma OneTableFaults(n: nat, d: nat, t: nat)
    requires n == MAPPED_FRAMES - 1
    ensures Faults(Below(n), Layout(d, map[256 := t], map[]))
  {
    FaultsAtTable(Below(n), n, n + 1, Layout(d, map[256 := t], map[]), 256);
  }

  // ---- Destroying --------------------------------------------------------

  /** Frames that destroying a layout gives back. */
  ghost function Freeable(l: Layout): set<nat> { set p | p in Owned(l) && p >= LOW }

  /** A space whose directory and tables are different frames; its pages may be shared. */
  ghost predicate Destroyable(l: Layout)
  {
    && TablesDistinct(l) && Reachable(l) && (forall p :: p in Owned(l) ==> p < PAGES)
    && (forall k :: k in l.pages ==> k.0 in l.tables && k.1 < WORDS)
    && (forall k :: k in l.tables ==> k < USER_END)
  }

  /** The rows from `i` on are still as the layout says. */
  ghost predicate IntactFrom(ram: Ram, l: Layout, i: nat)
  {
    && l.dir < |ram|
    && (forall k: nat :: i <= k < USER_END ==> (Live(ram[l.dir][k]) <==> k in l.tables))
    && (forall k :: k in l.tables && i <= k ==>
      k < USER_END && ram[l.dir][k].frame == l.tables[k] < |ram| && RowLays(ram[l.tables[k]], l.pages, k))
  }

  /** Everything up to entry `j` of row `i` has been given back, and nothing but frames
      of the layout. */
  ghost predicate Freed(used0: set<nat>, used: set<nat>, l: Layout, i: nat, j: nat)
  {
    && used0 - Freeable(l) <= used <= used0
    && (forall k :: k in l.tables && k < i ==> l.tables[k] < LOW || l.tables[k] !in used)
    && (forall k :: k in l.pages && (k.0 < i || (k.0 == i && k.1 < j)) ==> l.pages[k] < LOW || l.pages[k] !in used)
  }

  lemma LaysIntact(ram: Ram, l: Layout, used: set<nat>)
    requires Lays(ram, l)
    ensures IntactFrom(ram, l, USER_FIRST) && Freed(used, used, l, USER_FIRST, 0)
  {
  }

  lemma FreedPage(used0: set<nat>, used: set<nat>, used': set<nat>, l: Layout, i: nat, j: nat)
    requires Freed(used0, used, l, i, j)
    requires used' == if (i, j) in l.pages && l.pages[(i, j)] >= LOW then used - {l.pages[(i, j)]} else used
    ensures Freed(used0, used', l, i, j + 1)
  {
    OwnedBy(l);
  }

  lemma FreedTable(used0: set<nat>, used: set<nat>, used': set<nat>, l: Layout, i: nat)
    requires Freed(used0, used, l, i, WORDS) && forall k :: k in l.pages ==> k.1 < WORDS
    requires used' == if i in l.tables && l.tables[i] >= LOW then used - {l.tables[i]} else used
    ensures Freed(used0, used', l, i + 1, 0)
  {
    OwnedBy(l);
  }

  lemma FreedEmptyRow(used0: set<nat>, used: set<nat>, l: Layout, i: nat)
    requires Freed(used0, used, l, i, 0) && i !in l.tables && forall k :: k in l.pages ==> k.0 in l.tables
    ensures Freed(used0, used, l, i + 1, 0)
  {
  }

  lemma FreedAll(used0: set<nat>, used: set<nat>, used': set<nat>, l: Layout)
    requires Freed(used0, used, l, USER_END, 0)
    requires forall k :: k in l.tables ==> k < USER_END
    requires forall k :: k in l.pages ==> k.0 in l.tables
    requires used' == if l.dir >= LOW then used - {l.dir} else used
    ensures used' == used0 - Freeable(l)
  {
    forall p | p in Freeable(l) ensures p !in used' {
      if p in l.tables.Values {
        var k :| k in l.tables && l.tables[k] == p;
      } else if p in l.pages.Values {
        var k :| k in l.pages && l.pages[k] == p;
      }
    }
  }

  /** A row taken down leaves the later rows as they were. */
  lemma LaterRows(ram: Ram, ram': Ram, l: Layout, i: nat)
    requires IntactFrom(ram, l, i) && TablesDistinct(l) && i in l.tables && i < USER_END
    requires SameExcept(ram, ram', {l.tables[i], l.dir})
    requires forall k: nat :: i < k < WORDS ==> ram'[l.dir][k] == ram[l.dir][k]
    ensures IntactFrom(ram', l, i + 1)
  {
    forall k | k in l.tables && i < k ensures ram'[l.tables[k]] == ram[l.tables[k]] {
      assert l.tables[k] in l.tables.Values;
    }
  }

  class Mmu {
    const pmm: Allocator
    /** The frame of the kernel's own page directory. */
    const kernelPd: nat
    var ram: Ram

    ghost predicate Valid()
      reads this, pmm
    {
      |ram| == PAGES && pmm.Valid() && kernelPd in pmm.used
    }

    ghost predicate Sized()
      reads this, pmm
    {
      |ram| == PAGES && pmm.Valid()
    }

    /** The page table behind the copy windows. */
    ghost function Window(): nat
      requires Valid()
      reads this, pmm
    {
      ram[kernelPd][WINDOW_DIR].frame
    }

    ghost predicate WindowReady()
      reads this, pmm
    {
      && Valid() && ram[kernelPd][WINDOW_DIR].present
      && Window() in pmm.used && Window() != kernelPd && Window() < MAPPED_FRAMES && kernelPd < MAPPED_FRAMES
    }

    constructor (pmm: Allocator, kernelPd: nat, ram: Ram)
      requires |ram| == PAGES && pmm.Valid() && kernelPd in pmm.used
      ensures Valid() && this.pmm == pmm && this.kernelPd == kernelPd && this.ram == ram
    {
      this.pmm, this.kernelPd, this.ram := pmm, kernelPd, ram;
    }

    method ZeroFrame(t: nat)
      requires |ram| == PAGES && t < PAGES
      modifies this
      ensures ram == old(ram)[t := Zeros()]
    {
      var j := 0;
      while j < WORDS
        invariant j <= WORDS && |ram| == PAGES && ram == old(ram)[t := ram[t]]
        invariant forall n :: 0 <= n < j ==> ram[t][n] == ZERO
      {
        ram := ram[t := ram[t][j := ZERO]];
        j := j + 1;
      }
      assert ram[t] == Zeros();
    }

    /** create_user_page_directory. */
    method CreateDirectory() returns (r: Outcome, pd: nat)
      requires Valid()
      modifies this, pmm
      ensures Valid()
      ensures r.Fault? <==> !Full(old(pmm.used)) && LowFull(old(pmm.used))
      ensures r.NoMemory? <==> Full(old(pmm.used))
      ensures !r.Done? ==> ram == old(ram)
      ensures r.NoMemory? ==> pmm.bits == old(pmm.bits) && pmm.used == old(pmm.used)
      ensures pmm.used == OneMoreUsed(old(pmm.used)) && (r.Done? ==> pd == NextPage(old(pmm.used)))
      ensures r.Done? ==>
        && LOW <= pd < MAPPED_FRAMES && pd !in old(pmm.used) && pmm.used == old(pmm.used) + {pd}
        && UsedUpTo(old(pmm.used), pd) && SameExcept(old(ram), ram, {pd})
      ensures r.Done? ==> KernelMapped(old(ram)[kernelPd], ram[pd], {})
      ensures r.Done? ==> Lays(ram, Layout(pd, map[], map[]))
    {
      pd := pmm.AllocPage();
      if pd == 0 { return NoMemory, pd; }
      if pd >= MAPPED_FRAMES { return Fault, pd; }
      ghost var kernel := ram[kernelPd];
      CopyEntries(pd);
      EmptySpace(ram, pd, kernel);
      r := Done;
    }

    /** The kernel's directory entries, without the user bit, into the new directory. */
    method CopyEntries(pd: nat)
      requires |ram| == PAGES && pd < PAGES && kernelPd < PAGES && pd != kernelPd
      modifies this
      ensures |ram| == PAGES && SameExcept(old(ram), ram, {pd})
      ensures KernelMapped(old(ram)[kernelPd], ram[pd], {})
    {
      var i: nat := 0;
      while i < WORDS
        invariant i <= WORDS && |ram| == PAGES && SameExcept(old(ram), ram, {pd})
        invariant forall n: nat :: n < i ==> ForKernel(old(ram)[kernelPd][n], ram[pd][n])
      {
        ram := ram[pd := ram[pd][i := Supervisor(ram[kernelPd][i])]];
        i := i + 1;
      }
    }

    /** map_user_page: enters page `p` at slot `i`, entry `j`, with a new table if the
        slot has none. */
    method MapUserPage(pd: nat, p: nat, i: nat, j: nat) returns (r: Outcome)
      requires Sized() && i < WORDS && j < WORDS && (pd != 0 ==> TablesApart(ram, pmm.used, pd))
      modifies this, pmm
      ensures Sized()
      ensures r.Fault? <==> pd != 0 && (pd >= MAPPED_FRAMES || !TableMapped(old(ram), old(pmm.used), pd, i))
      ensures r.NoMemory? <==> pd == 0 || (pd < MAPPED_FRAMES && !old(ram)[pd][i].present && Full(old(pmm.used)))
      ensures !r.Done? ==> ram == old(ram)
      ensures r.NoMemory? ==> pmm.used == old(pmm.used)
      ensures var asks := pd != 0 && pd < MAPPED_FRAMES && !old(ram)[pd][i].present;
        && pmm.used == (if asks then OneMoreUsed(old(pmm.used)) else old(pmm.used))
        && (r.Done? && asks ==> ram[pd][i].frame == NextPage(old(pmm.used)))
      ensures r.Done? ==> TablesApart(ram, pmm.used, pd) && Resolve(ram, pd, i, j) == Some(p)
      ensures r.Done? ==> ram[ram[pd][i].frame][j] == UserEntry(p)
      ensures r.Done? ==> ram[pd][i] == if old(ram)[pd][i].present then old(ram)[pd][i] else UserEntry(ram[pd][i].frame)
      ensures r.Done? ==> SameResolve(old(ram), ram, pd, i, j)
      ensures r.Done? ==> SameExcept(old(ram), ram, {pd, ram[pd][i].frame})
    {
      if pd == 0 { return NoMemory; }
      if pd >= MAPPED_FRAMES { return Fault; }
      if !ram[pd][i].present {
        r := AddTable(pd, i);
        if !r.Done? { return; }
      }
      var t := ram[pd][i].frame;
      if t >= MAPPED_FRAMES { return Fault; }
      EntrySet(ram, pmm.used, pd, i, j, p);
      ram := ram[t := ram[t][j := UserEntry(p)]];
      r := Done;
    }

    /** An empty table in a fresh frame becomes the table of slot `i`. */
    method AddTable(pd: nat, i: nat) returns (r: Outcome)
      requires Sized() && i < WORDS && pd != 0 && TablesApart(ram, pmm.used, pd) && !ram[pd][i].present
      modifies this, pmm
      ensures Sized() && pmm.used == OneMoreUsed(old(pmm.used))
      ensures r == GrowthOutcome(old(pmm.used)) && (!r.Done? ==> ram == old(ram))
      ensures r.Done? ==>
        var t := NextPage(old(pmm.used));
        && LOW <= t < MAPPED_FRAMES && t !in old(pmm.used)
        && SameExcept(old(ram), ram, {pd, t}) && TablesApart(ram, pmm.used, pd)
        && ram[pd][i] == UserEntry(t) && SameResolve(old(ram), ram, pd, WORDS, 0)
    {
      var t := pmm.AllocPage();
      if t == 0 { return NoMemory; }
      if t >= MAPPED_FRAMES { return Fault; }
      ZeroFrame(t);
      NewTableIsEmpty(old(ram), old(pmm.used), pd, i, t);
      ram := ram[pd := ram[pd][i := UserEntry(t)]];
      r := Done;
    }

    /** Copies a page through the two kernel windows, and unmaps them again. */
    method CopyPage(src: nat, dst: nat)
      requires WindowReady() && src < PAGES && dst < PAGES
      requires src != Window() && dst != Window() && dst != kernelPd && dst != src
      modifies this
      ensures WindowReady() && Window() == old(Window())
      ensures ram == old(ram)[dst := old(ram)[src]][Window() := Wiped(old(ram)[Window()])]
    {
      var win := ram[kernelPd][WINDOW_DIR].frame;
      ram := ram[win := ram[win][WINDOW_SRC := KernelEntry(src)]];
      ram := ram[win := ram[win][WINDOW_DST := KernelEntry(dst)]];
      ghost var mapped := ram;
      var b := 0;
      while b < WORDS
        invariant b <= WORDS && |ram| == PAGES && SameExcept(mapped, ram, {dst})
        invariant forall n :: 0 <= n < b ==> ram[dst][n] == mapped[src][n]
      {
        var s, d := ram[win][WINDOW_SRC].frame, ram[win][WINDOW_DST].frame;
        ram := ram[d := ram[d][b := ram[s][b]]];
        b := b + 1;
      }
      assert ram[dst] == old(ram)[src];
      ram := ram[win := ram[win][WINDOW_SRC := ZERO]];
      ram := ram[win := ram[win][WINDOW_DST := ZERO]];
      assert ram[win] == Wiped(old(ram)[win]);
    }

    /** The inner loop of the clone: copies the pages of one table. */
    method CloneRow(i: nat, s: nat, t: nat, ghost o: Origin, ghost l: Layout)
      returns (ok: bool, ghost l': Layout)
      requires pmm.Valid() && o.kernelPd == kernelPd && OriginOk(o) && Cloning(o, ram, pmm.used, l)
      requires Lowest(pmm.used, l)
      requires InRow(o, l, i, s, t) && RowsBefore(o.src, l, i, 0)
      modifies this, pmm
      ensures pmm.Valid() && Cloning(o, ram, pmm.used, l') && Lowest(pmm.used, l') && l'.dir == l.dir
      ensures l'.tables == l.tables
      ensures ok ==> RowsBefore(o.src, l', i, WORDS)
      ensures !ok ==> Full(pmm.used) && l'.pages.Keys < o.src.pages.Keys && forall k :: k in l'.pages ==> k.0 <= i
    {
      l', ok := l, true;
      var j: nat := 0;
      while j < WORDS && ok
        invariant j <= WORDS && pmm.Valid() && Cloning(o, ram, pmm.used, l') && Lowest(pmm.used, l')
        invariant l'.dir == l.dir && l'.tables == l.tables
        invariant ok ==> RowsBefore(o.src, l', i, j)
        invariant !ok ==> Full(pmm.used) && l'.pages.Keys < o.src.pages.Keys && forall k :: k in l'.pages ==> k.0 <= i
      {
        ok, l' := CloneEntry(i, j, s, t, o, l');
        j := j + 1;
      }
    }

    method CloneEntry(i: nat, j: nat, s: nat, t: nat, ghost o: Origin, ghost l: Layout)
      returns (ok: bool, ghost l': Layout)
      requires pmm.Valid() && o.kernelPd == kernelPd && OriginOk(o) && Cloning(o, ram, pmm.used, l)
      requires Lowest(pmm.used, l)
      requires InRow(o, l, i, s, t) && j < WORDS && RowsBefore(o.src, l, i, j)
      modifies this, pmm
      ensures pmm.Valid() && Cloning(o, ram, pmm.used, l') && Lowest(pmm.used, l') && l'.dir == l.dir
      ensures l'.tables == l.tables
      ensures ok ==> RowsBefore(o.src, l', i, j + 1)
      ensures !ok ==> Full(pmm.used) && l'.pages.Keys < o.src.pages.Keys && forall k :: k in l'.pages ==> k.0 <= i
    {
      SourceEntry(o, ram, i, j);
      l', ok := l, true;
      if !Live(ram[s][j]) {
        RowSkipped(o.src, l, i, j);
      } else {
        RowAdvanced(o.src, l, i, j, 0);
        ok, l' := TakeEntry(i, j, ram[s][j].frame, t, o, l);
      }
    }

    method TakeEntry(i: nat, j: nat, p: nat, t: nat, ghost o: Origin, ghost l: Layout)
      returns (ok: bool, ghost l': Layout)
      requires pmm.Valid() && o.kernelPd == kernelPd && OriginOk(o) && Cloning(o, ram, pmm.used, l)
      requires Lowest(pmm.used, l)
      requires i in l.tables && l.tables[i] == t && j < WORDS && RowsBefore(o.src, l, i, j)
      requires (i, j) in o.src.pages && (i, j) !in l.pages && o.src.pages[(i, j)] == p && p in o.used - {o.win}
      modifies this, pmm
      ensures pmm.Valid() && Cloning(o, ram, pmm.used, l') && Lowest(pmm.used, l') && l'.dir == l.dir
      ensures l'.tables == l.tables
      ensures ok ==> RowsBefore(o.src, l', i, j + 1)
      ensures !ok ==> Full(pmm.used) && l'.pages.Keys < o.src.pages.Keys && forall k :: k in l'.pages ==> k.0 <= i
    {
      ghost var used := pmm.used;
      var f := pmm.AllocPage();
      ok := f != 0;
      if ok {
        CloneInto(p, f, t, i, j, o, used, l);
        RowAdvanced(o.src, l, i, j, f);
        PageTaken(o, used, l, i, j, f);
        l' := WithPage(l, i, j, f);
      } else {
        RowStopped(o.src, l, i, j);
        l' := l;
      }
    }

    method CloneInto(
      p: nat, f: nat, t: nat, ghost i: nat, j: nat, ghost o: Origin, ghost used: set<nat>, ghost l: Layout)
      requires pmm.Valid() && o.kernelPd == kernelPd && OriginOk(o) && Cloning(o, ram, used, l)
      requires f !in used && LOW <= f < PAGES && pmm.used == used + {f} && i in l.tables && l.tables[i] == t
      requires j < WORDS && (i, j) in o.src.pages && (i, j) !in l.pages && o.src.pages[(i, j)] == p
      requires p in o.used - {o.win}
      modifies this
      ensures Cloning(o, ram, pmm.used, WithPage(l, i, j, f))
    {
      ghost var ram1 := ram;
      PageReady(o, ram, used, l, i, j, f);
      ClonePage(p, f, t, j, o.win);
      PageStep(o, ram1, ram, used, l, i, j, f);
    }

    method ClonePage(p: nat, f: nat, t: nat, j: nat, ghost win: nat)
      requires pmm.Valid() && CopyOk(ram, pmm.used, kernelPd, win, p, f, t) && j < WORDS
      modifies this
      ensures PageCopied(old(ram), ram, p, f, win, t, j)
    {
      CopyPage(p, f);
      ram := ram[t := ram[t][j := UserEntry(f)]];
    }

    /** The inner loop of destroy_user_address_space. */
    method FreeRow(i: nat, t: nat, ghost l: Layout, ghost used0: set<nat>)
      requires Sized() && t < PAGES && RowLays(ram[t], l.pages, i) && forall p :: p in Owned(l) ==> p < PAGES
      requires Freed(used0, pmm.used, l, i, 0)
      modifies this, pmm
      ensures Sized() && SameExcept(old(ram), ram, {t}) && Freed(used0, pmm.used, l, i, WORDS)
    {
      OwnedBy(l);
      var j: nat := 0;
      while j < WORDS
        invariant j <= WORDS && Sized() && SameExcept(old(ram), ram, {t})
        invariant forall n: nat :: j <= n < WORDS ==> ram[t][n] == old(ram)[t][n]
        invariant Freed(used0, pmm.used, l, i, j)
      {
        ghost var used := pmm.used;
        if Live(ram[t][j]) {
          pmm.FreePage(ram[t][j].frame);
          ram := ram[t := ram[t][j := ZERO]];
        }
        FreedPage(used0, used, pmm.used, l, i, j);
        j := j + 1;
      }
    }

    /** One turn of the outer loop: the row's pages, its table and its entry. */
    method FreeSlot(i: nat, pd: nat, ghost l: Layout, ghost used0: set<nat>)
      requires Sized() && pd == l.dir && USER_FIRST <= i < USER_END && IntactFrom(ram, l, i) && Destroyable(l)
      requires Freed(used0, pmm.used, l, i, 0)
      modifies this, pmm
      ensures Sized() && IntactFrom(ram, l, i + 1) && SameExcept(old(ram), ram, {pd} + l.tables.Values)
      ensures Freed(used0, pmm.used, l, i + 1, 0)
    {
      var pde := ram[pd][i];
      if !Live(pde) {
        FreedEmptyRow(used0, pmm.used, l, i);
        return;
      }
      ghost var ram1 := ram;
      OwnedBy(l);
      var t := pde.frame;
      FreeRow(i, t, l, used0);
      ghost var used := pmm.used;
      pmm.FreePage(t);
      FreedTable(used0, used, pmm.used, l, i);
      ram := ram[pd := ram[pd][i := ZERO]];
      LaterRows(ram1, ram, l, i);
    }

    method DestroySpace(pd: nat, ghost l: Layout)
      requires Sized() && pd != 0 && pd != kernelPd && pd == l.dir && Lays(ram, l) && Destroyable(l)
      modifies this, pmm
      ensures Sized() && pmm.used == old(pmm.used) - Freeable(l)
      ensures SameExcept(old(ram), ram, {pd} + l.tables.Values)
    {
      ghost var used0 := pmm.used;
      LaysIntact(ram, l, used0);
      var i := USER_FIRST;
      while i < USER_END
        invariant USER_FIRST <= i <= USER_END && Sized() && IntactFrom(ram, l, i)
        invariant SameExcept(old(ram), ram, {pd} + l.tables.Values) && Freed(used0, pmm.used, l, i, 0)
      {
        FreeSlot(i, pd, l, used0);
        i := i + 1;
      }
      ghost var used := pmm.used;
      pmm.FreePage(pd);
      FreedAll(used0, used, pmm.used, l);
    }

    /** destroy_user_address_space: gives back exactly the frames of the space, and does
        nothing for the null directory and the kernel's own. */
    method Destroy(pd: nat)
      requires Sized() && pd < PAGES
      requires pd != 0 && pd != kernelPd ==> Walkable(ram, pd) && Destroyable(LayoutOf(ram, pd))
      modifies this, pmm
      ensures Sized()
      ensures pd == 0 || pd == kernelPd ==> ram == old(ram) && pmm.bits == old(pmm.bits) && pmm.used == old(pmm.used)
      ensures pd != 0 && pd != kernelPd ==>
        && pmm.used == old(pmm.used) - old(Freeable(LayoutOf(ram, pd)))
        && SameExcept(old(ram), ram, old({pd} + LayoutOf(ram, pd).tables.Values))
    {
      if pd == 0 || pd == kernelPd { return; }
      LayoutLays(ram, pd);
      DestroySpace(pd, LayoutOf(ram, pd));
    }

    /** One turn of the clone's outer loop. */
    method CloneSlot(i: nat, srcPd: nat, dst: nat, ghost o: Origin, ghost l: Layout)
      returns (r: Outcome, ghost l': Layout)
      requires pmm.Valid() && o.kernelPd == kernelPd && OriginOk(o) && Cloning(o, ram, pmm.used, l)
      requires Lowest(pmm.used, l)
      requires srcPd == o.src.dir && dst == l.dir && USER_FIRST <= i < USER_END && SlotsBefore(o.src, l, i)
      requires Mapped(o, i) && Reachable(l)
      modifies this, pmm
      ensures pmm.Valid() && Turned(o, ram, pmm.used, r, l', i + 1) && l'.dir == l.dir
    {
      SourceSlot(o, ram, i);
      l', r := l, Done;
      if !Live(ram[srcPd][i]) {
        SlotSkipped(o.src, l, i);
      } else {
        r, l' := TakeSlot(i, ram[srcPd][i].frame, dst, o, l);
      }
    }

    method TakeSlot(i: nat, s: nat, dst: nat, ghost o: Origin, ghost l: Layout)
      returns (r: Outcome, ghost l': Layout)
      requires pmm.Valid() && o.kernelPd == kernelPd && OriginOk(o) && Cloning(o, ram, pmm.used, l)
      requires Lowest(pmm.used, l)
      requires dst == l.dir && USER_FIRST <= i < USER_END && SlotsBefore(o.src, l, i)
      requires i in o.src.tables && o.src.tables[i] == s && Mapped(o, i) && Reachable(l)
      modifies this, pmm
      ensures pmm.Valid() && Turned(o, ram, pmm.used, r, l', i + 1) && l'.dir == l.dir
    {
      ghost var used := pmm.used;
      var t := pmm.AllocPage();
      l' := l;
      if t == 0 {
        r := NoMemory;
        NoTable(o, ram, used, l, i);
      } else if t >= MAPPED_FRAMES {
        r := Fault;
        HighTable(o, ram, used, l, i, t);
      } else {
        LowTable(o, used, l, i, t);
        r, l' := FillSlot(i, s, dst, t, o, used, l);
      }
    }

    method FillSlot(i: nat, s: nat, dst: nat, t: nat, ghost o: Origin, ghost used: set<nat>, ghost l: Layout)
      returns (r: Outcome, ghost l': Layout)
      requires pmm.Valid() && o.kernelPd == kernelPd && OriginOk(o) && Cloning(o, ram, used, l) && Lowest(used, l)
      requires dst == l.dir && USER_FIRST <= i < USER_END && SlotsBefore(o.src, l, i)
      requires i in o.src.tables && o.src.tables[i] == s && Mapped(o, i + 1) && Reachable(l)
      requires t !in used && LOW <= t < MAPPED_FRAMES && pmm.used == used + {t} && UsedUpTo(used, t)
      modifies this, pmm
      ensures pmm.Valid() && Turned(o, ram, pmm.used, r, l', i + 1) && l'.dir == l.dir
    {
      HangTable(i, dst, t, o, used, l);
      var ok;
      ok, l' := CloneRow(i, s, t, o, WithTable(l, i, t));
      if ok {
        r := Done;
        RowIn(o, ram, pmm.used, l, l', i, t);
      } else {
        r := NoMemory;
        RowOut(o, ram, pmm.used, l, l', i, t);
      }
    }

    method HangTable(i: nat, dst: nat, t: nat, ghost o: Origin, ghost used: set<nat>, ghost l: Layout)
      requires pmm.Valid() && OriginOk(o) && Cloning(o, ram, used, l) && Lowest(used, l) && dst == l.dir
      requires USER_FIRST <= i < USER_END && SlotsBefore(o.src, l, i) && i in o.src.tables
      requires t !in used && LOW <= t < PAGES && pmm.used == used + {t} && UsedUpTo(used, t)
      modifies this
      ensures Cloning(o, ram, pmm.used, WithTable(l, i, t)) && Lowest(pmm.used, WithTable(l, i, t))
      ensures RowsBefore(o.src, WithTable(l, i, t), i, 0)
    {
      ghost var ram1 := ram;
      Apart(o, ram, used, l, t);
      ZeroFrame(t);
      ram := ram[dst := ram[dst][i := UserEntry(t)]];
      assert ram == TableAdded(ram1, t, dst, i);
      SlotOpened(o.src, l, i, t);
      CloneTableStep(o, ram1, used, l, i, t);
      TableTaken(o, used, l, i, t);
    }

    /** clone_user_address_space: a new space with the same pages, in frames that were
        free before; without enough free frames, nothing is taken. */
    method Clone(srcPd: nat) returns (r: Outcome, dst: nat)
      requires WindowReady() && srcPd < PAGES
      requires srcPd != 0 ==>
        && Walkable(ram, srcPd) && Reachable(LayoutOf(ram, srcPd))
        && Owned(LayoutOf(ram, srcPd)) <= pmm.used - {Window()}
      modifies this, pmm
      ensures Valid() && Undisturbed(old(ram), old(pmm.used), ram, old(Window()))
      ensures r.Fault? <==> srcPd != 0 && old(Faults(pmm.used, LayoutOf(ram, srcPd)))
      ensures r.NoMemory? <==>
        || srcPd == 0
        || (!old(Faults(pmm.used, LayoutOf(ram, srcPd))) && Free(old(pmm.used)) < Need(old(LayoutOf(ram, srcPd))))
      ensures r.NoMemory? ==> pmm.bits == old(pmm.bits) && pmm.used == old(pmm.used)
      ensures r.Done? ==> dst != 0 && Walkable(ram, dst) && Reachable(LayoutOf(ram, dst))
      ensures r.Done? ==> IsClone(old(ram), old(pmm.used), old(LayoutOf(ram, srcPd)), ram, pmm.used, LayoutOf(ram, dst))
      ensures r.Done? ==> KernelMapped(old(ram)[kernelPd], ram[dst], old(LayoutOf(ram, srcPd)).tables.Keys)
      ensures r.Done? ==> AllWritable(ram, LayoutOf(ram, dst))
    {
      if srcPd == 0 { return NoMemory, 0; }
      LayoutLays(ram, srcPd);
      r, dst := CloneSpace(srcPd, Origin(ram, pmm.used, LayoutOf(ram, srcPd), kernelPd, Window()));
      if r.NoMemory? { SameUsed(pmm.bits, old(pmm.bits), pmm.used); }
    }

    /** Destroying a clone restores the page bitmap exactly. */
    method CloneThenDestroy(srcPd: nat) returns (r: Outcome)
      requires WindowReady() && srcPd < PAGES
      requires srcPd != 0 ==>
        && Walkable(ram, srcPd) && Reachable(LayoutOf(ram, srcPd))
        && Owned(LayoutOf(ram, srcPd)) <= pmm.used - {Window()}
      modifies this, pmm
      ensures Sized() && (!r.Fault? ==> pmm.bits == old(pmm.bits))
    {
      var dst;
      r, dst := Clone(srcPd);
      if r.Done? {
        LayoutLays(ram, dst);
        FreshDestroyable(old(pmm.used), pmm.used, LayoutOf(ram, dst), kernelPd);
        Destroy(dst);
        SameUsed(pmm.bits, old(pmm.bits), pmm.used);
      }
    }

    method CloneSpace(srcPd: nat, ghost o: Origin) returns (r: Outcome, dst: nat)
      requires Valid() && OriginOk(o) && o.ram == ram && o.used == pmm.used && o.src.dir == srcPd
      requires o.kernelPd == kernelPd
      modifies this, pmm
      ensures Valid() && Undisturbed(o.ram, o.used, ram, o.win) && CloneResult(o, ram, pmm.used, r, dst)
    {
      r, dst := CreateDirectory();
      match r
      case NoMemory => NoRoom(o);
      case Fault => NoLowRoom(o);
      case Done =>
        ghost var l := Layout(dst, map[], map[]);
        CloneStart(o, ram, l);
        r := CloneRest(srcPd, dst, o, l);
    }

    method CloneRest(srcPd: nat, dst: nat, ghost o: Origin, ghost l: Layout) returns (r: Outcome)
      requires pmm.Valid() && o.kernelPd == kernelPd && OriginOk(o) && Cloning(o, ram, pmm.used, l)
      requires Lowest(pmm.used, l)
      requires dst != 0 && srcPd == o.src.dir && dst == l.dir && SlotsBefore(o.src, l, USER_FIRST)
      requires Mapped(o, USER_FIRST) && Reachable(l)
      modifies this, pmm
      ensures Valid() && Undisturbed(o.ram, o.used, ram, o.win) && CloneResult(o, ram, pmm.used, r, dst)
    {
      ghost var l';
      r, l' := CloneSlots(srcPd, dst, o, l);
      if r.Done? {
        CloneFinished(o, ram, pmm.used, l');
      } else if r.NoMemory? {
        ghost var ram1, used1 := ram, pmm.used;
        CloneFailed(o, ram, used1, l');
        DestroySpace(dst, l');
        CloneUndone(o, ram1, used1, l', ram, pmm.used);
      }
    }

    method CloneSlots(srcPd: nat, dst: nat, ghost o: Origin, ghost l: Layout) returns (r: Outcome, ghost l': Layout)
      requires pmm.Valid() && o.kernelPd == kernelPd && OriginOk(o) && Cloning(o, ram, pmm.used, l)
      requires Lowest(pmm.used, l)
      requires srcPd == o.src.dir && dst == l.dir && SlotsBefore(o.src, l, USER_FIRST)
      requires Mapped(o, USER_FIRST) && Reachable(l)
      modifies this, pmm
      ensures pmm.Valid() && Turned(o, ram, pmm.used, r, l', USER_END) && l'.dir == dst
    {
      l', r := l, Done;
      var i := USER_FIRST;
      while i < USER_END && r.Done?
        invariant USER_FIRST <= i <= USER_END && pmm.Valid() && Turned(o, ram, pmm.used, r, l', i) && l'.dir == dst
      {
        r, l' := CloneSlot(i, srcPd, dst, o, l');
        i := i + 1;
      }
    }
  }

  /** The clone after the rows before `i`: all done, stopped for want of frames, or at a
      table whose frame is not mapped. */
  ghost predicate Turned(o: Origin, ram: Ram, used: set<nat>, r: Outcome, l: Layout, i: nat)
  {
    match r
    case Done => Cloning(o, ram, used, l) && Reachable(l) && Lowest(used, l) && SlotsBefore(o.src, l, i) && Mapped(o, i)
    case NoMemory =>
      Cloning(o, ram, used, l) && Reachable(l) && Full(used) && Partial(o.src, l) && !Faults(o.used, o.src)
    case Fault => Undisturbed(o.ram, o.used, ram, o.win) && o.used <= used && Faults(o.used, o.src)
  }

  lemma NoTable(o: Origin, ram: Ram, used: set<nat>, l: Layout, i: nat)
    requires OriginOk(o) && Cloning(o, ram, used, l) && SlotsBefore(o.src, l, i) && i in o.src.tables
    requires Full(used) && Mapped(o, i) && Reachable(l)
    ensures Turned(o, ram, used, NoMemory, l, i + 1)
  {
    SlotStopped(o.src, l, i);
    forall k | k in o.src.tables && i <= k ensures Before(o.src, k) >= Need(l) { BeforeLater(o.src, l, k); }
    UsedInRange(o, used, l);
    StopsEarly(o, used, l, i);
  }

  lemma UsedInRange(o: Origin, used: set<nat>, l: Layout)
    requires OriginOk(o) && Fresh(o.used, used, l)
    ensures forall p :: p in used ==> p < PAGES
  {
  }

  lemma HighTable(o: Origin, ram: Ram, used: set<nat>, l: Layout, i: nat, t: nat)
    requires OriginOk(o) && Cloning(o, ram, used, l) && SlotsBefore(o.src, l, i) && i in o.src.tables
    requires MAPPED_FRAMES <= t < PAGES && t !in used && UsedUpTo(used, t)
    ensures Turned(o, ram, used + {t}, Fault, l, i + 1)
  {
    BeforeIs(o.src, l, i);
    UsedInRange(o, used, l);
    EnoughFrames(o.used, used, l);
    OneLeft(used, t, PAGES);
    LowTaken(o.used, used, l);
    FaultsAt(o, i);
  }

  lemma FaultsAt(o: Origin, i: nat)
    requires i in o.src.tables && LowFree(o.used) <= Before(o.src, i) < Free(o.used)
    ensures Faults(o.used, o.src)
  {
  }

  lemma LowTable(o: Origin, used: set<nat>, l: Layout, i: nat, t: nat)
    requires Distinct(l) && Fresh(o.used, used, l) && Lowest(used, l) && SlotsBefore(o.src, l, i)
    requires l.tables.Keys <= o.src.tables.Keys && l.pages.Keys <= o.src.pages.Keys
    requires t < MAPPED_FRAMES && t !in used && Mapped(o, i)
    ensures Mapped(o, i + 1)
  {
    BeforeIs(o.src, l, i);
    LowLeft(o.used, used, l, t);
  }

  lemma RowIn(o: Origin, ram: Ram, used: set<nat>, l: Layout, l': Layout, i: nat, t: nat)
    requires SlotsBefore(o.src, l, i) && Mapped(o, i + 1) && Reachable(l) && t < MAPPED_FRAMES && l'.dir == l.dir
    requires Cloning(o, ram, used, l') && Lowest(used, l') && l'.tables == l.tables[i := t]
    requires RowsBefore(o.src, l', i, WORDS)
    ensures Turned(o, ram, used, Done, l', i + 1)
  {
    SlotDone(o.src, l, l', i, t);
  }

  lemma RowOut(o: Origin, ram: Ram, used: set<nat>, l: Layout, l': Layout, i: nat, t: nat)
    requires OriginOk(o) && SlotsBefore(o.src, l, i) && Mapped(o, i + 1) && Reachable(l) && t < MAPPED_FRAMES
    requires l'.dir == l.dir
    requires Cloning(o, ram, used, l') && l'.tables == l.tables[i := t] && forall k :: k in l'.pages ==> k.0 <= i
    requires Full(used) && l'.pages.Keys < o.src.pages.Keys
    ensures Turned(o, ram, used, NoMemory, l', i + 1)
  {
    UsedInRange(o, used, l');
    RowOutEarly(o, used, l', i);
  }

  lemma RowOutEarly(o: Origin, used: set<nat>, l: Layout, i: nat)
    requires Distinct(l) && Fresh(o.used, used, l) && Full(used) && Mapped(o, i + 1)
    requires forall p :: p in used ==> p < PAGES
    requires l.tables.Keys <= o.src.tables.Keys && l.pages.Keys <= o.src.pages.Keys
    requires (forall k :: k in l.tables ==> k <= i) && (forall k :: k in l.pages ==> k.0 <= i)
    ensures !Faults(o.used, o.src)
  {
    forall k | k in o.src.tables && i + 1 <= k ensures Before(o.src, k) >= Need(l) { BeforeLater(o.src, l, k); }
    StopsEarly(o, used, l, i + 1);
  }

  /** A clone; or too few frames, and none of them taken; or a fault. */
  ghost predicate CloneResult(o: Origin, ram: Ram, used: set<nat>, r: Outcome, dst: nat)
  {
    match r
    case NoMemory => used == o.used && Free(o.used) < Need(o.src) && !Faults(o.used, o.src)
    case Fault => Faults(o.used, o.src)
    case Done =>
      && o.kernelPd < |o.ram| && dst < |ram|
      && KernelMapped(o.ram[o.kernelPd], ram[dst], o.src.tables.Keys)
      && Walkable(ram, dst) && AllWritable(ram, LayoutOf(ram, dst))
      && dst != 0 && Walkable(ram, dst) && Reachable(LayoutOf(ram, dst)) && Free(o.used) >= Need(o.src)
      && IsClone(o.ram, o.used, o.src, ram, used, LayoutOf(ram, dst)) && !Faults(o.used, o.src)
  }

  lemma FreshDestroyable(used0: set<nat>, used: set<nat>, l: Layout, kernelPd: nat)
    requires Fresh(used0, used, l) && Distinct(l) && Reachable(l) && kernelPd in used0
    requires forall k :: k in l.pages ==> k.0 in l.tables && k.1 < WORDS
    requires forall k :: k in l.tables ==> k < USER_END
    ensures Destroyable(l) && l.dir != kernelPd && l.dir != 0 && used - Freeable(l) == used0
  {
    assert l.dir in Owned(l) && Freeable(l) == Owned(l);
  }

  /** A space all of whose frames were in use reads as before the clone, whether it is
      the source or any other. */
  lemma SpaceKept(ram0: Ram, used0: set<nat>, ram: Ram, win: nat, pd: nat)
    requires |ram0| == PAGES && Undisturbed(ram0, used0, ram, win)
    requires Walkable(ram0, pd) && Owned(LayoutOf(ram0, pd)) <= used0 - {win}
    requires forall p :: p in used0 ==> p < PAGES
    ensures Walkable(ram, pd) && LayoutOf(ram, pd) == LayoutOf(ram0, pd)
    ensures forall p :: p in Owned(LayoutOf(ram0, pd)) ==> ram[p] == ram0[p]
  {
    var l := LayoutOf(ram0, pd);
    LayoutLays(ram0, pd);
    OwnedKept(ram0, used0, ram, win, l);
    LaysIsLayout(ram, l);
  }

  lemma OwnedKept(ram0: Ram, used0: set<nat>, ram: Ram, win: nat, l: Layout)
    requires |ram0| == PAGES && Undisturbed(ram0, used0, ram, win) && Lays(ram0, l) && Owned(l) <= used0 - {win}
    requires forall p :: p in used0 ==> p < PAGES
    ensures Lays(ram, l) && forall p :: p in Owned(l) ==> ram[p] == ram0[p]
  {
    OwnedBy(l);
  }

  lemma NoRoom(o: Origin)
    requires OriginOk(o) && Full(o.used)
    ensures Free(o.used) < Need(o.src) && !Faults(o.used, o.src)
  {
    Counts(o.used, PAGES);
  }

  lemma NoLowRoom(o: Origin)
    requires OriginOk(o) && !Full(o.used) && LowFull(o.used)
    ensures Faults(o.used, o.src)
  {
    LowFreeIs(o.used);
    var f: nat :| f < PAGES && f !in o.used;
    OneLeft(o.used, f, PAGES);
  }

  lemma CloneStart(o: Origin, ram: Ram, l: Layout)
    requires OriginOk(o) && LOW <= l.dir < MAPPED_FRAMES && l.dir !in o.used && l.tables == map[] && l.pages == map[]
    requires SameExcept(o.ram, ram, {l.dir}) && Lays(ram, l) && UsedUpTo(o.used, l.dir)
    requires KernelMapped(o.ram[o.kernelPd], ram[l.dir], {})
    ensures Cloning(o, ram, o.used + {l.dir}, l) && SlotsBefore(o.src, l, USER_FIRST)
    ensures Lowest(o.used + {l.dir}, l) && Mapped(o, USER_FIRST) && Reachable(l)
  {
    assert Owned(l) == {l.dir};
    EmptyLowest(o, l);
    LowFreeIs(o.used);
  }

  lemma EmptyLowest(o: Origin, l: Layout)
    requires UsedUpTo(o.used, l.dir) && l.tables == map[] && l.pages == map[]
    ensures Lowest(o.used + {l.dir}, l)
  {
    assert UsedUpTo(o.used + {l.dir}, l.dir + 1) && OwnedUnder(l, l.dir + 1);
  }

  lemma CloneFinished(o: Origin, ram: Ram, used: set<nat>, l: Layout)
    requires OriginOk(o) && Cloning(o, ram, used, l) && SlotsBefore(o.src, l, USER_END) && Mapped(o, USER_END)
    ensures Walkable(ram, l.dir) && LayoutOf(ram, l.dir) == l && IsClone(o.ram, o.used, o.src, ram, used, l)
    ensures KernelMapped(o.ram[o.kernelPd], ram[l.dir], o.src.tables.Keys) && AllWritable(ram, l)
    ensures Free(o.used) >= Need(o.src) && !Faults(o.used, o.src)
  {
    LaysIsLayout(ram, l);
    SlotsDone(o.src, l);
    EnoughFrames(o.used, used, l);
    SameNeed(l, o.src);
  }

  lemma SameNeed(l: Layout, src: Layout)
    requires l.tables.Keys == src.tables.Keys && l.pages.Keys == src.pages.Keys
    ensures Need(l) == Need(src)
  {
    assert |l.tables| == |l.tables.Keys| && |src.tables| == |src.tables.Keys|;
    assert |l.pages| == |l.pages.Keys| && |src.pages| == |src.pages.Keys|;
  }

  lemma CloneFailed(o: Origin, ram: Ram, used: set<nat>, l: Layout)
    requires OriginOk(o) && Cloning(o, ram, used, l) && Reachable(l) && Full(used) && Partial(o.src, l)
    ensures Destroyable(l) && l.dir != 0 && l.dir != o.kernelPd && Free(o.used) < Need(o.src)
  {
    OwnedBy(l);
    EnoughFrames(o.used, used, l);
    Counts(used, PAGES);
    FewerFrames(l, o.src);
  }

  /** Destroying what a clone has built so far restores the used frames. */
  lemma CloneUndone(o: Origin, ram: Ram, used: set<nat>, l: Layout, ram': Ram, used': set<nat>)
    requires OriginOk(o) && Cloning(o, ram, used, l)
    requires used' == used - Freeable(l) && SameExcept(ram, ram', {l.dir} + l.tables.Values)
    ensures used' == o.used && Undisturbed(o.ram, o.used, ram', o.win)
  {
    assert Freeable(l) == Owned(l);
  }

  /** All source tables and pages of the rows under `i` are in the clone, and no others. */
  ghost predicate SlotsBefore(src: Layout, l: Layout, i: nat)
  {
    && RowsBefore(src, l, i, 0)
    && (forall k :: k in l.tables ==> k < i) && (forall k :: k in src.tables && k < i ==> k in l.tables)
    && (forall k :: k in src.pages ==> k.0 in src.tables && k.1 < WORDS)
  }

  /** Some table or page of the source is missing. */
  ghost predicate Partial(src: Layout, l: Layout)
  {
    l.tables.Keys < src.tables.Keys || l.pages.Keys < src.pages.Keys
  }

  lemma SlotSkipped(src: Layout, l: Layout, i: nat)
    requires SlotsBefore(src, l, i) && i !in src.tables
    ensures SlotsBefore(src, l, i + 1)
  {
  }

  lemma SlotStopped(src: Layout, l: Layout, i: nat)
    requires SlotsBefore(src, l, i) && i in src.tables && l.tables.Keys <= src.tables.Keys
    ensures Partial(src, l)
  {
    assert i in src.tables.Keys && i !in l.tables.Keys;
  }

  lemma SlotOpened(src: Layout, l: Layout, i: nat, t: nat)
    requires SlotsBefore(src, l, i)
    ensures i !in l.tables && RowsBefore(src, WithTable(l, i, t), i, 0)
  {
  }

  lemma SlotDone(src: Layout, l: Layout, l': Layout, i: nat, t: nat)
    requires SlotsBefore(src, l, i) && l'.tables == l.tables[i := t] && RowsBefore(src, l', i, WORDS)
    ensures SlotsBefore(src, l', i + 1)
  {
  }

  lemma SlotsDone(src: Layout, l: Layout)
    requires SlotsBefore(src, l, USER_END) && forall k :: k in src.tables ==> k < USER_END
    requires l.tables.Keys <= src.tables.Keys && l.pages.Keys <= src.pages.Keys
    ensures l.tables.Keys == src.tables.Keys && l.pages.Keys == src.pages.Keys
  {
  }

  lemma SourceSlot(o: Origin, ram: Ram, i: nat)
    requires OriginOk(o) && Undisturbed(o.ram, o.used, ram, o.win) && USER_FIRST <= i < USER_END
    ensures o.src.dir < PAGES && (Live(ram[o.src.dir][i]) <==> i in o.src.tables)
    ensures i in o.src.tables ==> ram[o.src.dir][i].frame == o.src.tables[i]
  {
    OwnedBy(o.src);
  }
}
