/** Which flags `vmm_map` can be given: it puts the leaf's flags on every table it creates. */
module PageFlags {
  import opened Bits
  import opened FreePages
  import opened Options
  import opened PageTables
  import opened AddressSpaces

  ghost predicate FreeFrames(w: World) {
    forall f <- w.free :: 0 < f && f in w.mem
  }

  /** Only `table` and frames that were free may have changed. */
  ghost predicate Below(w: World, w': World, end: PathEnd, table: nat) {
    && (forall f <- w.mem :: f != table && f !in w.free ==> f in w'.mem && w'.mem[f] == w.mem[f])
    && (end.Leaf? ==> end.table == table || end.table in w.free)
  }

  lemma {:induction false} BelowEmpty(w: World, table: nat, level: nat, va: nat, flags: nat)
    requires 1 <= level <= 4 && FreeFrames(w)
    requires table in w.mem && table !in w.free && w.mem[table] == Empty()
    ensures var p := EnsurePath(w, table, level, va, flags); Below(w, p.0, p.1, table)
    decreases level
  {
    if level > 1 {
      ZeroBit(0);
      if w.free == {} {
        assert EnsurePath(w, table, level, va, flags) == (w, OutAt(level));
      } else {
        var frame := Min(w.free);
        assert frame * PAGE_SIZE / PAGE_SIZE == frame;
        var w0 := World(w.mem, w.free - {frame}, w.kernel, w.level);
        var w1 := Install(w0, table, level, Slot(level, va), frame, flags);
        assert Ensure(w, table, level, Slot(level, va), flags) == (w1, Some(frame));
        BelowEmpty(w1, frame, level - 1, va, flags);
        assert EnsurePath(w, table, level, va, flags) == EnsurePath(w1, frame, level - 1, va, flags);
      }
    }
  }

  /** The walk from `table` is cut short, and tables beside or above it are untouched. */
  ghost predicate CutShort(w: World, w': World, end: PathEnd, table: nat, level: nat, va: nat, e: nat)
    requires 1 <= level <= 4
  {
    && (forall f <- w.level :: f != table && w.level[f] >= level ==> f in w.mem && f in w'.mem && w'.mem[f] == w.mem[f])
    && (end.Leaf? ==>
          && end.table in w.free
          && var t := Walk(WriteLeaf(w', end.table, Slot(1, va), e).mem, table, level, va);
          t.Mapped? ==> |t.path| < level)
  }

  /** With PAGE_HUGE in the flags, the first table entry created stops the walk. */
  lemma {:induction false} HugeStopsWalk(w: World, table: nat, level: nat, va: nat, flags: nat, e: nat)
    requires Forest(w) && 1 <= level <= 4 && table in w.level && w.level[table] == level
    requires PathClear(w.mem, table, level, va) && Descend(w.mem, table, level, va).Stuck? && Huge(flags)
    ensures var (w', end) := EnsurePath(w, table, level, va, flags); CutShort(w, w', end, table, level, va, e)
    decreases level
  {
    var i := Slot(level, va);
    if Present(w.mem[table][i]) {
      var c := Child(w, table, i);
      ChildIsHardware(w, table, i);
      HugeStopsWalk(w, c, level - 1, va, flags, e);
      var (w', end) := EnsurePath(w, c, level - 1, va, flags);
      CutBelow(w, w', end, table, level, va, e);
    } else if w.free == {} {
      assert EnsurePath(w, table, level, va, flags) == (w, OutAt(level));
    } else {
      EnsureInstalls(w, table, level, va, flags, Min(w.free));
      FirstHuge(w, table, level, va, flags, e, Min(w.free));
    }
  }

  lemma CutBelow(w: World, w': World, end: PathEnd, table: nat, level: nat, va: nat, e: nat)
    requires Forest(w) && 2 <= level <= 4 && table in w.level && w.level[table] == level
    requires Points(w, table, Slot(level, va))
    requires CutShort(w, w', end, Child(w, table, Slot(level, va)), level - 1, va, e)
    ensures CutShort(w, w', end, table, level, va, e)
  {
    var i := Slot(level, va);
    ChildIsHardware(w, table, i);
    assert w'.mem[table] == w.mem[table];
    if end.Leaf? { assert Peek(WriteLeaf(w', end.table, Slot(1, va), e).mem, table, i) == w.mem[table][i]; }
  }

  lemma FirstHuge(w: World, table: nat, level: nat, va: nat, flags: nat, e: nat, frame: nat)
    requires Forest(w) && 2 <= level <= 4 && table in w.level && w.level[table] == level
    requires frame in w.free && !Present(w.mem[table][Slot(level, va)]) && Huge(flags)
    ensures var w1 := Installed(w, table, Slot(level, va), frame, flags);
            var (w', end) := EnsurePath(w1, frame, level - 1, va, flags);
            CutShort(w, w', end, table, level, va, e)
  {
    var i := Slot(level, va);
    var w1 := Installed(w, table, i, frame, flags);
    assert w1.free == w.free - {frame};
    BelowEmpty(w1, frame, level - 1, va, flags);
    var (w', end) := EnsurePath(w1, frame, level - 1, va, flags);
    assert forall f <- w.level :: f in w1.mem && f != frame && f !in w1.free;
    if end.Leaf? {
      EntryBits(frame * PAGE_SIZE, flags, 7);
      HugeEntryStops(WriteLeaf(w', end.table, Slot(1, va), e).mem, table, level, va);
    }
  }

  lemma HugeEntryStops(mem: Memory, table: nat, level: nat, va: nat)
    requires 2 <= level <= 4 && Huge(Peek(mem, table, Slot(level, va)))
    ensures var t := Walk(mem, table, level, va); t.Mapped? ==> |t.path| < level
  {
  }

  /** A map that succeeds installs a 4-level translation to the requested page, if and only
      if the flags lack PAGE_HUGE or every table was already there. */
  lemma HugeFlagExactly(w: World, root: nat, va: nat, phys: nat, flags: nat)
    requires Forest(w) && IsSpace(w, root) && PathClear(w.mem, root, 4, va)
    requires flags < 4096 && MapPage(w, root, va, phys, flags).1 == Ok
    ensures var t := Translate(MapPage(w, root, va, phys, flags).0.mem, root, va);
            (t.Mapped? && |t.path| == 4 && t.path[3] == MakeEntry(phys, flags))
            <==> !Huge(flags) || Missing(w.mem, root, 4, va) == 0
  {
    if Huge(flags) && Descend(w.mem, root, 4, va).Stuck? {
      MissingSome(w.mem, root, 4, va);
      HugeStopsWalk(w, root, 4, va, flags, MakeEntry(phys, flags));
    } else {
      MapTranslates(w, root, va, phys, flags);
    }
  }

  lemma {:induction false} MissingSome(mem: Memory, table: nat, level: nat, va: nat)
    requires 1 <= level <= 4
    ensures Descend(mem, table, level, va).Stuck? <==> Missing(mem, table, level, va) > 0
    decreases level
  {
    if level > 1 {
      var e := Peek(mem, table, Slot(level, va));
      if Present(e) && !Huge(e) { MissingSome(mem, HardwareFrame(e), level - 1, va); }
    }
  }
}
