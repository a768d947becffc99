/** What `vmm_map` does with any flags and on any path its own code can follow, huge pages
    included: the entry is masked and taken for a table whatever its flags say. */
module MapOutcomes {
  import opened Bits
  import opened FreePages
  import opened Options
  import opened PageTables

  /** Free frames are memory, and none is frame 0. */
  ghost predicate Backed(w: World) {
    && w.free <= w.mem.Keys && (forall f <- w.mem :: |w.mem[f]| == 512) && (forall f <- w.free :: 0 < f)
  }

  /** The frames that the code reads on its way down are memory and in use. */
  ghost predicate Followable(w: World, table: nat, level: nat, va: nat)
    requires 1 <= level <= 4
    decreases level
  {
    && table in w.mem && table !in w.free
    && (level > 1 ==>
          var e := Peek(w.mem, table, Slot(level, va));
          Present(e) ==> Followable(w, SoftwareFrame(e), level - 1, va))
  }

  /** How many tables the code finds missing. */
  function Holes(mem: Memory, table: nat, level: nat, va: nat): nat
    requires 1 <= level <= 4
    decreases level
  {
    if level == 1 then 0 else
    var e := Peek(mem, table, Slot(level, va));
    if Present(e) then Holes(mem, SoftwareFrame(e), level - 1, va) else level - 1
  }

  /** One call of `get_or_create_table` for any flags. */
  lemma FollowStep(w: World, table: nat, level: nat, va: nat, flags: nat)
    requires 2 <= level <= 4 && Backed(w) && Followable(w, table, level, va)
    ensures var s := Ensure(w, table, level, Slot(level, va), flags);
            var h := Holes(w.mem, table, level, va);
            && Backed(s.0)
            && (s.1.None? ==> EnsurePath(w, table, level, va, flags) == (s.0, OutAt(level)))
            && (s.1.None? ==> w.free == {} && h == level - 1)
            && (s.1.Some? ==>
                  && Followable(s.0, s.1.value, level - 1, va)
                  && EnsurePath(w, table, level, va, flags) == EnsurePath(s.0, s.1.value, level - 1, va, flags)
                  && Holes(s.0.mem, s.1.value, level - 1, va) - |s.0.free| == h - |w.free|)
  {
    var i := Slot(level, va);
    if !Present(Peek(w.mem, table, i)) && w.free != {} {
      var frame := Min(w.free);
      assert frame * PAGE_SIZE / PAGE_SIZE == frame;
      var s := Ensure(w, table, level, i, flags);
      assert s.1 == Some(frame) && s.0.mem[frame] == Empty() && s.0.free == w.free - {frame};
      EmptyTable(s.0, frame, level - 1, va);
    }
  }

  lemma EmptyTable(w: World, table: nat, level: nat, va: nat)
    requires 1 <= level <= 4 && table in w.mem && table !in w.free && w.mem[table] == Empty()
    ensures Followable(w, table, level, va) && Holes(w.mem, table, level, va) == level - 1
  {
    ZeroBit(0);
  }

  /** The descent reaches a leaf table exactly when there is a free page for every hole. */
  lemma {:induction false} PathOutcome(w: World, table: nat, level: nat, va: nat, flags: nat)
    requires 1 <= level <= 4 && Backed(w) && Followable(w, table, level, va)
    ensures var end := EnsurePath(w, table, level, va, flags).1;
            var h := Holes(w.mem, table, level, va);
            && (end.Leaf? <==> h <= |w.free|)
            && (end.OutAt? ==> end.level == h - |w.free| + 1)
    decreases level
  {
    if level > 1 {
      FollowStep(w, table, level, va, flags);
      var s := Ensure(w, table, level, Slot(level, va), flags);
      if s.1.Some? { PathOutcome(s.0, s.1.value, level - 1, va, flags); }
    }
  }

  /** The result code is decided by how many tables are missing and how many pages are free. */
  lemma MapOutcome(w: World, root: nat, va: nat, phys: nat, flags: nat)
    requires Backed(w) && Followable(w, root, 4, va)
    ensures var r := MapPage(w, root, va, phys, flags).1;
            var missing := Holes(w.mem, root, 4, va);
            && (r == Ok <==> missing <= |w.free|)
            && (r == NoMem <==> missing == |w.free| + 1)
            && (r == NullDeref <==> missing > |w.free| + 1)
  {
    PathOutcome(w, root, 4, va, flags);
  }

  /** In a forest, and with no huge page in the way, every path can be followed and the code
      and the processor miss the same tables. */
  lemma {:induction false} ForestIsFollowable(w: World, table: nat, level: nat, va: nat)
    requires Forest(w) && 1 <= level <= 4 && table in w.level && w.level[table] == level
    requires PathClear(w.mem, table, level, va)
    ensures Backed(w) && Followable(w, table, level, va)
    ensures Holes(w.mem, table, level, va) == Missing(w.mem, table, level, va)
    decreases level
  {
    if level > 1 && Points(w, table, Slot(level, va)) {
      ChildIsHardware(w, table, Slot(level, va));
      ForestIsFollowable(w, Child(w, table, Slot(level, va)), level - 1, va);
    }
  }
}
