/** What one `vmm_map` promises about address spaces: its effect on every translation of every
    space. */
module AddressSpaces {
  import opened Bits
  import opened FreePages
  import opened PageTables

  // ----- One map -----

  ghost predicate IsSpace(w: World, r: nat) { r in w.level && w.level[r] == 4 }

  lemma MapKeepsForest(w: World, root: nat, va: nat, phys: nat, flags: nat)
    requires Forest(w) && Mappable(w, root, 4, va, flags)
    ensures var w' := MapPage(w, root, va, phys, flags).0; Forest(w') && Extends(w, w') && w'.free <= w.free
  {
    EnsurePathCorrect(w, root, 4, va, flags);
    var (w1, end) := EnsurePath(w, root, 4, va, flags);
    if end.Leaf? { LeafWriteKeepsForest(w1, end.table, Slot(1, va), MakeEntry(phys, flags)); }
  }

  /** Running out of memory leaves every translation as it was. */
  lemma FailedMapChangesNothing(w: World, root: nat, va: nat, phys: nat, flags: nat)
    requires Forest(w) && Mappable(w, root, 4, va, flags)
    ensures var (w', r) := MapPage(w, root, va, phys, flags); r != Ok ==> WalksKept(w, w')
  {
    EnsurePathCorrect(w, root, 4, va, flags);
  }

  /** A complete walk made of the upper entries that were there, then new ones, then the leaf. */
  ghost predicate PathAfterMap(t: Translation, before: seq<nat>, free: set<nat>, phys: nat, flags: nat) {
    && t.Mapped? && |t.path| == 4 && |before| <= 3 && before <= t.path && t.path[3] == MakeEntry(phys, flags)
    && forall k | |before| <= k < 3 :: FreshEntry(t.path[k], free, flags)
  }

  lemma MapTranslates(w: World, root: nat, va: nat, phys: nat, flags: nat)
    requires Forest(w) && Mappable(w, root, 4, va, flags)
    ensures var (w', r) := MapPage(w, root, va, phys, flags);
            r == Ok ==>
              PathAfterMap(Translate(w'.mem, root, va), Descend(w.mem, root, 4, va).passed, w.free, phys, flags)
  {
    EnsurePathCorrect(w, root, 4, va, flags);
    var p := EnsurePath(w, root, 4, va, flags);
    if p.1.Leaf? {
      var d := Descend(p.0.mem, root, 4, va);
      EntryBits(phys, flags, 0);
      WalkToLeaf(p.0, root, va, MakeEntry(phys, flags));
      forall k | |Descend(w.mem, root, 4, va).passed| <= k < 3
        ensures FreshEntry((d.passed + [MakeEntry(phys, flags)])[k], w.free, flags)
      {
        assert FreshEntry(d.passed[k], w.free, flags);
      }
    }
  }

  lemma WalkToLeaf(w: World, root: nat, va: nat, e: nat)
    requires Forest(w) && IsSpace(w, root) && Present(e)
    requires var d := Descend(w.mem, root, 4, va); d.Reached? && d.table in w.level && w.level[d.table] == 1
    ensures var d := Descend(w.mem, root, 4, va);
            Translate(WriteLeaf(w, d.table, Slot(1, va), e).mem, root, va) == Mapped(d.passed + [e])
  {
    var d := Descend(w.mem, root, 4, va);
    var w' := WriteLeaf(w, d.table, Slot(1, va), e);
    LeafWriteDescent(w, d.table, Slot(1, va), e, root, va);
    WalkFromDescent(w'.mem, root, 4, va);
    assert Peek(w'.mem, d.table, Slot(1, va)) == e;
  }

  /** The leaf names the requested frame to the processor for every frame, if and only if the
      flags lie outside the address bits 12 to 51, as PAGE_NX (bit 63) does. */
  lemma LeafFrameExactly(flags: nat)
    ensures (forall frame: nat | frame < MAX_FRAME :: HardwareFrame(MakeEntry(frame * PAGE_SIZE, flags)) == frame)
            <==> flags / 4096 % MAX_FRAME == 0
  {
    if flags / 4096 % MAX_FRAME == 0 {
      forall frame: nat | frame < MAX_FRAME ensures HardwareFrame(MakeEntry(frame * PAGE_SIZE, flags)) == frame {
        FrameApart(frame, flags);
      }
    } else {
      EntryBits(0 * PAGE_SIZE, flags, 0);
      OrZero(flags / 4096);
      assert HardwareFrame(MakeEntry(0 * PAGE_SIZE, flags)) != 0;
    }
  }

  lemma FrameApart(frame: nat, flags: nat)
    requires frame < MAX_FRAME && flags / 4096 % MAX_FRAME == 0
    ensures HardwareFrame(MakeEntry(frame * PAGE_SIZE, flags)) == frame
  {
    var high := flags / 4096 / MAX_FRAME;
    EntryBits(frame * PAGE_SIZE, flags, 0);
    assert flags / 4096 == high * MAX_FRAME;
    OrAboveFrame(frame, high);
  }

  lemma OrAboveFrame(frame: nat, high: nat)
    requires frame < MAX_FRAME
    ensures BitOr(frame, high * MAX_FRAME) % MAX_FRAME == frame
  {
    OrIsSum(frame, high);
    SumModulo(frame, high);
  }

  lemma OrIsSum(frame: nat, high: nat)
    requires frame < MAX_FRAME
    ensures BitOr(frame, high * MAX_FRAME) == frame + high * MAX_FRAME
  {
    Pow2At40();
    OrApart(frame, high, 40);
  }

  lemma SumModulo(frame: nat, high: nat)
    requires frame < MAX_FRAME
    ensures (frame + high * MAX_FRAME) % MAX_FRAME == frame
  {
  }

  /** The leaf maps the requested frame, with the requested flags and PAGE_PRESENT. */
  lemma LeafIsAsRequested(phys: nat, flags: nat, b: nat)
    requires flags / 4096 % MAX_FRAME == 0 && phys % 4096 == 0 && phys < 0x10_0000_0000_0000
    requires 0 < b < 12 || 52 <= b
    ensures var e := MakeEntry(phys, flags);
            Present(e) && HardwareFrame(e) == phys / 4096 && (Bit(e, b) <==> Bit(flags, b))
  {
    FrameApart(phys / 4096, flags);
    assert Present(MakeEntry(phys, flags)) by { EntryBits(phys, flags, 0); }
    if b < 12 {
      EntryLowBit(phys / 4096, flags, b);
    } else {
      EntryBits(phys, flags, b);
      Pow2At40();
      HighBitClear(phys, 52, b);
    }
  }

  ghost predicate AllHave(path: seq<nat>, b: nat) { forall k | 0 <= k < |path| :: Bit(path[k], b) }

  /** The processor grants a right only if every entry on the path does. A map never widens
      an existing upper entry, so the page gets the right exactly when the tables that were
      already there carried it too. */
  lemma EffectiveRights(w: World, root: nat, va: nat, phys: nat, flags: nat, b: nat)
    requires Forest(w) && Mappable(w, root, 4, va, flags) && TableFlags(flags)
    requires phys % 4096 == 0 && phys < 0x10_0000_0000_0000 && 0 < b < 12
    ensures var (w', r) := MapPage(w, root, va, phys, flags);
            r == Ok ==>
              var t := Translate(w'.mem, root, va);
              && t.Mapped?
              && (AllHave(t.path, b) <==> Bit(flags, b) && AllHave(Descend(w.mem, root, 4, va).passed, b))
  {
    MapTranslates(w, root, va, phys, flags);
    var (w', r) := MapPage(w, root, va, phys, flags);
    if r == Ok {
      RightsOnPath(Translate(w'.mem, root, va), Descend(w.mem, root, 4, va).passed, w.free, phys, flags, b);
    }
  }

  lemma RightsOnPath(t: Translation, before: seq<nat>, free: set<nat>, phys: nat, flags: nat, b: nat)
    requires PathAfterMap(t, before, free, phys, flags) && TableFlags(flags) && 0 < b < 12
    requires phys % 4096 == 0 && phys < 0x10_0000_0000_0000
    ensures AllHave(t.path, b) <==> Bit(flags, b) && AllHave(before, b)
  {
    LeafIsAsRequested(phys, flags, b);
    forall k | |before| <= k < 3 ensures Bit(t.path[k], b) <==> Bit(flags, b) {
      assert FreshEntry(t.path[k], free, flags);
      var frame :| frame in free && t.path[k] == MakeEntry(frame * PAGE_SIZE, flags);
      EntryLowBit(frame, flags, b);
    }
    if AllHave(t.path, b) {
      assert Bit(t.path[3], b);
      forall k | 0 <= k < |before| ensures Bit(before[k], b) { assert t.path[k] == before[k]; }
    }
    if Bit(flags, b) && AllHave(before, b) {
      forall k | 0 <= k < 4 ensures Bit(t.path[k], b) { if k < |before| { assert t.path[k] == before[k]; } }
    }
  }

  /** Spaces `r` and `root` reach one and the same lower table through top slot `i`. */
  predicate SharesSlot(mem: Memory, r: nat, root: nat, i: nat)
    requires i < 512
  {
    && Present(Peek(mem, r, i)) && Present(Peek(mem, root, i))
    && SoftwareFrame(Peek(mem, r, i)) == SoftwareFrame(Peek(mem, root, i))
  }

  /** Two spaces that reach one level-1 table do so through one shared top-level child. */
  lemma SameTopChild(w: World, root: nat, r: nat, va: nat, vb: nat)
    requires Forest(w) && IsSpace(w, root) && IsSpace(w, r)
    requires Descend(w.mem, root, 4, va).Reached? && Descend(w.mem, r, 4, vb).Reached?
    requires Descend(w.mem, root, 4, va).table == Descend(w.mem, r, 4, vb).table
    ensures Points(w, root, Slot(4, va)) && Points(w, r, Slot(4, vb))
    ensures Child(w, root, Slot(4, va)) == Child(w, r, Slot(4, vb))
  {
    var i, j := Slot(4, va), Slot(4, vb);
    assert Points(w, root, i) && Points(w, r, j);
    ChildIsHardware(w, root, i);
    ChildIsHardware(w, r, j);
    DescentUnique(w, Child(w, root, i), Child(w, r, j), 3, va, vb);
  }

  lemma SharedBefore(w: World, w1: World, leaf: nat, root: nat, va: nat, flags: nat, r: nat)
    requires Forest(w) && Mappable(w, root, 4, va, flags) && IsSpace(w, r) && r != root
    requires PathResult(w, w1, Leaf(leaf), root, 4, va, flags)
    requires var i := Slot(4, va); Points(w1, root, i) && Points(w1, r, i) && Child(w1, root, i) == Child(w1, r, i)
    ensures SharesSlot(w.mem, r, root, Slot(4, va))
  {
    var i := Slot(4, va);
    assert w1.mem[r] == w.mem[r];
    assert Points(w, r, i) && Child(w, r, i) == Child(w1, r, i);
    if !Present(Peek(w.mem, root, i)) {
      var after := Descend(w1.mem, root, 4, va);
      assert after.passed[0] == w1.mem[root][i];
      assert FreshEntry(after.passed[0], w.free, flags);
      var frame :| frame in w.free && after.passed[0] == MakeEntry(frame * PAGE_SIZE, flags);
      TableEntry(frame, flags);
      assert false;
    }
  }

  /** A map changes one page of its own space, and that same page of the spaces that share
      the higher-half slot. Every other translation of every space keeps every entry, whether
      it was mapped or not and however many tables were created. */
  lemma MapChangesOnePage(w: World, root: nat, va: nat, phys: nat, flags: nat, r: nat, vb: nat)
    requires Forest(w) && Mappable(w, root, 4, va, flags) && IsSpace(w, r)
    requires !(SamePage(va, vb) && (r == root || (Slot(4, va) >= 256 && SharesSlot(w.mem, r, root, Slot(4, va)))))
    ensures Translate(MapPage(w, root, va, phys, flags).0.mem, r, vb) == Translate(w.mem, r, vb)
  {
    EnsurePathCorrect(w, root, 4, va, flags);
    var (w1, end) := EnsurePath(w, root, 4, va, flags);
    if end.Leaf? {
      var d := Descend(w1.mem, r, 4, vb);
      LeafWriteWalk(w1, end.table, Slot(1, va), MakeEntry(phys, flags), r, vb);
      if d.Reached? && d.table == end.table && Slot(1, vb) == Slot(1, va) {
        DescentUnique(w1, root, r, 4, va, vb);
        SlotsNamePage(va, vb);
        if r != root {
          SameTopChild(w1, root, r, va, vb);
          SharedBefore(w, w1, end.table, root, va, flags, r);
        }
        assert false;
      }
    }
  }
}
