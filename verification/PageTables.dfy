/** 4-level paging as the processor sees it (section 4.5 of the Intel 64 and IA-32
    Architectures Software Developer's Manual, volume 3A), and the page-table updates of
    kernel/src/vmm.c as functions on memory. Frames are physical page numbers; an entry is
    a 64-bit word as a natural number. */
module PageTables {
  import opened Bits
  import opened FreePages
  import opened Options

  type Table = seq<nat>
  type Memory = map<nat, Table>

  function Empty(): (t: Table)
    ensures |t| == 512 && forall i | 0 <= i < 512 :: t[i] == 0
  {
    seq(512, i => 0)
  }

  const MAX_FRAME: nat := 0x100_0000_0000

  // ----- Addresses and entries -----

  function Span(level: nat): nat
    requires 1 <= level <= 4
  {
    match level case 1 => 0x1000 case 2 => 0x20_0000 case 3 => 0x4000_0000 case _ => 0x80_0000_0000
  }

  /** PT_INDEX, PD_INDEX, PDPT_INDEX and PML4_INDEX for levels 1 to 4. */
  function Slot(level: nat, va: nat): (i: nat)
    requires 1 <= level <= 4
    ensures i < 512
  {
    va / Span(level) % 512
  }

  predicate SamePage(va: nat, vb: nat) {
    va % 0x1_0000_0000_0000 / 4096 == vb % 0x1_0000_0000_0000 / 4096
  }

  /** The four indices name the page of a 48-bit address and nothing less does. */
  lemma SlotsNamePage(va: nat, vb: nat)
    ensures SamePage(va, vb) <==> forall level: nat | 1 <= level <= 4 :: Slot(level, va) == Slot(level, vb)
  {
    SlotsOfPage(va); SlotsOfPage(vb);
    if forall level: nat | 1 <= level <= 4 :: Slot(level, va) == Slot(level, vb) {
      assert Slot(1, va) == Slot(1, vb) && Slot(2, va) == Slot(2, vb);
      assert Slot(3, va) == Slot(3, vb) && Slot(4, va) == Slot(4, vb);
    }
  }

  lemma SlotsOfPage(va: nat)
    ensures var p := va % 0x1_0000_0000_0000 / 4096;
            && Slot(1, va) == p % 512 && Slot(2, va) == p / 512 % 512
            && Slot(3, va) == p / 512 / 512 % 512 && Slot(4, va) == p / 512 / 512 / 512
  {
    var q := va / 4096;
    assert va / 0x20_0000 == q / 512;
    assert va / 0x4000_0000 == va / 0x20_0000 / 512;
    assert va / 0x80_0000_0000 == va / 0x4000_0000 / 512;
    PageOfHigher(q, va % 0x1_0000_0000_0000 / 4096, va / 0x1_0000_0000_0000);
  }

  /** Address bits from 48 on do not reach the indices. */
  lemma PageOfHigher(q: nat, p: nat, h: nat)
    requires q == p + h * 0x10_0000_0000
    ensures q / 512 == p / 512 + h * 0x800_0000
    ensures q / 512 / 512 == p / 512 / 512 + h * 0x4_0000
    ensures q / 512 / 512 / 512 == p / 512 / 512 / 512 + h * 512
  {
  }

  predicate Present(e: nat) { Bit(e, 0) }
  predicate Huge(e: nat) { Bit(e, 7) }

  /** PAGE_PRESENT is 1 and PAGE_HUGE is 128. */
  lemma FlagBits(e: nat)
    ensures (Present(e) <==> e % 2 == 1) && (Huge(e) <==> e / 128 % 2 == 1)
  {
    assert Bit(e, 7) == Bit(e / 2 / 2, 5) == Bit(e / 2 / 2 / 2 / 2, 3) == Bit(e / 2 / 2 / 2 / 2 / 2 / 2, 1);
    assert e / 2 / 2 / 2 / 2 / 2 / 2 / 2 == e / 128;
  }

  /** `entry & PAGE_MASK`: only the low 12 bits are dropped. */
  function SoftwareFrame(e: nat): nat { e / 4096 }

  /** Bits 12 to 51, the ones the processor uses. */
  function HardwareFrame(e: nat): nat { e / 4096 % MAX_FRAME }

  /** `addr | flags | PAGE_PRESENT` */
  function MakeEntry(addr: nat, flags: nat): nat { BitOr(BitOr(addr, flags), 1) }

  /** Flags that may be put on a table entry: the low 12 bits without PAGE_HUGE. */
  predicate TableFlags(flags: nat) { flags < 4096 && !Huge(flags) }

  lemma EntryBits(addr: nat, flags: nat, k: nat)
    ensures Bit(MakeEntry(addr, flags), k) <==> Bit(addr, k) || Bit(flags, k) || k == 0
    ensures SoftwareFrame(MakeEntry(addr, flags)) == BitOr(addr / 4096, flags / 4096)
  {
    OrBit(BitOr(addr, flags), 1, k);
    OrBit(addr, flags, k);
    if k > 0 { ZeroBit(k - 1); }
    OrShr(BitOr(addr, flags), 1, 12);
    OrShr(addr, flags, 12);
    ShrBy12(addr); ShrBy12(flags); ShrBy12(1); ShrBy12(MakeEntry(addr, flags));
    OrZero(BitOr(addr / 4096, flags / 4096));
  }

  /** Below bit 12 an entry for an aligned address carries the flags and nothing else. */
  lemma EntryLowBit(frame: nat, flags: nat, b: nat)
    requires 0 < b < 12
    ensures Bit(MakeEntry(frame * PAGE_SIZE, flags), b) <==> Bit(flags, b)
  {
    EntryBits(frame * PAGE_SIZE, flags, b);
    Pow2At12();
    ShiftedBitClear(frame, 12, b);
  }

  lemma TableEntry(frame: nat, flags: nat)
    requires TableFlags(flags)
    ensures var e := MakeEntry(frame * PAGE_SIZE, flags);
            && Present(e) && !Huge(e) && SoftwareFrame(e) == frame
            && (frame < MAX_FRAME ==> e < 0x10_0000_0000_0000 && HardwareFrame(e) == frame)
  {
    var e := MakeEntry(frame * PAGE_SIZE, flags);
    EntryFrame(frame * PAGE_SIZE, flags);
    assert Present(e) by { EntryBits(frame * PAGE_SIZE, flags, 0); }
    assert !Huge(e) by { EntryLowBit(frame, flags, 7); }
  }

  /** Flags in the low 12 bits leave the address alone, for the kernel and the processor. */
  lemma EntryFrame(addr: nat, flags: nat)
    requires flags < 4096
    ensures var e := MakeEntry(addr, flags);
            && SoftwareFrame(e) == addr / 4096
            && (addr < 0x10_0000_0000_0000 ==> e < 0x10_0000_0000_0000 && HardwareFrame(e) == addr / 4096)
  {
    assert SoftwareFrame(MakeEntry(addr, flags)) == addr / 4096 by {
      EntryBits(addr, flags, 0);
      OrZero(addr / 4096);
    }
  }

  /** Masking a table entry with PAGE_MASK gives back the table's address for every frame that
      can be a table, if and only if the flags fit in the low 12 bits; PAGE_NX (bit 63) does
      not. */
  lemma MaskRecoversAddressExactly(flags: nat)
    ensures (forall frame: nat | 0 < frame < MAX_FRAME :: SoftwareFrame(MakeEntry(frame * PAGE_SIZE, flags)) == frame)
            <==> flags < 4096
  {
    if flags < 4096 {
      forall frame: nat | 0 < frame < MAX_FRAME ensures SoftwareFrame(MakeEntry(frame * PAGE_SIZE, flags)) == frame {
        EntryBits(frame * PAGE_SIZE, flags, 0);
        OrZero(frame);
      }
    } else {
      var high := flags / 4096;
      EntryBits(1 * PAGE_SIZE, flags, 0);
      EntryBits(2 * PAGE_SIZE, flags, 0);
      OneOrTwo(high);
      assert SoftwareFrame(MakeEntry(1 * PAGE_SIZE, flags)) != 1 || SoftwareFrame(MakeEntry(2 * PAGE_SIZE, flags)) != 2;
    }
  }

  /** Nothing but zero leaves both 1 and 2 alone. */
  lemma OneOrTwo(high: nat)
    requires high > 0
    ensures BitOr(1, high) != 1 || BitOr(2, high) != 2
  {
    OrZero(high / 2);
    OrZero(1);
    assert BitOr(1, high) == 1 + 2 * BitOr(0, high / 2);
    assert high == 1 ==> BitOr(2, high) == 1 + 2 * BitOr(1, 0);
  }

  // ----- The page walk -----

  /** Unwritten frames read as zero; no theorem below depends on them. */
  function Peek(mem: Memory, frame: nat, i: nat): nat
    requires i < 512
  {
    if frame in mem && |mem[frame]| == 512 then mem[frame][i] else 0
  }

  function Poke(mem: Memory, frame: nat, i: nat, e: nat): Memory
    requires i < 512
  {
    if frame in mem && |mem[frame]| == 512 then
      var t: Table := mem[frame][i := e];
      mem[frame := t]
    else mem
  }

  /** Every entry the walk reads, from the top table to the leaf. */
  datatype Translation = Unmapped | Mapped(path: seq<nat>)

  function Walk(mem: Memory, table: nat, level: nat, va: nat): Translation
    requires 1 <= level <= 4
    decreases level
  {
    var e := Peek(mem, table, Slot(level, va));
    if !Present(e) || (level == 4 && Huge(e)) then Unmapped
    else if level == 1 || Huge(e) then Mapped([e])
    else match Walk(mem, HardwareFrame(e), level - 1, va)
      case Unmapped => Unmapped
      case Mapped(rest) => Mapped([e] + rest)
  }

  function Translate(mem: Memory, root: nat, va: nat): Translation { Walk(mem, root, 4, va) }

  /** Going down the tables without reading the leaf: the entries passed so far and, when
      none is missing, the level-1 table reached. */
  datatype Descent = Stuck(passed: seq<nat>) | Reached(passed: seq<nat>, table: nat)

  function Descend(mem: Memory, table: nat, level: nat, va: nat): (d: Descent)
    requires 1 <= level <= 4
    ensures |d.passed| <= level - 1 && (d.Reached? ==> |d.passed| == level - 1)
    decreases level
  {
    if level == 1 then Reached([], table)
    else
      var e := Peek(mem, table, Slot(level, va));
      if !Present(e) || Huge(e) then Stuck([])
      else
        var d := Descend(mem, HardwareFrame(e), level - 1, va);
        d.(passed := [e] + d.passed)
  }

  /** No huge page lies on the way down. */
  predicate PathClear(mem: Memory, table: nat, level: nat, va: nat)
    requires 1 <= level <= 4
    decreases level
  {
    level == 1 ||
    var e := Peek(mem, table, Slot(level, va));
    !Present(e) || (!Huge(e) && PathClear(mem, HardwareFrame(e), level - 1, va))
  }

  lemma {:induction false} WalkFromDescent(mem: Memory, table: nat, level: nat, va: nat)
    requires 1 <= level <= 4
    ensures var d := Descend(mem, table, level, va);
            && (d.Reached? ==>
                  var leaf := Peek(mem, d.table, Slot(1, va));
                  Walk(mem, table, level, va) == if Present(leaf) then Mapped(d.passed + [leaf]) else Unmapped)
            && (d.Stuck? && PathClear(mem, table, level, va) ==> Walk(mem, table, level, va) == Unmapped)
    decreases level
  {
    if level > 1 {
      var e := Peek(mem, table, Slot(level, va));
      if Present(e) && !Huge(e) {
        WalkFromDescent(mem, HardwareFrame(e), level - 1, va);
        var d := Descend(mem, HardwareFrame(e), level - 1, va);
        if d.Reached? {
          var leaf := Peek(mem, d.table, Slot(1, va));
          assert [e] + (d.passed + [leaf]) == ([e] + d.passed) + [leaf];
        }
      }
    }
  }

  // ----- Page-table updates -----

  /** Memory, the allocator's free pages, the kernel's top table, and which frames serve as
      tables of which level. */
  datatype World = World(mem: Memory, free: set<nat>, kernel: nat, level: map<nat, nat>)

  /** `get_or_create_table` */
  ghost function Ensure(w: World, table: nat, level: nat, i: nat, flags: nat): (World, Option<nat>)
    requires 2 <= level <= 4 && i < 512
  {
    var e := Peek(w.mem, table, i);
    if Present(e) then (w, Some(SoftwareFrame(e)))
    else
      var g := AllocPage(w.free);
      if g.addr == 0 then (w.(free := g.free), None)
      else (Install(w.(free := g.free), table, level, i, g.addr / PAGE_SIZE, flags), Some(g.addr / PAGE_SIZE))
  }

  function Install(w: World, table: nat, level: nat, i: nat, frame: nat, flags: nat): World
    requires 2 <= level <= 4 && i < 512
  {
    World(Poke(w.mem, table, i, MakeEntry(frame * PAGE_SIZE, flags))[frame := Empty()],
          w.free, w.kernel, w.level[frame := level - 1])
  }

  /** The level-1 table at the end of the path, or the level whose table could not be extended. */
  datatype PathEnd = Leaf(table: nat) | OutAt(level: nat)

  /** `get_or_create_table`, level after level. */
  ghost function EnsurePath(w: World, table: nat, level: nat, va: nat, flags: nat): (World, PathEnd)
    requires 1 <= level <= 4
    decreases level
  {
    if level == 1 then (w, Leaf(table))
    else
      var (w1, next) := Ensure(w, table, level, Slot(level, va), flags);
      if next.None? then (w1, OutAt(level)) else EnsurePath(w1, next.value, level - 1, va, flags)
  }

  /** NullDeref: one of the two upper calls returned NULL and the next one reads through it. */
  datatype Outcome = Ok | NoMem | Inval | NullDeref

  /** `vmm_map` with a non-null address space */
  ghost function MapPage(w: World, root: nat, va: nat, phys: nat, flags: nat): (World, Outcome) {
    var (w', end) := EnsurePath(w, root, 4, va, flags);
    match end
    case Leaf(pt) => (WriteLeaf(w', pt, Slot(1, va), MakeEntry(phys, flags)), Ok)
    case OutAt(level) => (w', if level == 2 then NoMem else NullDeref)
  }

  function WriteLeaf(w: World, table: nat, i: nat, e: nat): World
    requires i < 512
  {
    World(Poke(w.mem, table, i, e), w.free, w.kernel, w.level)
  }

  /** `vmm_create` once its descriptor is allocated: the new top table, or None. */
  ghost function CreateSpace(w: World): (World, Option<nat>) {
    var g := AllocPage(w.free);
    if g.addr == 0 then (w.(free := g.free), None)
    else
      var root := g.addr / PAGE_SIZE;
      (World(w.mem[root := KernelCopy(w.mem, w.kernel)], g.free, w.kernel, w.level[root := 4]), Some(root))
  }

  function KernelCopy(mem: Memory, kernel: nat): (t: Table)
    ensures |t| == 512
    ensures forall i: nat | i < 512 :: t[i] == if i < 256 then 0 else Peek(mem, kernel, i)
  {
    seq(512, i requires 0 <= i < 512 => if i < 256 then 0 else Peek(mem, kernel, i))
  }

  // ----- The ownership invariant -----

  /** Entry `i` of table frame `f` points to a lower table. */
  predicate Points(w: World, f: nat, i: nat) {
    && f in w.level && f in w.mem && |w.mem[f]| == 512 && 2 <= w.level[f] <= 4 && i < 512
    && Present(w.mem[f][i]) && !Huge(w.mem[f][i])
  }

  function Child(w: World, f: nat, i: nat): nat
    requires Points(w, f, i)
  {
    SoftwareFrame(w.mem[f][i])
  }

  /** Table frames are backed by memory and never free; free frames have usable addresses. */
  ghost predicate Reserved(w: World) {
    && w.level.Keys !! w.free && w.level.Keys <= w.mem.Keys && w.free <= w.mem.Keys
    && (forall f <- w.mem :: |w.mem[f]| == 512)
    && (forall f <- w.free :: 0 < f < MAX_FRAME)
    && (forall f <- w.level :: 1 <= w.level[f] <= 4)
    && w.kernel in w.level && w.level[w.kernel] == 4
  }

  /** A table entry leads one level down, to a frame recorded for that level. */
  ghost predicate Linked(w: World) {
    && (forall f: nat, i: nat :: Points(w, f, i) ==>
          && w.mem[f][i] < 0x10_0000_0000_0000
          && Child(w, f, i) in w.level && w.level[Child(w, f, i)] == w.level[f] - 1)
    && (forall f: nat, i: nat | f in w.level && f in w.mem && |w.mem[f]| == 512 && w.level[f] == 4 && i < 512 ::
          Present(w.mem[f][i]) ==> !Huge(w.mem[f][i]))
  }

  /** No frame serves two parents, except through one higher-half slot of several spaces. */
  ghost predicate Unshared(w: World) {
    forall f: nat, i: nat, g: nat, j: nat :: Points(w, f, i) && Points(w, g, j) && Child(w, f, i) == Child(w, g, j) ==>
      i == j && (f == g || (w.level[f] == 4 && i >= 256))
  }

  ghost predicate Forest(w: World) { Reserved(w) && Linked(w) && Unshared(w) }

  lemma ChildIsHardware(w: World, f: nat, i: nat)
    requires Linked(w) && Points(w, f, i)
    ensures HardwareFrame(w.mem[f][i]) == Child(w, f, i)
  {
  }

  /** Two ways down that end in the same level-1 table took the same turns. */
  lemma {:induction false} DescentUnique(w: World, f: nat, g: nat, level: nat, va: nat, vb: nat)
    requires Forest(w) && 1 <= level <= 4
    requires f in w.level && g in w.level && w.level[f] == level && w.level[g] == level
    requires Descend(w.mem, f, level, va).Reached? && Descend(w.mem, g, level, vb).Reached?
    requires Descend(w.mem, f, level, va).table == Descend(w.mem, g, level, vb).table
    ensures forall k: nat | 2 <= k <= level :: Slot(k, va) == Slot(k, vb)
    ensures f == g || (level == 4 && Slot(4, va) >= 256)
    decreases level
  {
    if level > 1 {
      var i, j := Slot(level, va), Slot(level, vb);
      assert Points(w, f, i) && Points(w, g, j);
      ChildIsHardware(w, f, i);
      ChildIsHardware(w, g, j);
      DescentUnique(w, Child(w, f, i), Child(w, g, j), level - 1, va, vb);
      assert Child(w, f, i) == Child(w, g, j);
    }
  }

  // ----- Writing a leaf -----

  lemma {:induction false} LeafWriteDescent(w: World, f: nat, i: nat, e: nat, g: nat, va: nat)
    requires Forest(w) && f in w.level && w.level[f] == 1 && i < 512 && g in w.level
    ensures Descend(WriteLeaf(w, f, i, e).mem, g, w.level[g], va) == Descend(w.mem, g, w.level[g], va)
    decreases w.level[g]
  {
    var k := w.level[g];
    if k > 1 && Points(w, g, Slot(k, va)) {
      ChildIsHardware(w, g, Slot(k, va));
      LeafWriteDescent(w, f, i, e, Child(w, g, Slot(k, va)), va);
    }
  }

  /** A leaf write reaches exactly the walks that end in that slot of that table. */
  lemma {:induction false} LeafWriteWalk(w: World, f: nat, i: nat, e: nat, g: nat, va: nat)
    requires Forest(w) && f in w.level && w.level[f] == 1 && i < 512 && g in w.level
    ensures var d := Descend(w.mem, g, w.level[g], va);
            !(d.Reached? && d.table == f && Slot(1, va) == i) ==>
              Walk(WriteLeaf(w, f, i, e).mem, g, w.level[g], va) == Walk(w.mem, g, w.level[g], va)
    decreases w.level[g]
  {
    var k := w.level[g];
    if k > 1 && Points(w, g, Slot(k, va)) {
      ChildIsHardware(w, g, Slot(k, va));
      LeafWriteWalk(w, f, i, e, Child(w, g, Slot(k, va)), va);
    }
  }

  lemma LeafWriteKeepsForest(w: World, f: nat, i: nat, e: nat)
    requires Forest(w) && f in w.level && w.level[f] == 1 && i < 512
    ensures Forest(WriteLeaf(w, f, i, e))
  {
    var w' := WriteLeaf(w, f, i, e);
    assert forall g: nat, j: nat :: Points(w', g, j) ==> Points(w, g, j) && w'.mem[g][j] == w.mem[g][j];
  }

  // ----- Adding a table -----

  /** Tables keep their level and present upper entries their value. */
  ghost predicate Extends(w: World, w': World) {
    && w'.kernel == w.kernel
    && (forall f <- w.level :: f in w'.level && w'.level[f] == w.level[f])
    && (forall f: nat, i: nat :: f in w.level && w.level[f] >= 2 && i < 512 && Present(Peek(w.mem, f, i)) ==>
          Peek(w'.mem, f, i) == Peek(w.mem, f, i))
  }

  /** Every walk from every table reads the same entries as before. */
  ghost predicate WalksKept(w: World, w': World) {
    forall g: nat, va: nat :: g in w.level && 1 <= w.level[g] <= 4 ==>
      Walk(w'.mem, g, w.level[g], va) == Walk(w.mem, g, w.level[g], va)
  }

  ghost predicate CanInstall(w: World, f: nat, i: nat, frame: nat, flags: nat) {
    && Forest(w) && f in w.level && 2 <= w.level[f] && i < 512
    && !Present(w.mem[f][i]) && frame in w.free && TableFlags(flags)
  }

  function Installed(w: World, f: nat, i: nat, frame: nat, flags: nat): World
    requires f in w.level && 2 <= w.level[f] <= 4 && i < 512
  {
    Install(World(w.mem, w.free - {frame}, w.kernel, w.level), f, w.level[f], i, frame, flags)
  }

  lemma InstallPoints(w: World, f: nat, i: nat, frame: nat, flags: nat)
    requires CanInstall(w, f, i, frame, flags)
    ensures var w' := Installed(w, f, i, frame, flags);
            && Points(w', f, i) && Child(w', f, i) == frame && w'.mem[f][i] < 0x10_0000_0000_0000
            && (forall g: nat, j: nat :: Points(w', g, j) ==>
                  (g == f && j == i) || (Points(w, g, j) && w'.mem[g][j] == w.mem[g][j]))
  {
    TableEntry(frame, flags);
    ZeroBit(0);
  }

  lemma InstallKeepsForest(w: World, f: nat, i: nat, frame: nat, flags: nat)
    requires CanInstall(w, f, i, frame, flags)
    ensures var w' := Installed(w, f, i, frame, flags);
            Forest(w') && Extends(w, w') && Points(w', f, i) && Child(w', f, i) == frame
  {
    var w' := Installed(w, f, i, frame, flags);
    InstallPoints(w, f, i, frame, flags);
    ZeroBit(0);
    assert Reserved(w');
    assert Linked(w');
    assert Unshared(w') by {
      forall g: nat, j: nat | Points(w', g, j) && !(g == f && j == i)
        ensures Child(w', g, j) != frame
      {
        assert Child(w, g, j) in w.level;
      }
    }
  }

  lemma {:induction false} InstallKeepsWalk(w: World, f: nat, i: nat, frame: nat, flags: nat, g: nat, va: nat)
    requires CanInstall(w, f, i, frame, flags) && g in w.level
    ensures Walk(Installed(w, f, i, frame, flags).mem, g, w.level[g], va) == Walk(w.mem, g, w.level[g], va)
    decreases w.level[g]
  {
    var k := w.level[g];
    if g == f && Slot(k, va) == i {
      TableEntry(frame, flags);
      ZeroBit(0);
    } else if k > 1 && Points(w, g, Slot(k, va)) {
      ChildIsHardware(w, g, Slot(k, va));
      InstallKeepsWalk(w, f, i, frame, flags, Child(w, g, Slot(k, va)), va);
    }
  }

  lemma InstallKeepsWalks(w: World, f: nat, i: nat, frame: nat, flags: nat)
    requires CanInstall(w, f, i, frame, flags)
    ensures WalksKept(w, Installed(w, f, i, frame, flags))
  {
    forall g: nat, va: nat | g in w.level && 1 <= w.level[g] <= 4
      ensures Walk(Installed(w, f, i, frame, flags).mem, g, w.level[g], va) == Walk(w.mem, g, w.level[g], va)
    {
      InstallKeepsWalk(w, f, i, frame, flags, g, va);
    }
  }

  // ----- The whole path -----

  ghost predicate FreshEntry(e: nat, free: set<nat>, flags: nat) {
    exists frame <- free :: e == MakeEntry(frame * PAGE_SIZE, flags)
  }

  /** What `vmm_map` needs of its caller: a real top table, no huge page in the way, and
      table-entry flags whenever a table has to be created. */
  ghost predicate Mappable(w: World, table: nat, level: nat, va: nat, flags: nat) {
    && 1 <= level <= 4 && table in w.level && w.level[table] == level
    && PathClear(w.mem, table, level, va)
    && (TableFlags(flags) || Descend(w.mem, table, level, va).Reached?)
  }

  /** How many tables `vmm_map` has to create. */
  function Missing(mem: Memory, table: nat, level: nat, va: nat): nat
    requires 1 <= level <= 4
  {
    level - 1 - |Descend(mem, table, level, va).passed|
  }

  ghost predicate PathBuilt(w: World, w': World, table: nat, level: nat, va: nat, flags: nat, leaf: nat)
    requires 1 <= level <= 4
  {
    var before, after := Descend(w.mem, table, level, va), Descend(w'.mem, table, level, va);
    && leaf in w'.level && w'.level[leaf] == 1
    && after.Reached? && after.table == leaf
    && before.passed <= after.passed
    && forall k | |before.passed| <= k < |after.passed| :: FreshEntry(after.passed[k], w.free, flags)
  }

  /** Everything `get_or_create_table` repeated down to level 1 leaves behind. */
  ghost predicate PathResult(w: World, w': World, end: PathEnd, table: nat, level: nat, va: nat, flags: nat)
    requires 1 <= level <= 4
  {
    && Forest(w') && Extends(w, w') && WalksKept(w, w') && w'.free <= w.free
    && (forall f <- w.level :: f != table && w.level[f] >= level ==> f in w.mem && f in w'.mem && w'.mem[f] == w.mem[f])
    && (end.Leaf? <==> Missing(w.mem, table, level, va) <= |w.free|)
    && (end.OutAt? ==> end.level == level - |Descend(w.mem, table, level, va).passed| - |w.free|)
    && (end.Leaf? ==> PathBuilt(w, w', table, level, va, flags, end.table))
  }

  lemma {:induction false} EnsurePathCorrect(w: World, table: nat, level: nat, va: nat, flags: nat)
    requires Forest(w) && Mappable(w, table, level, va, flags)
    ensures var p := EnsurePath(w, table, level, va, flags); PathResult(w, p.0, p.1, table, level, va, flags)
    decreases level, 1
  {
    if level == 1 {
      PathDone(w, table, va, flags);
    } else {
      EnsureStep(w, table, level, va, flags);
      var s := Ensure(w, table, level, Slot(level, va), flags);
      if s.1.None? {
        PathOut(w, table, level, va, flags);
      } else {
        PassOne(w, table, level, va, flags, s.0, s.1.value);
      }
    }
  }

  lemma {:induction false} PassOne(w: World, table: nat, level: nat, va: nat, flags: nat, w1: World, next: nat)
    requires Forest(w) && Mappable(w, table, level, va, flags) && level > 1
    requires (w1, Some(next)) == Ensure(w, table, level, Slot(level, va), flags)
    requires Forest(w1) && Mappable(w1, next, level - 1, va, flags)
    ensures var p := EnsurePath(w, table, level, va, flags); PathResult(w, p.0, p.1, table, level, va, flags)
    decreases level, 0
  {
    EnsurePathCorrect(w1, next, level - 1, va, flags);
    EnsureStep(w, table, level, va, flags);
    var p := EnsurePath(w1, next, level - 1, va, flags);
    if w1 == w {
      PassExisting(w, p.0, p.1, table, level, va, flags);
    } else {
      PassNew(w, p.0, p.1, table, level, va, flags, next);
    }
  }

  /** In the table where the path starts, only the slot of the address can change. */
  lemma OtherSlotsKept(w: World, table: nat, level: nat, va: nat, flags: nat, i: nat)
    requires Forest(w) && Mappable(w, table, level, va, flags) && level > 1 && i < 512 && i != Slot(level, va)
    ensures Peek(EnsurePath(w, table, level, va, flags).0.mem, table, i) == Peek(w.mem, table, i)
  {
    EnsureStep(w, table, level, va, flags);
    var s := Ensure(w, table, level, Slot(level, va), flags);
    if s.1.Some? {
      EnsureTouchesOneSlot(w, table, level, Slot(level, va), flags, i);
      PathBelowKeeps(s.0, s.1.value, level - 1, va, flags, table, i);
    }
  }

  lemma EnsureTouchesOneSlot(w: World, table: nat, level: nat, j: nat, flags: nat, i: nat)
    requires Forest(w) && 2 <= level <= 4 && table in w.level && w.level[table] == level && i < 512 && j < 512 && i != j
    ensures var w1 := Ensure(w, table, level, j, flags).0;
            Peek(w1.mem, table, i) == Peek(w.mem, table, i) && table in w1.level && w1.level[table] == level
  {
    if w.free != {} { assert Min(w.free) * PAGE_SIZE / PAGE_SIZE == Min(w.free); }
  }

  lemma PathBelowKeeps(w: World, next: nat, level: nat, va: nat, flags: nat, table: nat, i: nat)
    requires Forest(w) && Mappable(w, next, level, va, flags)
    requires table in w.level && w.level[table] == level + 1 && i < 512
    ensures Peek(EnsurePath(w, next, level, va, flags).0.mem, table, i) == Peek(w.mem, table, i)
  {
    EnsurePathCorrect(w, next, level, va, flags);
  }

  lemma PathDone(w: World, table: nat, va: nat, flags: nat)
    requires Forest(w) && table in w.level && w.level[table] == 1
    ensures PathResult(w, w, Leaf(table), table, 1, va, flags)
  {
  }

  lemma PathOut(w: World, table: nat, level: nat, va: nat, flags: nat)
    requires Forest(w) && 2 <= level <= 4 && table in w.level && w.level[table] == level
    requires w.free == {} && !Present(w.mem[table][Slot(level, va)])
    ensures PathResult(w, w, OutAt(level), table, level, va, flags)
  {
  }

  lemma EnsureInstalls(w: World, table: nat, level: nat, va: nat, flags: nat, frame: nat)
    requires Forest(w) && table in w.level && 2 <= level <= 4 && w.level[table] == level
    requires !Present(w.mem[table][Slot(level, va)]) && w.free != {} && frame == Min(w.free)
    ensures EnsurePath(w, table, level, va, flags)
            == EnsurePath(Installed(w, table, Slot(level, va), frame, flags), frame, level - 1, va, flags)
  {
    assert frame * PAGE_SIZE / PAGE_SIZE == frame;
  }

  /** One call of `get_or_create_table`, as a step of the path. */
  lemma EnsureStep(w: World, table: nat, level: nat, va: nat, flags: nat)
    requires Forest(w) && Mappable(w, table, level, va, flags) && level > 1
    ensures var i := Slot(level, va);
            var s := Ensure(w, table, level, i, flags);
            && Forest(s.0)
            && (s.1.Some? ==> Mappable(s.0, s.1.value, level - 1, va, flags)
                              && EnsurePath(w, table, level, va, flags)
                                 == EnsurePath(s.0, s.1.value, level - 1, va, flags))
            && (s.1.None? ==> s.0 == w && w.free == {} && !Present(w.mem[table][i])
                              && EnsurePath(w, table, level, va, flags) == (w, OutAt(level)))
            && (s.1.Some? && s.0 == w ==> Points(w, table, i) && s.1.value == Child(w, table, i))
            && (s.1.Some? && s.0 != w ==> CanInstall(w, table, i, s.1.value, flags)
                                          && s.0 == Installed(w, table, i, s.1.value, flags))
  {
    var i := Slot(level, va);
    if Present(w.mem[table][i]) {
      ChildIsHardware(w, table, i);
    } else if w.free != {} {
      var frame := Min(w.free);
      assert frame * PAGE_SIZE / PAGE_SIZE == frame;
      InstallKeepsForest(w, table, i, frame, flags);
      FreshTableIsBare(Installed(w, table, i, frame, flags), frame, level - 1, va);
    }
  }

  lemma FreshTableIsBare(w: World, table: nat, level: nat, va: nat)
    requires 1 <= level <= 4 && table in w.mem && w.mem[table] == Empty()
    ensures Descend(w.mem, table, level, va).passed == [] && PathClear(w.mem, table, level, va)
  {
    ZeroBit(0);
  }

  lemma PassExisting(w: World, w': World, end: PathEnd, table: nat, level: nat, va: nat, flags: nat)
    requires Forest(w) && Mappable(w, table, level, va, flags) && level > 1
    requires var i := Slot(level, va);
             Points(w, table, i) && PathResult(w, w', end, Child(w, table, i), level - 1, va, flags)
    ensures PathResult(w, w', end, table, level, va, flags)
  {
    var i := Slot(level, va);
    ChildIsHardware(w, table, i);
    if end.Leaf? { PathThrough(w, w, w', table, level, va, flags, end.table); }
  }

  lemma KeptTwice(w: World, w1: World, w': World)
    requires Extends(w, w1) && Extends(w1, w') && WalksKept(w, w1) && WalksKept(w1, w')
    ensures Extends(w, w') && WalksKept(w, w')
  {
  }

  lemma PassNew(w: World, w': World, end: PathEnd, table: nat, level: nat, va: nat, flags: nat, frame: nat)
    requires Mappable(w, table, level, va, flags) && level > 1 && CanInstall(w, table, Slot(level, va), frame, flags)
    requires var w1 := Installed(w, table, Slot(level, va), frame, flags);
             PathResult(w1, w', end, frame, level - 1, va, flags)
    ensures PathResult(w, w', end, table, level, va, flags)
  {
    var i := Slot(level, va);
    var w1 := Installed(w, table, i, frame, flags);
    InstallKeepsForest(w, table, i, frame, flags);
    InstallKeepsWalks(w, table, i, frame, flags);
    FreshTableIsBare(w1, frame, level - 1, va);
    KeptTwice(w, w1, w');
    assert |w1.free| == |w.free| - 1;
    assert Descend(w.mem, table, level, va).passed == [];
    if end.Leaf? { PathThrough(w, w1, w', table, level, va, flags, end.table); }
  }

  lemma PathThrough(w: World, w1: World, w': World, table: nat, level: nat, va: nat, flags: nat, leaf: nat)
    requires Forest(w) && Mappable(w, table, level, va, flags) && level > 1
    requires Forest(w1) && Forest(w') && Extends(w, w1) && Extends(w1, w') && w1.free <= w.free
    requires var i := Slot(level, va);
             && Points(w1, table, i) && PathBuilt(w1, w', Child(w1, table, i), level - 1, va, flags, leaf)
             && if Present(w.mem[table][i]) then w1 == w
                else FreshEntry(w1.mem[table][i], w.free, flags)
                     && Descend(w1.mem, Child(w1, table, i), level - 1, va).passed == []
    ensures PathBuilt(w, w', table, level, va, flags, leaf)
  {
    var i := Slot(level, va);
    assert Peek(w'.mem, table, i) == w1.mem[table][i];
    assert Points(w', table, i);
    ChildIsHardware(w', table, i);
    ChildIsHardware(w1, table, i);
    var before, after := Descend(w.mem, table, level, va), Descend(w'.mem, table, level, va);
    var sub := Descend(w1.mem, Child(w1, table, i), level - 1, va);
    var rest := Descend(w'.mem, Child(w1, table, i), level - 1, va);
    assert after.passed == [w1.mem[table][i]] + rest.passed;
    assert before.passed <= after.passed;
    forall k | |before.passed| <= k < |after.passed|
      ensures FreshEntry(after.passed[k], w.free, flags)
    {
      if k > 0 {
        assert FreshEntry(rest.passed[k - 1], w1.free, flags);
      }
    }
  }
}
