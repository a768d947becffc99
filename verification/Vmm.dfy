/** The virtual memory manager of kernel/src/vmm.c, writing page tables in physical memory. */
module Vmm {
  import opened FreePages
  import opened Options
  import opened PageTables
  import opened AddressSpaces
  import opened MapOutcomes
  import opened MemoryRuns
  import Pmm

  class Manager {
    var pmm: Pmm.Allocator
    var mem: Memory
    var kernelRoot: nat
    /** Which frames serve as tables of which level. */
    ghost var level: map<nat, nat>

    ghost predicate Valid()
      reads this, pmm, pmm.bitmap
    {
      pmm.Valid() && Forest(State())
    }

    ghost function State(): World
      requires pmm.Valid()
      reads this, pmm, pmm.bitmap
    {
      World(mem, pmm.Free(), kernelRoot, level)
    }

    /** `vmm_init`: `cr3` is the top table the boot loader left active. */
    constructor (pmm: Pmm.Allocator, mem: Memory, cr3: nat, ghost level: map<nat, nat>)
      requires pmm.Valid() && Forest(World(mem, pmm.Free(), cr3, level))
      ensures this.pmm == pmm && Valid() && State() == World(mem, pmm.Free(), cr3, level)
    {
      this.pmm := pmm;
      this.mem := mem;
      this.kernelRoot := cr3;
      this.level := level;
    }

    /** `get_or_create_table`; NULL is None. `depth` is the level of `parent`. */
    method GetOrCreateTable(parent: nat, index: nat, flags: nat, ghost depth: nat) returns (table: Option<nat>)
      requires pmm.Valid() && index < 512 && 2 <= depth <= 4
      requires parent in mem && pmm.Free() <= mem.Keys && parent !in pmm.Free()
      requires forall f <- mem :: |mem[f]| == 512
      modifies this`mem, this`level, pmm.bitmap
      ensures pmm.Valid() && (State(), table) == Ensure(old(State()), parent, depth, index, flags)
    {
      if Present(mem[parent][index]) {
        return Some(SoftwareFrame(mem[parent][index]));
      }
      var page := pmm.AllocPage();
      if page == 0 { return None; }
      var frame := page / PAGE_SIZE;
      mem := Poke(mem, parent, index, MakeEntry(page, flags));
      level := level[frame := depth - 1];
      ghost var linked := mem;
      for i := 0 to 512
        modifies this`mem
        invariant frame in mem && |mem[frame]| == 512 && mem == linked[frame := mem[frame]]
        invariant forall k | 0 <= k < i :: mem[frame][k] == 0
      {
        mem := Poke(mem, frame, i, 0);
      }
      assert mem[frame] == Empty();
      return Some(frame);
    }

    /** The same call as one step of the path to the leaf table of `virt`. */
    method NextTable(parent: nat, virt: nat, flags: nat, depth: nat) returns (table: Option<nat>)
      requires pmm.Valid() && 2 <= depth <= 4 && Backed(State()) && Followable(State(), parent, depth, virt)
      modifies this`mem, this`level, pmm.bitmap
      ensures pmm.Valid() && Backed(State())
      ensures table.Some? ==> Followable(State(), table.value, depth - 1, virt)
      ensures EnsurePath(old(State()), parent, depth, virt, flags)
              == if table.None? then (State(), OutAt(depth))
                 else EnsurePath(State(), table.value, depth - 1, virt, flags)
    {
      FollowStep(State(), parent, depth, virt, flags);
      table := GetOrCreateTable(parent, Slot(depth, virt), flags, depth);
    }

    /** The three calls of `vmm_map`; a NULL from the first two is read through by the next. */
    method LeafTable(root: nat, virt: nat, flags: nat) returns (end: PathEnd)
      requires pmm.Valid() && Backed(State()) && Followable(State(), root, 4, virt)
      modifies this`mem, this`level, pmm.bitmap
      ensures pmm.Valid() && Backed(State()) && (State(), end) == EnsurePath(old(State()), root, 4, virt, flags)
    {
      var pdpt := NextTable(root, virt, flags, 4);
      if pdpt.None? { return OutAt(4); }
      var pd := NextTable(pdpt.value, virt, flags, 3);
      if pd.None? { return OutAt(3); }
      var pt := NextTable(pd.value, virt, flags, 2);
      return if pt.None? then OutAt(2) else Leaf(pt.value);
    }

    /** `vmm_map` on the space whose top table is `vmm`, or on NULL, with any flags and past
        huge pages too, as long as the frames it follows are memory in use. */
    method Map(vmm: Option<nat>, virt: nat, phys: nat, flags: nat) returns (r: Outcome)
      requires pmm.Valid() && Backed(State()) && (vmm.Some? ==> Followable(State(), vmm.value, 4, virt))
      modifies this`mem, this`level, pmm.bitmap
      ensures pmm.Valid() && Backed(State())
      ensures vmm.None? ==> r == Inval && State() == old(State())
      ensures vmm.Some? ==> (State(), r) == MapPage(old(State()), vmm.value, virt, phys, flags)
    {
      if vmm.None? { return Inval; }
      var end := LeafTable(vmm.value, virt, flags);
      match end
      case OutAt(depth) => return if depth == 2 then NoMem else NullDeref;
      case Leaf(pt) =>
        mem := Poke(mem, pt, Slot(1, virt), MakeEntry(phys, flags));
        return Ok;
    }

    /** The same call on a forest, with no huge page in the way and flags fit for the tables it
        creates: it can follow its path, and leaves a forest. */
    method MapInForest(root: nat, virt: nat, phys: nat, flags: nat) returns (r: Outcome)
      requires Valid() && Mappable(State(), root, 4, virt, flags)
      modifies this`mem, this`level, pmm.bitmap
      ensures Valid() && (State(), r) == MapPage(old(State()), root, virt, phys, flags)
    {
      MapKeepsForest(State(), root, virt, phys, flags);
      ForestIsFollowable(State(), root, 4, virt);
      r := Map(Some(root), virt, phys, flags);
    }

    /** `vmm_create`: `heap` says whether kmalloc finds room for the descriptor. */
    method Create(heap: bool) returns (root: Option<nat>)
      requires Valid()
      modifies this`mem, this`level, pmm.bitmap
      ensures Valid()
      ensures !heap ==> State() == old(State()) && root == None
      ensures heap ==> (State(), root) == CreateSpace(old(State()))
    {
      if !heap { return None; }
      CreateKeepsForest(State());
      var page := pmm.AllocPage();
      if page == 0 { return None; }
      var frame := page / PAGE_SIZE;
      level := level[frame := 4];
      FillTopTable(frame);
      return Some(frame);
    }

    /** The two copy loops of `vmm_create`. */
    method FillTopTable(frame: nat)
      requires frame in mem && |mem[frame]| == 512 && frame != kernelRoot
      modifies this`mem
      ensures mem == old(mem)[frame := KernelCopy(old(mem), kernelRoot)]
    {
      ghost var before := mem;
      for i := 256 to 512
        invariant frame in mem && |mem[frame]| == 512 && mem == before[frame := mem[frame]]
        invariant forall k | 256 <= k < i :: mem[frame][k] == Peek(before, kernelRoot, k)
      {
        mem := Poke(mem, frame, i, Peek(mem, kernelRoot, i));
      }
      for i := 0 to 256
        invariant frame in mem && |mem[frame]| == 512 && mem == before[frame := mem[frame]]
        invariant forall k | 256 <= k < 512 :: mem[frame][k] == Peek(before, kernelRoot, k)
        invariant forall k | 0 <= k < i :: mem[frame][k] == 0
      {
        mem := Poke(mem, frame, i, 0);
      }
      assert mem[frame] == KernelCopy(before, kernelRoot);
    }
  }
}
