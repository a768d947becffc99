/** Creating address spaces, and what survives any run of the memory managers. */
module MemoryRuns {
  import opened Bits
  import opened FreePages
  import opened PageTables
  import opened AddressSpaces

  // ----- One creation -----

  lemma CreateKeepsForest(w: World)
    requires Forest(w)
    ensures var (w', r) := CreateSpace(w);
            && Forest(w') && Extends(w, w') && (r.None? <==> w.free == {})
            && (r.Some? ==> IsSpace(w', r.value) && r.value in w.free && r.value !in w.level)
            && (r.Some? ==> w'.mem == w.mem[r.value := KernelCopy(w.mem, w.kernel)])
  {
    if w.free != {} {
      var root := Min(w.free);
      assert root * PAGE_SIZE / PAGE_SIZE == root;
      var w' := CreateSpace(w).0;
      ZeroBit(0);
      forall g: nat, j: nat | Points(w', g, j)
        ensures if g == root then j >= 256 && Points(w, w.kernel, j) && w'.mem[g][j] == w.mem[w.kernel][j]
                else Points(w, g, j) && w'.mem[g][j] == w.mem[g][j]
      {
      }
      assert Linked(w');
      assert Unshared(w');
    }
  }

  lemma {:induction false} CreateKeepsWalk(w: World, root: nat, g: nat, va: nat)
    requires Forest(w) && g in w.level && root !in w.level
    ensures Walk(w.mem[root := KernelCopy(w.mem, w.kernel)], g, w.level[g], va) == Walk(w.mem, g, w.level[g], va)
    decreases w.level[g]
  {
    var k := w.level[g];
    if k > 1 && Points(w, g, Slot(k, va)) {
      ChildIsHardware(w, g, Slot(k, va));
      CreateKeepsWalk(w, root, Child(w, g, Slot(k, va)), va);
    }
  }

  /** A new space maps nothing in the lower half and what the kernel maps in the higher
      half; every existing space keeps every translation. */
  lemma CreatedSpace(w: World, va: nat)
    requires Forest(w)
    ensures var (w', r) := CreateSpace(w);
            && (r.Some? ==> Translate(w'.mem, r.value, va)
                            == if Slot(4, va) < 256 then Unmapped else Translate(w.mem, w.kernel, va))
            && forall s: nat :: IsSpace(w, s) ==> Translate(w'.mem, s, va) == Translate(w.mem, s, va)
  {
    CreateKeepsForest(w);
    var (w', r) := CreateSpace(w);
    ZeroBit(0);
    if r.Some? {
      forall s: nat | IsSpace(w, s) ensures Translate(w'.mem, s, va) == Translate(w.mem, s, va) {
        CreateKeepsWalk(w, r.value, s, va);
      }
      assert Peek(w'.mem, r.value, Slot(4, va)) == if Slot(4, va) < 256 then 0 else Peek(w'.mem, w.kernel, Slot(4, va));
      if Slot(4, va) >= 256 { assert IsSpace(w, w.kernel); }
    }
  }

  // ----- Runs -----

  /** `heap` says whether kmalloc finds room for the space's descriptor. */
  datatype Op = Create(heap: bool) | Map(root: nat, va: nat, phys: nat, flags: nat) | Alloc | Free(page: nat)

  ghost function Step(w: World, total: nat, op: Op): World {
    match op
    case Create(heap) => if heap then CreateSpace(w).0 else w
    case Map(root, va, phys, flags) => MapPage(w, root, va, phys, flags).0
    case Alloc => World(w.mem, AllocPage(w.free).free, w.kernel, w.level)
    case Free(page) => World(w.mem, FreePage(w.free, total, page * PAGE_SIZE), w.kernel, w.level)
  }

  /** Maps must not run into the unchecked NULL, and only pages that are not tables are freed. */
  ghost predicate Legal(w: World, op: Op) {
    match op
    case Map(root, va, phys, flags) =>
      Mappable(w, root, 4, va, flags) && Missing(w.mem, root, 4, va) <= |w.free| + 1
    case Free(page) => 0 < page < MAX_FRAME && page in w.mem && page !in w.level
    case _ => true
  }

  ghost function Run(w: World, total: nat, ops: seq<Op>): World
    decreases |ops|
  {
    if ops == [] then w else Run(Step(w, total, ops[0]), total, ops[1..])
  }

  ghost predicate LegalRun(w: World, total: nat, ops: seq<Op>)
    decreases |ops|
  {
    ops == [] || (Legal(w, ops[0]) && LegalRun(Step(w, total, ops[0]), total, ops[1..]))
  }

  lemma StepKeepsForest(w: World, total: nat, op: Op)
    requires Forest(w) && Legal(w, op)
    ensures Forest(Step(w, total, op)) && Extends(w, Step(w, total, op))
  {
    match op
    case Create(heap) => CreateKeepsForest(w);
    case Map(root, va, phys, flags) => MapKeepsForest(w, root, va, phys, flags);
    case Alloc => assert forall g: nat, j: nat :: Points(Step(w, total, op), g, j) ==> Points(w, g, j);
    case Free(page) =>
      assert page * PAGE_SIZE / PAGE_SIZE == page;
      assert forall g: nat, j: nat :: Points(Step(w, total, op), g, j) ==> Points(w, g, j);
  }

  /** Over every run the tables of all spaces stay a forest of used frames; tables keep
      their place and upper entries, once present, never change. */
  lemma {:induction false} RunKeepsForest(w: World, total: nat, ops: seq<Op>)
    requires Forest(w) && LegalRun(w, total, ops)
    ensures Forest(Run(w, total, ops)) && Extends(w, Run(w, total, ops))
    decreases |ops|
  {
    if ops != [] {
      StepKeepsForest(w, total, ops[0]);
      RunKeepsForest(Step(w, total, ops[0]), total, ops[1..]);
    }
  }

  /** So whatever page is granted next, it is no table of any space. */
  lemma GrantIsNeverATable(w: World, total: nat, ops: seq<Op>)
    requires Forest(w) && LegalRun(w, total, ops)
    ensures var w' := Run(w, total, ops);
            w'.free != {} ==> AllocPage(w'.free).addr != 0 && AllocPage(w'.free).addr / PAGE_SIZE !in w'.level
  {
    RunKeepsForest(w, total, ops);
    var w' := Run(w, total, ops);
    if w'.free != {} { assert Min(w'.free) * PAGE_SIZE / PAGE_SIZE == Min(w'.free); }
  }

  // ----- Isolation -----

  /** The operation does not map the page of `vb`, or does so in the lower half of another
      space than `r`. */
  predicate Misses(op: Op, r: nat, vb: nat) {
    op.Map? ==> !SamePage(op.va, vb) || (op.root != r && Slot(4, op.va) < 256)
  }

  lemma StepKeepsTranslation(w: World, total: nat, op: Op, r: nat, vb: nat)
    requires Forest(w) && Legal(w, op) && IsSpace(w, r) && Misses(op, r, vb)
    ensures Translate(Step(w, total, op).mem, r, vb) == Translate(w.mem, r, vb)
  {
    match op
    case Create(heap) => CreatedSpace(w, vb);
    case Map(root, va, phys, flags) => MapChangesOnePage(w, root, va, phys, flags, r, vb);
    case Alloc =>
    case Free(page) =>
  }

  /** A run changes a translation only if it maps that very page, in that space or in the
      higher half. */
  lemma {:induction false} RunKeepsTranslation(w: World, total: nat, ops: seq<Op>, r: nat, vb: nat)
    requires Forest(w) && LegalRun(w, total, ops) && IsSpace(w, r) && forall op <- ops :: Misses(op, r, vb)
    ensures Translate(Run(w, total, ops).mem, r, vb) == Translate(w.mem, r, vb)
    decreases |ops|
  {
    if ops != [] {
      assert ops[0] in ops;
      StepKeepsForest(w, total, ops[0]);
      StepKeepsTranslation(w, total, ops[0], r, vb);
      RunKeepsTranslation(Step(w, total, ops[0]), total, ops[1..], r, vb);
    }
  }

  /** The operation maps nothing into the lower half of space `r`. */
  predicate Avoids(op: Op, r: nat) {
    op.Map? && op.root == r ==> Slot(4, op.va) >= 256
  }

  /** No run of other spaces' maps, higher-half maps, creations, allocations and frees
      changes a lower-half translation of `r`. */
  lemma RunIsolates(w: World, total: nat, ops: seq<Op>, r: nat, vb: nat)
    requires Forest(w) && LegalRun(w, total, ops) && IsSpace(w, r) && Slot(4, vb) < 256
    requires forall op <- ops :: Avoids(op, r)
    ensures Translate(Run(w, total, ops).mem, r, vb) == Translate(w.mem, r, vb)
  {
    forall op | op in ops ensures Misses(op, r, vb) {
      if op.Map? { SlotsNamePage(op.va, vb); }
    }
    RunKeepsTranslation(w, total, ops, r, vb);
  }

  /** No run of lower-half maps, whichever spaces they are in, changes a higher-half
      translation of any space. */
  lemma LowerMapsKeepHigherHalf(w: World, total: nat, ops: seq<Op>, r: nat, vb: nat)
    requires Forest(w) && LegalRun(w, total, ops) && IsSpace(w, r) && Slot(4, vb) >= 256
    requires forall op <- ops :: op.Map? ==> Slot(4, op.va) < 256
    ensures Translate(Run(w, total, ops).mem, r, vb) == Translate(w.mem, r, vb)
  {
    forall op | op in ops ensures Misses(op, r, vb) {
      if op.Map? { SlotsNamePage(op.va, vb); }
    }
    RunKeepsTranslation(w, total, ops, r, vb);
  }

  // ----- Sharing -----

  /** Once two spaces hold the same present entry in a top slot, they agree on every
      address under it after every run, including what either maps there later. */
  lemma SharedSlotStaysShared(w: World, total: nat, ops: seq<Op>, r: nat, s: nat, va: nat)
    requires Forest(w) && LegalRun(w, total, ops) && IsSpace(w, r) && IsSpace(w, s)
    requires Present(Peek(w.mem, r, Slot(4, va))) && Peek(w.mem, r, Slot(4, va)) == Peek(w.mem, s, Slot(4, va))
    ensures var w' := Run(w, total, ops); Translate(w'.mem, r, va) == Translate(w'.mem, s, va)
  {
    RunKeepsForest(w, total, ops);
    var w' := Run(w, total, ops);
    assert Peek(w'.mem, r, Slot(4, va)) == Peek(w'.mem, s, Slot(4, va));
  }

  /** The operation maps nothing into space `r` under top slot `i`. */
  predicate AvoidsSlot(op: Op, r: nat, i: nat) {
    op.Map? && op.root == r ==> Slot(4, op.va) != i
  }

  lemma MapKeepsTopEntry(w: World, root: nat, va: nat, phys: nat, flags: nat, r: nat, i: nat)
    requires Forest(w) && Mappable(w, root, 4, va, flags) && IsSpace(w, r) && i < 512
    requires root == r ==> Peek(EnsurePath(w, root, 4, va, flags).0.mem, r, i) == Peek(w.mem, r, i)
    ensures Peek(MapPage(w, root, va, phys, flags).0.mem, r, i) == Peek(w.mem, r, i)
  {
    EnsurePathCorrect(w, root, 4, va, flags);
  }

  lemma StepKeepsSlot(w: World, total: nat, op: Op, r: nat, i: nat)
    requires Forest(w) && Legal(w, op) && IsSpace(w, r) && i < 512 && AvoidsSlot(op, r, i)
    ensures Peek(Step(w, total, op).mem, r, i) == Peek(w.mem, r, i)
  {
    match op
    case Create(heap) => CreateKeepsForest(w);
    case Map(root, va, phys, flags) =>
      if root == r { OtherSlotsKept(w, root, 4, va, flags, i); }
      MapKeepsTopEntry(w, root, va, phys, flags, r, i);
    case Alloc =>
    case Free(page) =>
  }

  lemma {:induction false} RunKeepsSlot(w: World, total: nat, ops: seq<Op>, r: nat, i: nat)
    requires Forest(w) && LegalRun(w, total, ops) && IsSpace(w, r) && i < 512
    requires forall op <- ops :: AvoidsSlot(op, r, i)
    ensures Peek(Run(w, total, ops).mem, r, i) == Peek(w.mem, r, i)
    decreases |ops|
  {
    if ops != [] {
      assert ops[0] in ops;
      StepKeepsForest(w, total, ops[0]);
      StepKeepsSlot(w, total, ops[0], r, i);
      RunKeepsSlot(Step(w, total, ops[0]), total, ops[1..], r, i);
    }
  }

  /** A top slot that is absent in `r` stays absent, and everything under it unmapped, over
      every run that maps nothing there through `r` itself, whatever other spaces and the
      kernel map under their own copies of that slot. */
  lemma LateSlotIsNotShared(w: World, total: nat, ops: seq<Op>, r: nat, va: nat)
    requires Forest(w) && LegalRun(w, total, ops) && IsSpace(w, r) && !Present(Peek(w.mem, r, Slot(4, va)))
    requires forall op <- ops :: AvoidsSlot(op, r, Slot(4, va))
    ensures var w' := Run(w, total, ops);
            !Present(Peek(w'.mem, r, Slot(4, va))) && Translate(w'.mem, r, va) == Unmapped
  {
    RunKeepsSlot(w, total, ops, r, Slot(4, va));
  }

  /** The life of a created space. Nothing mapped under a slot through the space itself, its
      lower half stays empty, and so does everything under a higher-half slot that the kernel
      lacked at creation. Where the kernel's slot was present the space follows the kernel,
      whatever either maps there. */
  lemma CreatedSpaceOverRuns(w: World, total: nat, ops: seq<Op>, va: nat)
    requires Forest(w) && w.free != {}
    requires LegalRun(CreateSpace(w).0, total, ops)
    ensures var (w1, r) := CreateSpace(w);
            var w' := Run(w1, total, ops);
            var shared := Slot(4, va) >= 256 && Present(Peek(w.mem, w.kernel, Slot(4, va)));
            && r.Some?
            && (shared ==> Translate(w'.mem, r.value, va) == Translate(w'.mem, w.kernel, va))
            && (!shared && (forall op <- ops :: AvoidsSlot(op, r.value, Slot(4, va))) ==>
                  Translate(w'.mem, r.value, va) == Unmapped)
  {
    CreateKeepsForest(w);
    var (w1, r) := CreateSpace(w);
    assert Peek(w1.mem, r.value, Slot(4, va)) == if Slot(4, va) < 256 then 0 else Peek(w.mem, w.kernel, Slot(4, va));
    ZeroBit(0);
    if Slot(4, va) >= 256 && Present(Peek(w.mem, w.kernel, Slot(4, va))) {
      assert IsSpace(w, w.kernel);
      SharedSlotStaysShared(w1, total, ops, r.value, w.kernel, va);
    } else if forall op <- ops :: AvoidsSlot(op, r.value, Slot(4, va)) {
      LateSlotIsNotShared(w1, total, ops, r.value, va);
    }
  }
}
