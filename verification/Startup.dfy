/** From the boot memory map to the memory managers: `pmm_init` followed by `vmm_init`. */
module Startup {
  import opened Bitmap
  import opened FreePages
  import opened Options
  import opened PageTables
  import opened PmmInit
  import Pmm
  import Vmm

  /** Page 0 belongs to a usable entry. */
  ghost predicate ZeroIsUsable(es: seq<Region>) {
    exists i :: 0 <= i < |es| && es[i].usable && es[i].base == 0 && es[i].length >= PAGE_SIZE
  }

  /** After start-up page 0 is free, so that 0 is handed out as a page, exactly when a usable
      entry holds it and the bitmap does not fill it, or when there are fewer than 8 pages and
      memory held its bit clear. */
  lemma ZeroIsFreeExactly(es: seq<Region>, total: nat, k: nat, before: seq<bv8>)
    requires AlignedMap(es) && k < |es| && es[k].usable && total <= 8 * |before|
    ensures FreePageAfter(es, total, k, before, 0)
            <==> || (ZeroIsUsable(es) && !(es[k].base == 0 && total >= 8 * PAGE_SIZE))
                 || (0 < total < 8 && !Used(before, 0))
  {
    assert InUsable(es, 0) <==> ZeroIsUsable(es) by {
      if InUsable(es, 0) {
        var i :| 0 <= i < |es| && Inside(es[i], 0);
        assert es[i].usable && es[i].base == 0 && es[i].length >= PAGE_SIZE;
      }
      if ZeroIsUsable(es) {
        var i :| 0 <= i < |es| && es[i].usable && es[i].base == 0 && es[i].length >= PAGE_SIZE;
        assert Inside(es[i], 0);
      }
    }
    assert Lost(es[k], total / 8, 0) <==> es[k].base == 0 && total / 8 >= PAGE_SIZE;
  }

  /** What the boot loader must have arranged for its tables: a forest by themselves, in
      memory that the map does not call usable, all of which is there. */
  ghost predicate TablesApart(es: seq<Region>, mem: Memory, cr3: nat, level: map<nat, nat>) {
    && Forest(World(mem, {}, cr3, level))
    && forall p: nat :: InUsable(es, p) ==> p in mem && p !in level
  }

  /** A free set drawn from usable pages, without page 0 and within the physical address
      width, completes the invariant. */
  lemma FreePagesReserved(es: seq<Region>, mem: Memory, free: set<nat>, cr3: nat, level: map<nat, nat>, top: nat)
    requires TablesApart(es, mem, cr3, level) && IsHighestTop(es, top) && top / PAGE_SIZE <= MAX_FRAME
    requires (forall p <- free :: InUsable(es, p)) && 0 !in free
    ensures Forest(World(mem, free, cr3, level))
  {
    var w0, w := World(mem, {}, cr3, level), World(mem, free, cr3, level);
    forall p | p in free ensures 0 < p < MAX_FRAME && p in mem && p !in level { InsideIsBelowTop(es, top, p); }
    assert Reserved(w);
    assert forall f: nat, i: nat :: Points(w, f, i) ==> Points(w0, f, i);
  }

  /** Both managers set up, on an aligned map without overlaps whose page count is a multiple
      of 8, whose top is within the physical address width and which keeps page 0 out of the
      usable entries: the ownership invariant holds from the start. */
  method Start(entries: array<Region>, storage: array<bv8>, mem: Memory, cr3: nat, ghost level: map<nat, nat>)
    returns (vmm: Vmm.Manager?)
    requires entries as object != storage && AlignedMap(entries[..]) && DisjointMap(entries[..])
    requires forall top: nat | IsHighestTop(entries[..], top) ::
               top / PAGE_SIZE <= 8 * storage.Length && top / PAGE_SIZE % 8 == 0 && top / PAGE_SIZE <= MAX_FRAME
    requires TablesApart(entries[..], mem, cr3, level) && !ZeroIsUsable(entries[..])
    modifies entries, storage
    ensures vmm == null ==> exists top: nat :: IsHighestTop(old(entries[..]), top)
                                               && forall r <- old(entries[..]) :: !Holds(r, top / PAGE_SIZE / 8)
    ensures vmm != null ==> vmm.Valid() && vmm.kernelRoot == cr3 && vmm.mem == mem && vmm.level == level
  {
    ghost var es, before := entries[..], storage[..];
    ghost var k;
    var pmm;
    pmm, k := Boot(entries, storage);
    if pmm == null { return null; }
    ghost var top: nat :| IsHighestTop(es, top) && pmm.totalPages == top / PAGE_SIZE;
    ZeroIsFreeExactly(es, pmm.totalPages, k.value, before);
    FreePagesReserved(es, mem, pmm.Free(), cr3, level, top);
    vmm := new Vmm.Manager(pmm, mem, cr3, level);
  }
}
