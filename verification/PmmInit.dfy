/** `pmm_init` of kernel/src/pmm.c: sizing the bitmap from the boot memory map, carving
    its storage out of the first usable region that can hold it, and clearing the bit of
    every page of what is left. */
module PmmInit {
  import opened Bitmap
  import opened FreePages
  import opened Options
  import Pmm

  /** One boot memory map entry; `usable` is `type == LIMINE_MEMMAP_USABLE`. */
  datatype Region = Region(base: nat, length: nat, usable: bool)

  ghost predicate IsHighestTop(es: seq<Region>, top: nat) {
    && (forall i | 0 <= i < |es| && es[i].usable :: es[i].base + es[i].length <= top)
    && (top == 0 || exists i :: 0 <= i < |es| && es[i].usable && es[i].base + es[i].length == top)
  }

  predicate Holds(r: Region, size: nat) { r.usable && size <= r.length }

  ghost predicate IsFirstHolder(es: seq<Region>, size: nat, k: nat) {
    && k < |es| && Holds(es[k], size)
    && forall i | 0 <= i < k :: !Holds(es[i], size)
  }

  function Carve(r: Region, size: nat): Region
    requires size <= r.length
  {
    r.(base := r.base + size, length := r.length - size)
  }

  /** The pages whose bits the release loop clears for one region. */
  predicate Released(r: Region, p: nat) {
    r.usable && r.base / PAGE_SIZE <= p < r.base / PAGE_SIZE + (r.length + PAGE_SIZE - 1) / PAGE_SIZE
  }

  ghost predicate ReleasedBy(es: seq<Region>, p: nat) {
    exists i :: 0 <= i < |es| && Released(es[i], p)
  }

  method HighestTop(entries: array<Region>) returns (top: nat)
    ensures IsHighestTop(entries[..], top)
  {
    top := 0;
    for i := 0 to entries.Length
      invariant IsHighestTop(entries[..i], top)
    {
      ghost var was := entries[..i];
      var en := entries[i];
      ghost var prev := top;
      if en.usable && en.base + en.length > top { top := en.base + en.length; }
      assert entries[..i + 1] == was + [en];
      assert entries[..i + 1][i] == en;
      if top == prev && top != 0 {
        var k :| 0 <= k < |was| && was[k].usable && was[k].base + was[k].length == top;
        assert entries[..i + 1][k] == was[k];
      }
    }
    assert entries[..entries.Length] == entries[..];
  }

  method PlaceBitmap(entries: array<Region>, size: nat) returns (k: Option<nat>)
    modifies entries
    ensures k.None? ==> entries[..] == old(entries[..])
    ensures k.None? ==> forall i | 0 <= i < entries.Length :: !Holds(entries[i], size)
    ensures k.Some? ==> IsFirstHolder(old(entries[..]), size, k.value)
                        && entries[..] == old(entries[..])[k.value := Carve(old(entries[..])[k.value], size)]
  {
    for i := 0 to entries.Length
      invariant entries[..] == old(entries[..])
      invariant forall j | 0 <= j < i :: !Holds(entries[j], size)
    {
      if Holds(entries[i], size) {
        entries[i] := Carve(entries[i], size);
        return Some(i);
      }
    }
    return None;
  }

  method ReleaseRegion(r: Region, storage: array<bv8>, total: nat)
    requires total <= 8 * storage.Length && r.usable
    modifies storage
    ensures forall p: nat | p < total :: Used(storage[..], p) <==> old(Used(storage[..], p)) && !Released(r, p)
    ensures forall p: nat | total <= p < 8 * storage.Length :: Used(storage[..], p) == old(Used(storage[..], p))
  {
    var j := 0;
    while j < r.length
      invariant j % PAGE_SIZE == 0 && j / PAGE_SIZE <= (r.length + PAGE_SIZE - 1) / PAGE_SIZE
      invariant forall p: nat | p < 8 * storage.Length ::
                  Used(storage[..], p)
                  <==> && old(Used(storage[..], p))
                       && !(p < total && r.base / PAGE_SIZE <= p < r.base / PAGE_SIZE + j / PAGE_SIZE)
    {
      var p := (r.base + j) / PAGE_SIZE;
      assert p == r.base / PAGE_SIZE + j / PAGE_SIZE;
      if p < total {
        ghost var was := storage[..];
        storage[p / 8] := WithoutBit(storage[p / 8], p % 8);
        assert storage[..] == Clear(was, p);
      }
      j := j + PAGE_SIZE;
    }
    assert j / PAGE_SIZE == (r.length + PAGE_SIZE - 1) / PAGE_SIZE;
  }

  method FillOnes(storage: array<bv8>, size: nat)
    requires size <= storage.Length
    modifies storage
    ensures forall p: nat | p < 8 * storage.Length ::
              Used(storage[..], p) <==> p / 8 < size || old(Used(storage[..], p))
  {
    for i := 0 to size
      invariant forall k | 0 <= k < i :: storage[k] == 0xFF
      invariant forall k | i <= k < storage.Length :: storage[k] == old(storage[k])
    {
      storage[i] := 0xFF;
    }
    forall p: nat | p < 8 * storage.Length
      ensures Used(storage[..], p) <==> p / 8 < size || old(Used(storage[..], p))
    {
      AllOnes(p % 8);
    }
  }

  /** The whole of `pmm_init`. `storage` is whatever memory the bitmap pointer lands on,
      with its prior contents. `None` is the case where no region holds the bitmap and the
      source would write through a null pointer. The prior bits survive in the last byte
      when `total` is not a multiple of 8, because only `total / 8` bytes are filled. */
  method Init(entries: array<Region>, storage: array<bv8>) returns (total: nat, k: Option<nat>)
    requires entries as object != storage
    requires forall top: nat | IsHighestTop(entries[..], top) :: top / PAGE_SIZE <= 8 * storage.Length
    modifies entries, storage
    ensures exists top: nat :: IsHighestTop(old(entries[..]), top) && total == top / PAGE_SIZE
    ensures total <= 8 * storage.Length
    ensures k.None? ==> storage[..] == old(storage[..])
    ensures k.None? ==> forall i | 0 <= i < entries.Length :: !Holds(old(entries[i]), total / 8)
    ensures k.Some? ==> IsFirstHolder(old(entries[..]), total / 8, k.value)
    ensures k.Some? ==> entries[..] == old(entries[..])[k.value := Carve(old(entries[..])[k.value], total / 8)]
    ensures k.Some? ==> forall p: nat | p < total ::
              Used(storage[..], p) <==> !ReleasedBy(entries[..], p)
                                        && (p / 8 < total / 8 || old(Used(storage[..], p)))
  {
    var top := HighestTop(entries);
    total := top / PAGE_SIZE;
    k := PlaceBitmap(entries, total / 8);
    if k.None? { return; }
    FillOnes(storage, total / 8);
    ghost var es := entries[..];
    assert es[..0] == [];
    for i := 0 to entries.Length
      invariant entries[..] == es
      invariant forall p: nat | p < total ::
                  Used(storage[..], p) <==> !ReleasedBy(es[..i], p)
                                            && (p / 8 < total / 8 || old(Used(storage[..], p)))
    {
      ghost var was := storage[..];
      if entries[i].usable { ReleaseRegion(entries[i], storage, total); }
      forall p: nat | p < total
        ensures ReleasedBy(es[..i + 1], p) <==> ReleasedBy(es[..i], p) || Released(es[i], p)
      {
        ReleasedByStep(es, i, p);
      }
    }
    assert es[..entries.Length] == es;
  }

  lemma ReleasedByStep(es: seq<Region>, i: nat, p: nat)
    requires i < |es|
    ensures ReleasedBy(es[..i + 1], p) <==> ReleasedBy(es[..i], p) || Released(es[i], p)
  {
    if ReleasedBy(es[..i], p) {
      var j :| 0 <= j < i && Released(es[..i][j], p);
      assert es[..i + 1][j] == es[..i][j];
    }
    if Released(es[i], p) { assert es[..i + 1][i] == es[i]; }
    if ReleasedBy(es[..i + 1], p) {
      var j :| 0 <= j < i + 1 && Released(es[..i + 1][j], p);
      if j < i { assert es[..i][j] == es[..i + 1][j]; }
    }
  }

  // ----- What that leaves free -----

  /** Page `p` lies inside the region as the boot loader described it. */
  predicate Inside(r: Region, p: nat) {
    r.usable && r.base <= p * PAGE_SIZE && p * PAGE_SIZE + PAGE_SIZE <= r.base + r.length
  }

  ghost predicate InUsable(es: seq<Region>, p: nat) {
    exists i :: 0 <= i < |es| && Inside(es[i], p)
  }

  /** Some byte of the `size` bytes at `base` lies in page `p`. */
  ghost predicate HoldsByteOf(base: nat, size: nat, p: nat) {
    exists a: nat :: base <= a < base + size && a / PAGE_SIZE == p
  }

  predicate AlignedMap(es: seq<Region>) {
    forall i | 0 <= i < |es| && es[i].usable :: es[i].base % PAGE_SIZE == 0 && es[i].length % PAGE_SIZE == 0
  }

  predicate DisjointMap(es: seq<Region>) {
    forall i, j | 0 <= i < j < |es| && es[i].usable && es[j].usable ::
      es[i].base + es[i].length <= es[j].base || es[j].base + es[j].length <= es[i].base
  }

  lemma ReleasedIsInside(r: Region, p: nat)
    requires r.base % PAGE_SIZE == 0 && r.length % PAGE_SIZE == 0
    ensures Released(r, p) <==> Inside(r, p)
  {
  }

  lemma HoldsByteOfAligned(base: nat, size: nat, p: nat)
    requires base % PAGE_SIZE == 0 && size % PAGE_SIZE == 0
    ensures HoldsByteOf(base, size, p) <==> base / PAGE_SIZE <= p < (base + size) / PAGE_SIZE
  {
    if base / PAGE_SIZE <= p < (base + size) / PAGE_SIZE {
      assert base <= p * PAGE_SIZE < base + size && p * PAGE_SIZE / PAGE_SIZE == p;
    }
  }

  /** The pages that carving takes from an aligned region: those the bitmap fills to the end. */
  predicate Lost(r: Region, size: nat, p: nat) {
    r.base / PAGE_SIZE <= p < (r.base + size) / PAGE_SIZE
  }

  lemma CarvedRegion(r: Region, size: nat, p: nat)
    requires r.base % PAGE_SIZE == 0 && r.length % PAGE_SIZE == 0 && size <= r.length
    ensures Released(Carve(r, size), p) <==> Inside(r, p) && !Lost(r, size, p)
  {
    var at, end := (r.base + size) / PAGE_SIZE, (r.base + r.length) / PAGE_SIZE;
    assert at + (r.length - size + PAGE_SIZE - 1) / PAGE_SIZE == end by { PagesFrom(r.base + size, r.base + r.length); }
  }

  lemma PagesFrom(a: nat, end: nat)
    requires a <= end && end % PAGE_SIZE == 0
    ensures a / PAGE_SIZE + (end - a + PAGE_SIZE - 1) / PAGE_SIZE == end / PAGE_SIZE
  {
  }

  /** Whatever the bitmap's size, the pages released are those of usable entries but for the
      ones the bitmap fills. */
  lemma CarvedPages(es: seq<Region>, size: nat, k: nat, p: nat)
    requires AlignedMap(es) && DisjointMap(es) && IsFirstHolder(es, size, k)
    ensures ReleasedBy(es[k := Carve(es[k], size)], p) <==> InUsable(es, p) && !Lost(es[k], size, p)
  {
    var after := es[k := Carve(es[k], size)];
    CarvedRegion(es[k], size, p);
    if ReleasedBy(after, p) {
      var i :| 0 <= i < |after| && Released(after[i], p);
      if i != k { ReleasedIsInside(es[i], p); }
      assert Inside(es[i], p);
      if Lost(es[k], size, p) { LostIsInside(es[k], size, p); InsideOne(es, i, k, p); }
    }
    if InUsable(es, p) && !Lost(es[k], size, p) {
      var i :| 0 <= i < |es| && Inside(es[i], p);
      if i != k { ReleasedIsInside(es[i], p); }
      assert Released(after[i], p);
    }
  }

  lemma LostIsInside(r: Region, size: nat, p: nat)
    requires r.usable && r.base % PAGE_SIZE == 0 && size <= r.length && Lost(r, size, p)
    ensures Inside(r, p)
  {
  }

  lemma InsideOne(es: seq<Region>, i: nat, j: nat, p: nat)
    requires DisjointMap(es) && i < |es| && j < |es| && Inside(es[i], p) && Inside(es[j], p)
    ensures i == j
  {
  }

  /** With a bitmap of whole pages these are exactly the bitmap's own pages. */
  lemma CarvedExactly(es: seq<Region>, size: nat, k: nat, p: nat)
    requires AlignedMap(es) && DisjointMap(es) && IsFirstHolder(es, size, k)
    requires size % PAGE_SIZE == 0
    ensures ReleasedBy(es[k := Carve(es[k], size)], p)
            <==> InUsable(es, p) && !HoldsByteOf(es[k].base, size, p)
  {
    CarvedPages(es, size, k, p);
    HoldsByteOfAligned(es[k].base, size, p);
  }

  /** No page holding bitmap bytes is handed out, if and only if the bitmap is a whole
      number of pages: otherwise its last, partly filled page is released as well. */
  lemma BitmapIsSafeExactlyWhenWholePages(es: seq<Region>, size: nat, k: nat)
    requires AlignedMap(es) && DisjointMap(es) && IsFirstHolder(es, size, k)
    ensures (forall p: nat | HoldsByteOf(es[k].base, size, p) :: !ReleasedBy(es[k := Carve(es[k], size)], p))
            <==> size % PAGE_SIZE == 0
  {
    var after := es[k := Carve(es[k], size)];
    if size % PAGE_SIZE == 0 {
      forall p: nat | HoldsByteOf(es[k].base, size, p) ensures !ReleasedBy(after, p) {
        CarvedExactly(es, size, k, p);
      }
    } else {
      var p := (es[k].base + size) / PAGE_SIZE;
      var a := es[k].base + size - 1;
      assert a / PAGE_SIZE == p && es[k].base <= a < es[k].base + size;
      assert size < es[k].length;
      assert Released(after[k], p);
      assert HoldsByteOf(es[k].base, size, p) && ReleasedBy(after, p);
    }
  }

  /** Every page number below `total` has its bit inside the `total / 8` bytes that were
      reserved and filled, if and only if `total` is a multiple of 8. */
  lemma BitmapCoversExactlyWhenMultipleOf8(total: nat)
    ensures (forall p: nat | p < total :: p / 8 < total / 8) <==> total % 8 == 0
  {
    if total % 8 != 0 { assert (total - 1) / 8 == total / 8; }
  }

  /** The free pages after `pmm_init`: those of usable entries that the bitmap does not fill,
      and the pages of a last partial byte whose bit was clear in memory before. */
  ghost predicate FreePageAfter(es: seq<Region>, total: nat, k: nat, before: seq<bv8>, p: nat)
    requires k < |es| && total <= 8 * |before|
  {
    || (InUsable(es, p) && !Lost(es[k], total / 8, p))
    || (total / 8 * 8 <= p < total && !Used(before, p))
  }

  lemma FreeAfterInit(es: seq<Region>, top: nat, k: nat, before: seq<bv8>, bits: seq<bv8>)
    requires AlignedMap(es) && DisjointMap(es) && IsHighestTop(es, top)
    requires var total := top / PAGE_SIZE;
             && total <= 8 * |bits| && |before| == |bits| && IsFirstHolder(es, total / 8, k)
             && forall p: nat | p < total ::
                  Used(bits, p)
                  <==> !ReleasedBy(es[k := Carve(es[k], total / 8)], p) && (p / 8 < total / 8 || Used(before, p))
    ensures forall p: nat :: p in FreeSet(bits, top / PAGE_SIZE) <==> FreePageAfter(es, top / PAGE_SIZE, k, before, p)
  {
    var total := top / PAGE_SIZE;
    forall p: nat ensures p in FreeSet(bits, total) <==> FreePageAfter(es, total, k, before, p) {
      CarvedPages(es, total / 8, k, p);
      if InUsable(es, p) { InsideIsBelowTop(es, top, p); }
    }
  }

  /** With a bitmap of whole pages there is no partial byte, and the bitmap's own pages are
      the only usable ones that are not free. */
  lemma FreeWhenWholePages(es: seq<Region>, total: nat, k: nat, before: seq<bv8>, p: nat)
    requires AlignedMap(es) && k < |es| && es[k].usable && total <= 8 * |before| && total % (8 * PAGE_SIZE) == 0
    ensures FreePageAfter(es, total, k, before, p) <==> InUsable(es, p) && !HoldsByteOf(es[k].base, total / 8, p)
  {
    WholePages(total);
    HoldsByteOfAligned(es[k].base, total / 8, p);
  }

  lemma InsideIsBelowTop(es: seq<Region>, top: nat, p: nat)
    requires IsHighestTop(es, top) && InUsable(es, p)
    ensures p < top / PAGE_SIZE
  {
  }

  /** Start-up on an aligned, overlap-free map: which pages the allocator then hands out. The
      result is null exactly when no region can hold the bitmap. */
  method Boot(entries: array<Region>, storage: array<bv8>) returns (pmm: Pmm.Allocator?, ghost k: Option<nat>)
    requires entries as object != storage && AlignedMap(entries[..]) && DisjointMap(entries[..])
    requires forall top: nat | IsHighestTop(entries[..], top) :: top / PAGE_SIZE <= 8 * storage.Length
    modifies entries, storage
    ensures pmm != null <==> k.Some?
    ensures pmm == null ==> exists top: nat :: IsHighestTop(old(entries[..]), top)
                                               && forall r <- old(entries[..]) :: !Holds(r, top / PAGE_SIZE / 8)
    ensures pmm != null ==> fresh(pmm) && pmm.bitmap == storage && pmm.Valid()
    ensures pmm != null ==> exists top: nat :: IsHighestTop(old(entries[..]), top) && pmm.totalPages == top / PAGE_SIZE
    ensures pmm != null ==> IsFirstHolder(old(entries[..]), pmm.totalPages / 8, k.value)
    ensures pmm != null ==> forall p: nat ::
              p in pmm.Free() <==> FreePageAfter(old(entries[..]), pmm.totalPages, k.value, old(storage[..]), p)
  {
    ghost var es, before := entries[..], storage[..];
    var total, slot := Init(entries, storage);
    ghost var top: nat :| IsHighestTop(es, top) && total == top / PAGE_SIZE;
    k := slot;
    if slot.None? { return null, k; }
    pmm := new Pmm.Allocator(storage, total);
    FreeAfterInit(es, top, slot.value, before, storage[..]);
  }

  lemma WholePages(total: nat)
    requires total % (8 * PAGE_SIZE) == 0
    ensures total % 8 == 0 && total / 8 % PAGE_SIZE == 0
  {
    var n := total / (8 * PAGE_SIZE);
    assert total == 8 * (PAGE_SIZE * n);
  }
}
