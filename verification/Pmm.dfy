/** Bytes of the page bitmap: bit `p % 8` of byte `p / 8` is set when page `p` is used. */
module Bitmap {

  predicate BitSet(b: bv8, k: nat)
    requires k < 8
  {
    b & ((1 as bv8) << k) != 0
  }

  function WithBit(b: bv8, k: nat): (r: bv8)
    requires k < 8
    ensures forall j: nat | j < 8 :: BitSet(r, j) <==> j == k || BitSet(b, j)
  {
    var r := b | ((1 as bv8) << k);
    assert forall j: nat | j < 8 :: BitSet(r, j) <==> j == k || BitSet(b, j) by {
      forall j: nat | j < 8 ensures BitSet(r, j) <==> j == k || BitSet(b, j) { SetBit(b, k, j); }
    }
    r
  }

  function WithoutBit(b: bv8, k: nat): (r: bv8)
    requires k < 8
    ensures forall j: nat | j < 8 :: BitSet(r, j) <==> j != k && BitSet(b, j)
  {
    var r := b & !((1 as bv8) << k);
    assert forall j: nat | j < 8 :: BitSet(r, j) <==> j != k && BitSet(b, j) by {
      forall j: nat | j < 8 ensures BitSet(r, j) <==> j != k && BitSet(b, j) { ClearBit(b, k, j); }
    }
    r
  }

  lemma Masks(k: nat)
    requires k < 8
    ensures (1 as bv8) << k == [1 as bv8, 2, 4, 8, 16, 32, 64, 128][k]
  {
    if k == 0 {} else if k == 1 {} else if k == 2 {} else if k == 3 {}
    else if k == 4 {} else if k == 5 {} else if k == 6 {} else {}
  }

  lemma SetBit(b: bv8, k: nat, j: nat)
    requires k < 8 && j < 8
    ensures BitSet(b | ((1 as bv8) << k), j) <==> j == k || BitSet(b, j)
  {
    Masks(k); Masks(j);
  }

  lemma ClearBit(b: bv8, k: nat, j: nat)
    requires k < 8 && j < 8
    ensures BitSet(b & !((1 as bv8) << k), j) <==> j != k && BitSet(b, j)
  {
    Masks(k); Masks(j);
  }

  lemma AllOnes(k: nat)
    requires k < 8
    ensures BitSet(0xFF, k)
  {
    Masks(k);
  }

  predicate Used(bits: seq<bv8>, p: nat)
    requires p / 8 < |bits|
  {
    BitSet(bits[p / 8], p % 8)
  }

  function Mark(bits: seq<bv8>, p: nat): (r: seq<bv8>)
    requires p / 8 < |bits|
    ensures |r| == |bits|
    ensures forall q: nat | q / 8 < |bits| :: Used(r, q) <==> q == p || Used(bits, q)
  {
    bits[p / 8 := WithBit(bits[p / 8], p % 8)]
  }

  function Clear(bits: seq<bv8>, p: nat): (r: seq<bv8>)
    requires p / 8 < |bits|
    ensures |r| == |bits|
    ensures forall q: nat | q / 8 < |bits| :: Used(r, q) <==> q != p && Used(bits, q)
  {
    bits[p / 8 := WithoutBit(bits[p / 8], p % 8)]
  }

  ghost function FreeSet(bits: seq<bv8>, total: nat): set<nat>
    requires total <= 8 * |bits|
  {
    set p: nat | p < total && !Used(bits, p)
  }
}

/** The bitmap allocator of kernel/src/pmm.c. */
module Pmm {
  import opened Bitmap
  import opened FreePages

  class Allocator {
    var bitmap: array<bv8>
    var totalPages: nat

    ghost predicate Valid()
      reads this, bitmap
    {
      totalPages <= 8 * bitmap.Length
    }

    ghost function Free(): set<nat>
      requires Valid()
      reads this, bitmap
    {
      FreeSet(bitmap[..], totalPages)
    }

    constructor (bitmap: array<bv8>, totalPages: nat)
      requires totalPages <= 8 * bitmap.Length
      ensures this.bitmap == bitmap && this.totalPages == totalPages && Valid()
    {
      this.bitmap := bitmap;
      this.totalPages := totalPages;
    }

    /** First fit over the bitmap is "hand out the lowest free page". */
    method AllocPage() returns (addr: nat)
      requires Valid()
      modifies bitmap
      ensures Valid()
      ensures Grant(Free(), addr) == FreePages.AllocPage(old(Free()))
      ensures old(Free()) == {} ==> addr == 0 && Free() == {}
      ensures old(Free()) != {} ==>
                && addr % 4096 == 0 && addr / 4096 in old(Free()) && Free() == old(Free()) - {addr / 4096}
                && forall p <- old(Free()) :: addr / 4096 <= p
    {
      var i := 0;
      while i < totalPages
        invariant 0 <= i <= totalPages
        invariant forall p: nat | p < i :: Used(bitmap[..], p)
      {
        if !BitSet(bitmap[i / 8], i % 8) {
          ghost var was := bitmap[..];
          bitmap[i / 8] := WithBit(bitmap[i / 8], i % 8);
          assert bitmap[..] == Mark(was, i);
          assert i in FreeSet(was, totalPages);
          assert Min(FreeSet(was, totalPages)) == i;
          assert FreeSet(bitmap[..], totalPages) == FreeSet(was, totalPages) - {i};
          return i * PAGE_SIZE;
        }
        i := i + 1;
      }
      assert Free() == {};
      return 0;
    }

    /** Out-of-range addresses are ignored; double frees are harmless. */
    method FreePage(addr: nat)
      requires Valid()
      modifies bitmap
      ensures Valid()
      ensures Free() == FreePages.FreePage(old(Free()), totalPages, addr)
      ensures addr / 4096 < totalPages ==> Free() == old(Free()) + {addr / 4096}
      ensures addr / 4096 >= totalPages ==> Free() == old(Free())
    {
      var p := addr / PAGE_SIZE;
      if p < totalPages {
        ghost var was := bitmap[..];
        bitmap[p / 8] := WithoutBit(bitmap[p / 8], p % 8);
        assert bitmap[..] == Clear(was, p);
        assert FreeSet(bitmap[..], totalPages) == FreeSet(was, totalPages) + {p};
      }
    }
  }
}
