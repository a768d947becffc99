/** `qsort` and `bsearch` of libc/src/stdlib.c (sections 7.22.5.1 and 7.22.5.2 of ISO/IEC
    9899:2011), on raw bytes with a comparator. */
module Sorting {
  import opened Arith
  import opened Options

  type Byte = b: int | 0 <= b < 256
  type Bytes = seq<Byte>
  type Comparator = (Bytes, Bytes) -> int

  // ----- Elements in a byte array -----

  /** Where element `i` starts, for elements of `size` bytes from byte `lo` on. */
  function At(lo: nat, size: nat, i: nat): nat {
    if i == 0 then lo else At(lo, size, i - 1) + size
  }

  lemma {:induction false} AtIsProduct(lo: nat, size: nat, i: nat)
    ensures At(lo, size, i) == lo + i * size
  {
    if i > 0 {
      AtIsProduct(lo, size, i - 1);
      assert (i - 1) * size + size == i * size;
    }
  }

  lemma {:induction false} AtGrows(lo: nat, size: nat, i: nat, j: nat)
    requires i < j
    ensures At(lo, size, i) + size <= At(lo, size, j)
    decreases j
  {
    if i + 1 < j { AtGrows(lo, size, i, j - 1); }
  }

  lemma {:induction false} AtShift(lo: nat, size: nat, m: nat, k: nat)
    ensures At(At(lo, size, m), size, k) == At(lo, size, m + k)
    decreases k
  {
    if k > 0 { AtShift(lo, size, m, k - 1); }
  }

  lemma AtInside(lo: nat, size: nat, i: nat, n: nat)
    requires i < n
    ensures lo <= At(lo, size, i) && At(lo, size, i) + size == At(lo, size, i + 1) <= At(lo, size, n)
  {
    AtGrows(lo, size, i, n);
    if i > 0 { AtGrows(lo, size, 0, i); }
  }

  /** `len` bytes from byte `p` on; empty when they are not all there. */
  function Slice(s: Bytes, p: nat, len: nat): Bytes {
    if p + len <= |s| then s[p..p + len] else []
  }

  /** `es` are the elements of `size` bytes from byte `lo` on. */
  ghost predicate Holds(s: Bytes, lo: nat, size: nat, es: seq<Bytes>) {
    && At(lo, size, |es|) <= |s|
    && forall i: nat {:trigger es[i]} | i < |es| :: Slice(s, At(lo, size, i), size) == es[i]
  }

  predicate SameOutside(s: Bytes, t: Bytes, lo: nat, hi: nat) {
    && |s| == |t| && (forall k | 0 <= k < |s| && k < lo :: t[k] == s[k])
    && (forall k | hi <= k < |s| :: t[k] == s[k])
  }

  lemma {:induction false} HoldsFrame(s: Bytes, t: Bytes, lo: nat, size: nat, es: seq<Bytes>)
    requires Holds(s, lo, size, es) && |t| == |s|
    requires forall k | lo <= k < At(lo, size, |es|) :: s[k] == t[k]
    ensures Holds(t, lo, size, es)
  {
    forall i: nat | i < |es| ensures Slice(t, At(lo, size, i), size) == es[i] {
      AtInside(lo, size, i, |es|);
      SliceFrame(s, t, At(lo, size, i), size);
    }
  }

  lemma SliceFrame(s: Bytes, t: Bytes, p: nat, len: nat)
    requires |s| == |t| && forall k | p <= k < p + len && k < |s| :: s[k] == t[k]
    ensures Slice(s, p, len) == Slice(t, p, len)
  {
  }

  lemma {:induction false} HoldsTake(s: Bytes, lo: nat, size: nat, es: seq<Bytes>, m: nat)
    requires Holds(s, lo, size, es) && m <= |es|
    ensures Holds(s, lo, size, es[..m])
  {
    if m < |es| { AtGrows(lo, size, m, |es|); }
  }

  lemma {:induction false} HoldsDrop(s: Bytes, lo: nat, size: nat, es: seq<Bytes>, m: nat)
    requires Holds(s, lo, size, es) && m <= |es|
    ensures Holds(s, At(lo, size, m), size, es[m..])
  {
    AtShift(lo, size, m, |es| - m);
    forall i: nat | i < |es| - m ensures Slice(s, At(At(lo, size, m), size, i), size) == es[m..][i] {
      AtShift(lo, size, m, i);
      assert es[m..][i] == es[m + i];
    }
  }

  lemma {:induction false} HoldsJoin(s: Bytes, lo: nat, size: nat, left: seq<Bytes>, right: seq<Bytes>)
    requires Holds(s, lo, size, left) && Holds(s, At(lo, size, |left|), size, right)
    ensures Holds(s, lo, size, left + right)
  {
    AtShift(lo, size, |left|, |right|);
    forall i: nat | i < |left + right| ensures Slice(s, At(lo, size, i), size) == (left + right)[i] {
      if i >= |left| {
        AtShift(lo, size, |left|, i - |left|);
        assert (left + right)[i] == right[i - |left|];
      }
    }
  }

  // ----- Order -----

  /** Asked of elements of `size` bytes only. */
  ghost predicate TotalPreorder(cmp: Comparator, size: nat) {
    && (forall a, b | |a| == size && |b| == size :: cmp(a, b) < 0 <==> cmp(b, a) > 0)
    && (forall a, b, c | |a| == size && |b| == size && |c| == size ::
          cmp(a, b) <= 0 && cmp(b, c) <= 0 ==> cmp(a, c) <= 0)
  }

  ghost predicate Sized(es: seq<Bytes>, size: nat) { forall e <- es :: |e| == size }

  lemma {:induction false} HoldsSized(s: Bytes, lo: nat, size: nat, es: seq<Bytes>)
    requires Holds(s, lo, size, es)
    ensures Sized(es, size)
  {
    forall e | e in es ensures |e| == size {
      var i: nat :| i < |es| && es[i] == e;
      AtInside(lo, size, i, |es|);
      assert Slice(s, At(lo, size, i), size) == es[i];
    }
  }

  ghost predicate Sorted(es: seq<Bytes>, cmp: Comparator) {
    forall i, j | 0 <= i < j < |es| :: cmp(es[i], es[j]) <= 0
  }

  /** Everything left of `m` is below element `m`, nothing right of it is. */
  ghost predicate Split(es: seq<Bytes>, m: nat, cmp: Comparator) {
    && m < |es|
    && (forall i | 0 <= i < m :: cmp(es[i], es[m]) < 0)
    && (forall i | m < i < |es| :: cmp(es[i], es[m]) >= 0)
  }

  lemma JoinSorted(left: seq<Bytes>, pivot: Bytes, right: seq<Bytes>, cmp: Comparator, size: nat)
    requires TotalPreorder(cmp, size) && Sized(left, size) && |pivot| == size && Sized(right, size)
    requires Sorted(left, cmp) && Sorted(right, cmp)
    requires forall e <- left :: cmp(e, pivot) < 0
    requires forall e <- right :: cmp(e, pivot) >= 0
    ensures Sorted(left + [pivot] + right, cmp)
  {
    var es := left + [pivot] + right;
    forall i, j | 0 <= i < j < |es| ensures cmp(es[i], es[j]) <= 0 {
      var a, b := es[i], es[j];
      if i < |left| { assert a in left; }
      if j > |left| { assert b in right; assert cmp(pivot, b) <= 0; }
    }
  }

  // ----- Swapping and partitioning -----

  /** The byte-by-byte swap; the two elements are the same one or do not overlap. */
  method SwapElements(a: array<Byte>, p: nat, q: nat, size: nat)
    requires p + size <= a.Length && q + size <= a.Length
    requires p == q || p + size <= q || q + size <= p
    modifies a
    ensures a[p..p + size] == old(a[q..q + size]) && a[q..q + size] == old(a[p..p + size])
    ensures forall k | 0 <= k < a.Length && !(p <= k < p + size) && !(q <= k < q + size) :: a[k] == old(a[k])
  {
    for j := 0 to size
      invariant forall k | p <= k < p + j :: a[k] == old(a[k - p + q])
      invariant forall k | q <= k < q + j :: a[k] == old(a[k - q + p])
      invariant forall k | 0 <= k < a.Length && !(p <= k < p + j) && !(q <= k < q + j) :: a[k] == old(a[k])
    {
      var temp := a[p + j];
      a[p + j] := a[q + j];
      a[q + j] := temp;
    }
    ghost var pNow, qNow := a[p..p + size], a[q..q + size];
    ghost var pWas, qWas := old(a[p..p + size]), old(a[q..q + size]);
    forall k | 0 <= k < size ensures pNow[k] == qWas[k] && qNow[k] == pWas[k] {
      assert pNow[k] == a[p + k] && qNow[k] == a[q + k];
    }
  }

  /** Swapping bytes swaps elements. */
  lemma {:induction false} SwapIsSwap(s: Bytes, t: Bytes, lo: nat, size: nat, es: seq<Bytes>, i: nat, j: nat)
    requires Holds(s, lo, size, es) && |t| == |s| && i < |es| && j < |es|
    requires var p, q := At(lo, size, i), At(lo, size, j);
             && Slice(t, p, size) == Slice(s, q, size) && Slice(t, q, size) == Slice(s, p, size)
             && forall k | 0 <= k < |s| && !(p <= k < p + size) && !(q <= k < q + size) :: t[k] == s[k]
    ensures Holds(t, lo, size, Swapped(es, i, j))
  {
    var ft := Swapped(es, i, j);
    forall m: nat | m < |es| ensures Slice(t, At(lo, size, m), size) == ft[m] {
      assert Slice(s, At(lo, size, m), size) == es[m];
      if m != i && m != j {
        Apart(lo, size, m, i); Apart(lo, size, m, j);
        SliceFrame(s, t, At(lo, size, m), size);
      }
    }
  }

  lemma Apart(lo: nat, size: nat, m: nat, i: nat)
    requires m != i
    ensures At(lo, size, m) + size <= At(lo, size, i) || At(lo, size, i) + size <= At(lo, size, m)
  {
    if m < i { AtGrows(lo, size, m, i); } else { AtGrows(lo, size, i, m); }
  }

  /** Elements before `store` are below the pivot, those from there to `i` are not. */
  ghost predicate Partly(es: seq<Bytes>, store: nat, i: nat, pivot: Bytes, cmp: Comparator) {
    && store <= i <= |es|
    && (forall k | 0 <= k < store :: cmp(es[k], pivot) < 0)
    && (forall k | store <= k < i :: cmp(es[k], pivot) >= 0)
  }

  /** One element swapped with another, at byte offsets computed as the source does. */
  method Exchange(a: array<Byte>, lo: nat, size: nat, ghost es: seq<Bytes>, i: nat, j: nat)
    requires Holds(a[..], lo, size, es) && i < |es| && j < |es|
    modifies a
    ensures Holds(a[..], lo, size, Swapped(es, i, j))
    ensures SameOutside(old(a[..]), a[..], lo, At(lo, size, |es|))
  {
    AtIsProduct(lo, size, i);
    AtIsProduct(lo, size, j);
    SwapAt(a, lo, size, es, i, j, lo + i * size, lo + j * size);
  }

  method SwapAt(a: array<Byte>, lo: nat, size: nat, ghost es: seq<Bytes>, ghost i: nat, ghost j: nat, p: nat, q: nat)
    requires Holds(a[..], lo, size, es) && i < |es| && j < |es| && p == At(lo, size, i) && q == At(lo, size, j)
    modifies a
    ensures Holds(a[..], lo, size, Swapped(es, i, j))
    ensures SameOutside(old(a[..]), a[..], lo, At(lo, size, |es|))
  {
    AtInside(lo, size, i, |es|);
    AtInside(lo, size, j, |es|);
    if i != j { Apart(lo, size, i, j); }
    ghost var was := a[..];
    SwapElements(a, p, q, size);
    SwapIsSwap(was, a[..], lo, size, es, i, j);
  }

  /** Reading an element out of the array. */
  method ElementAt(a: array<Byte>, lo: nat, size: nat, i: nat, ghost es: seq<Bytes>) returns (e: Bytes)
    requires Holds(a[..], lo, size, es) && i < |es|
    ensures e == es[i]
  {
    AtInside(lo, size, i, |es|);
    AtIsProduct(lo, size, i);
    e := a[lo + i * size..lo + i * size + size];
    assert Slice(a[..], lo + i * size, size) == es[i];
  }

  method BelowPivot(a: array<Byte>, lo: nat, n: nat, size: nat, cmp: Comparator, i: nat, ghost es: seq<Bytes>)
    returns (below: bool)
    requires n == |es| && i < n && Holds(a[..], lo, size, es)
    ensures below <==> cmp(es[i], es[n - 1]) < 0
  {
    var e := ElementAt(a, lo, size, i, es);
    var p := ElementAt(a, lo, size, n - 1, es);
    below := cmp(e, p) < 0;
  }

  /** One turn of the loop of `qsort`: element `i` joins the low part or stays. */
  method Sift(a: array<Byte>, lo: nat, n: nat, size: nat, cmp: Comparator, i: nat, store: nat, ghost es: seq<Bytes>)
    returns (next: nat, ghost fs: seq<Bytes>)
    requires n == |es| && i + 1 < n && Holds(a[..], lo, size, es) && Partly(es, store, i, es[n - 1], cmp)
    modifies a
    ensures |fs| == n && Holds(a[..], lo, size, fs) && Partly(fs, next, i + 1, fs[n - 1], cmp)
    ensures multiset(fs) == multiset(es)
    ensures SameOutside(old(a[..]), a[..], lo, At(lo, size, n))
  {
    next, fs := store, es;
    PartlyStep(es, store, i, es[n - 1], cmp);
    var below := BelowPivot(a, lo, n, size, cmp, i, es);
    if below {
      Exchange(a, lo, size, es, store, i);
      fs := Swapped(es, store, i);
      next := store + 1;
    }
  }

  /** The loop of `qsort` around its last element. */
  method Partition(a: array<Byte>, lo: nat, n: nat, size: nat, cmp: Comparator, ghost es: seq<Bytes>)
    returns (store: nat, ghost fs: seq<Bytes>)
    requires n == |es| > 0 && Holds(a[..], lo, size, es)
    modifies a
    ensures |fs| == n && Holds(a[..], lo, size, fs) && multiset(fs) == multiset(es) && Split(fs, store, cmp)
    ensures SameOutside(old(a[..]), a[..], lo, At(lo, size, n))
  {
    store, fs := 0, es;
    var i := 0;
    while i < n - 1
      invariant 0 <= i <= n - 1 && |fs| == n && Holds(a[..], lo, size, fs)
      invariant multiset(fs) == multiset(es)
      invariant Partly(fs, store, i, fs[n - 1], cmp)
      invariant SameOutside(old(a[..]), a[..], lo, At(lo, size, n))
    {
      ghost var s := a[..];
      store, fs := Sift(a, lo, n, size, cmp, i, store, fs);
      OutsideTwice(old(a[..]), s, a[..], lo, At(lo, size, n));
      i := i + 1;
    }
    ghost var s := a[..];
    fs := PlacePivot(a, lo, n, size, cmp, store, fs);
    OutsideTwice(old(a[..]), s, a[..], lo, At(lo, size, n));
  }

  lemma OutsideTwice(s: Bytes, t: Bytes, u: Bytes, lo: nat, hi: nat)
    requires SameOutside(s, t, lo, hi) && SameOutside(t, u, lo, hi)
    ensures SameOutside(s, u, lo, hi)
  {
  }

  /** The last swap of `qsort`, which puts the pivot between the two parts. */
  method PlacePivot(a: array<Byte>, lo: nat, n: nat, size: nat, cmp: Comparator, store: nat, ghost es: seq<Bytes>)
    returns (ghost fs: seq<Bytes>)
    requires n == |es| > 0 && Holds(a[..], lo, size, es) && Partly(es, store, n - 1, es[n - 1], cmp)
    modifies a
    ensures |fs| == n && Holds(a[..], lo, size, fs) && multiset(fs) == multiset(es) && Split(fs, store, cmp)
    ensures SameOutside(old(a[..]), a[..], lo, At(lo, size, n))
  {
    fs := PivotPlaced(es, store, cmp);
    Exchange(a, lo, size, es, store, n - 1);
  }

  ghost function Swapped(es: seq<Bytes>, i: nat, j: nat): seq<Bytes>
    requires i < |es| && j < |es|
  {
    es[i := es[j]][j := es[i]]
  }

  lemma PartlyStep(es: seq<Bytes>, store: nat, i: nat, pivot: Bytes, cmp: Comparator)
    requires Partly(es, store, i, pivot, cmp) && i + 1 < |es| && es[|es| - 1] == pivot
    ensures cmp(es[i], pivot) >= 0 ==> Partly(es, store, i + 1, pivot, cmp)
    ensures cmp(es[i], pivot) < 0 ==> Partly(Swapped(es, store, i), store + 1, i + 1, pivot, cmp)
    ensures Swapped(es, store, i)[|es| - 1] == pivot && multiset(Swapped(es, store, i)) == multiset(es)
  {
  }

  ghost function PivotPlaced(es: seq<Bytes>, store: nat, cmp: Comparator): (fs: seq<Bytes>)
    requires |es| > 0 && Partly(es, store, |es| - 1, es[|es| - 1], cmp)
    ensures store < |es| && fs == Swapped(es, store, |es| - 1) && Split(fs, store, cmp)
    ensures |fs| == |es| && multiset(fs) == multiset(es)
  {
    Swapped(es, store, |es| - 1)
  }

  /** Sorts the `n` elements from byte `lo` on. Whatever the comparator, the result is a
      permutation and no other byte changes; with a total preorder it is sorted. */
  method Qsort(a: array<Byte>, lo: nat, n: nat, size: nat, cmp: Comparator, ghost es: seq<Bytes>)
    returns (ghost fs: seq<Bytes>)
    requires size > 0 && n == |es| && Holds(a[..], lo, size, es)
    modifies a
    ensures |fs| == n && Holds(a[..], lo, size, fs) && multiset(fs) == multiset(es)
    ensures TotalPreorder(cmp, size) ==> Sorted(fs, cmp)
    ensures SameOutside(old(a[..]), a[..], lo, At(lo, size, n))
    decreases n, 1
  {
    if n <= 1 { return es; }
    var store;
    store, fs := Partition(a, lo, n, size, cmp, es);
    ghost var left, right;
    ghost var s0 := a[..];
    left, right := SortParts(a, lo, n, size, cmp, store, fs);
    OutsideTwice(old(a[..]), s0, a[..], lo, At(lo, size, n));
    HeldPartsSorted(s0, lo, size, fs, left, right, store, cmp);
    fs := left + [fs[store]] + right;
  }

  /** The two recursive calls of `qsort`, left and right of the pivot. */
  method SortParts(a: array<Byte>, lo: nat, n: nat, size: nat, cmp: Comparator, store: nat, ghost fs: seq<Bytes>)
    returns (ghost left: seq<Bytes>, ghost right: seq<Bytes>)
    requires size > 0 && n == |fs| && store < n && Holds(a[..], lo, size, fs)
    modifies a
    ensures Holds(a[..], lo, size, left + [fs[store]] + right) && SameOutside(old(a[..]), a[..], lo, At(lo, size, n))
    ensures multiset(left) == multiset(fs[..store]) && multiset(right) == multiset(fs[store + 1..])
    ensures |left| == store && |right| == n - store - 1
    ensures TotalPreorder(cmp, size) ==> Sorted(left, cmp) && Sorted(right, cmp)
    decreases n, 0
  {
    DivUnique(store * size, size, store, 0);
    AtIsProduct(lo, size, store);
    var leftCount := store * size / size;
    ghost var s0 := a[..];
    HoldsParts(s0, lo, size, fs, store);
    left := Qsort(a, lo, leftCount, size, cmp, fs[..store]);
    ghost var s1 := a[..];
    HoldsFrame(s0, s1, At(lo, size, store + 1), size, fs[store + 1..]);
    right := Qsort(a, lo + store * size + size, n - leftCount - 1, size, cmp, fs[store + 1..]);
    PartsHold(s0, s1, a[..], lo, size, fs, store, left, right);
  }

  lemma {:induction false} HoldsParts(s: Bytes, lo: nat, size: nat, es: seq<Bytes>, m: nat)
    requires Holds(s, lo, size, es) && m < |es|
    ensures Holds(s, lo, size, es[..m]) && Slice(s, At(lo, size, m), size) == es[m]
    ensures Holds(s, At(lo, size, m + 1), size, es[m + 1..])
    ensures lo <= At(lo, size, m) && At(lo, size, m) + size == At(lo, size, m + 1)
    ensures At(lo, size, m + 1) <= At(At(lo, size, m + 1), size, |es| - m - 1) == At(lo, size, |es|)
  {
    HoldsTake(s, lo, size, es, m);
    HoldsDrop(s, lo, size, es, m + 1);
    AtInside(lo, size, m, |es|);
    AtShift(lo, size, m + 1, |es| - m - 1);
  }

  /** Sorting the left part and then the right part in place leaves left, pivot, right. */
  lemma {:induction false} PartsHold(s0: Bytes, s1: Bytes, s2: Bytes, lo: nat, size: nat,
                                     fs: seq<Bytes>, m: nat, left: seq<Bytes>, right: seq<Bytes>)
    requires m < |fs| && Holds(s0, lo, size, fs) && |left| == m && |right| == |fs| - m - 1
    requires SameOutside(s0, s1, lo, At(lo, size, m)) && Holds(s1, lo, size, left)
    requires SameOutside(s1, s2, At(lo, size, m + 1), At(At(lo, size, m + 1), size, |right|))
    requires Holds(s2, At(lo, size, m + 1), size, right)
    ensures Holds(s2, lo, size, left + [fs[m]] + right)
    ensures SameOutside(s0, s2, lo, At(lo, size, |fs|))
  {
    HoldsParts(s0, lo, size, fs, m);
    HoldsFrame(s1, s2, lo, size, left);
    SliceFrame(s0, s2, At(lo, size, m), size);
    HoldsJoin(s2, lo, size, left, [fs[m]]);
    HoldsJoin(s2, lo, size, left + [fs[m]], right);
  }

  lemma HeldPartsSorted(s: Bytes, lo: nat, size: nat, fs: seq<Bytes>,
                        left: seq<Bytes>, right: seq<Bytes>, m: nat, cmp: Comparator)
    requires Holds(s, lo, size, fs) && Split(fs, m, cmp)
    requires multiset(left) == multiset(fs[..m]) && multiset(right) == multiset(fs[m + 1..])
    ensures multiset(left + [fs[m]] + right) == multiset(fs)
    ensures TotalPreorder(cmp, size) && Sorted(left, cmp) && Sorted(right, cmp) ==> Sorted(left + [fs[m]] + right, cmp)
  {
    HoldsSized(s, lo, size, fs);
    PartsSorted(fs, left, right, m, cmp, size);
  }

  /** A permuted left part, the pivot and a permuted right part permute the whole, and the
      whole is sorted when both parts are. */
  lemma PartsSorted(fs: seq<Bytes>, left: seq<Bytes>, right: seq<Bytes>, m: nat, cmp: Comparator, size: nat)
    requires Split(fs, m, cmp) && Sized(fs, size)
    requires multiset(left) == multiset(fs[..m]) && multiset(right) == multiset(fs[m + 1..])
    ensures multiset(left + [fs[m]] + right) == multiset(fs)
    ensures TotalPreorder(cmp, size) && Sorted(left, cmp) && Sorted(right, cmp) ==> Sorted(left + [fs[m]] + right, cmp)
  {
    assert fs == fs[..m] + [fs[m]] + fs[m + 1..];
    forall e | e in left ensures cmp(e, fs[m]) < 0 && |e| == size {
      assert e in multiset(left);
      assert e in fs[..m];
    }
    forall e | e in right ensures cmp(e, fs[m]) >= 0 && |e| == size {
      assert e in multiset(right);
      assert e in fs[m + 1..];
    }
    if TotalPreorder(cmp, size) && Sorted(left, cmp) && Sorted(right, cmp) {
      JoinSorted(left, fs[m], right, cmp, size);
    }
  }

  // ----- Searching -----

  /** Elements below the key come first, then those that match it, then those above. */
  ghost predicate Partitioned(key: Bytes, es: seq<Bytes>, cmp: Comparator) {
    && (forall i, j | 0 <= i <= j < |es| :: cmp(key, es[i]) < 0 ==> cmp(key, es[j]) < 0)
    && (forall i, j | 0 <= i <= j < |es| :: cmp(key, es[j]) > 0 ==> cmp(key, es[i]) > 0)
  }

  /** The index of the element found, or None for NULL. The key is never compared as an
      element and need not be of their size. */
  method Bsearch(key: Bytes, a: array<Byte>, n: nat, size: nat, cmp: Comparator, ghost es: seq<Bytes>)
    returns (r: Option<nat>)
    requires n == |es| && Holds(a[..], 0, size, es) && Partitioned(key, es, cmp)
    ensures r.Some? ==> r.value < n && cmp(key, es[r.value]) == 0
    ensures r.None? ==> forall e <- es :: cmp(key, e) != 0
  {
    var left, right := 0, n;
    while left < right
      invariant 0 <= left <= right <= n
      invariant forall k | 0 <= k < left :: cmp(key, es[k]) > 0
      invariant forall k | right <= k < n :: cmp(key, es[k]) < 0
    {
      var mid := left + (right - left) / 2;
      var e := ElementAt(a, 0, size, mid, es);
      var c := cmp(key, e);
      if c == 0 { return Some(mid); }
      if c < 0 { right := mid; } else { left := mid + 1; }
    }
    return None;
  }

  /** The comparator ranks the key among the elements of `size` bytes. */
  ghost predicate Ranks(cmp: Comparator, key: Bytes, size: nat) {
    forall a, b | |a| == size && |b| == size && cmp(a, b) <= 0 ::
      (cmp(key, a) < 0 ==> cmp(key, b) < 0) && (cmp(key, b) > 0 ==> cmp(key, a) > 0)
  }

  /** As a total preorder does with every key of that size. */
  lemma PreorderRanks(cmp: Comparator, key: Bytes, size: nat)
    requires TotalPreorder(cmp, size) && |key| == size
    ensures Ranks(cmp, key, size)
  {
    forall a, b | |a| == size && |b| == size && cmp(a, b) <= 0
      ensures (cmp(key, a) < 0 ==> cmp(key, b) < 0) && (cmp(key, b) > 0 ==> cmp(key, a) > 0)
    {
      if cmp(key, a) < 0 {
        assert cmp(a, key) > 0;
        assert cmp(b, key) <= 0 ==> cmp(a, key) <= 0;
        assert cmp(b, key) > 0;
      }
      assert cmp(key, a) <= 0 ==> cmp(key, b) <= 0;
    }
  }

  lemma SortedIsPartitioned(cmp: Comparator, key: Bytes, es: seq<Bytes>, size: nat)
    requires Sized(es, size) && Sorted(es, cmp) && Ranks(cmp, key, size)
    ensures Partitioned(key, es, cmp)
  {
    forall i, j | 0 <= i <= j < |es|
      ensures (cmp(key, es[i]) < 0 ==> cmp(key, es[j]) < 0) && (cmp(key, es[j]) > 0 ==> cmp(key, es[i]) > 0)
    {
      assert es[i] in es && es[j] in es;
      assert i < j ==> cmp(es[i], es[j]) <= 0;
    }
  }

  // ----- Whole arrays -----

  /** The first `n` elements of an array. */
  ghost function Elements(s: Bytes, n: nat, size: nat): (es: seq<Bytes>)
    requires At(0, size, n) <= |s|
    ensures |es| == n && Holds(s, 0, size, es)
  {
    if n == 0 then [] else Elements(s, n - 1, size) + [Slice(s, At(0, size, n - 1), size)]
  }

  lemma HoldsUnique(s: Bytes, lo: nat, size: nat, es: seq<Bytes>, fs: seq<Bytes>)
    requires Holds(s, lo, size, es) && Holds(s, lo, size, fs) && |es| == |fs|
    ensures es == fs
  {
    forall i: nat | i < |es| ensures es[i] == fs[i] { assert Slice(s, At(lo, size, i), size) == es[i]; }
  }

  /** `qsort(base, nmemb, size, compar)` */
  method Sort(a: array<Byte>, n: nat, size: nat, cmp: Comparator)
    requires size > 0 && At(0, size, n) <= a.Length
    modifies a
    ensures multiset(Elements(a[..], n, size)) == multiset(old(Elements(a[..], n, size)))
    ensures TotalPreorder(cmp, size) ==> Sorted(Elements(a[..], n, size), cmp)
    ensures SameOutside(old(a[..]), a[..], 0, At(0, size, n))
  {
    ghost var fs := Qsort(a, 0, n, size, cmp, Elements(a[..], n, size));
    HoldsUnique(a[..], 0, size, fs, Elements(a[..], n, size));
  }

  /** Sorting and then searching answers "was there a matching element". */
  method SortAndSearch(key: Bytes, a: array<Byte>, n: nat, size: nat, cmp: Comparator) returns (found: bool)
    requires size > 0 && At(0, size, n) <= a.Length && TotalPreorder(cmp, size) && Ranks(cmp, key, size)
    modifies a
    ensures found <==> exists e <- old(Elements(a[..], n, size)) :: cmp(key, e) == 0
  {
    ghost var es := Elements(a[..], n, size);
    Sort(a, n, size, cmp);
    ghost var fs := Elements(a[..], n, size);
    assert forall e :: e in es <==> e in multiset(es);
    assert forall e :: e in fs <==> e in multiset(fs);
    HoldsSized(a[..], 0, size, fs);
    SortedIsPartitioned(cmp, key, fs, size);
    var r := Bsearch(key, a, n, size, cmp, fs);
    found := r.Some?;
    if found { assert fs[r.value] in es; }
  }
}
