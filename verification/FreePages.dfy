/** What the physical page allocator is for, stated without its bitmap: a set of free
    page numbers from which the lowest is handed out. Address 0 doubles as the failure
    value of `pmm_alloc_page`. */
module FreePages {

  const PAGE_SIZE: nat := 4096

  datatype Grant = Grant(free: set<nat>, addr: nat)

  ghost predicate IsMin(s: set<nat>, m: nat) { m in s && forall k <- s :: m <= k }

  lemma {:induction false} MinExists(s: set<nat>)
    requires s != {}
    ensures exists m: nat :: IsMin(s, m)
  {
    var x :| x in s;
    var rest := s - {x};
    assert s == rest + {x};
    if rest == {} {
      assert IsMin(s, x);
    } else {
      MinExists(rest);
      var m: nat :| IsMin(rest, m);
      if x <= m { assert IsMin(s, x); } else { assert IsMin(s, m); }
    }
  }

  ghost function Min(s: set<nat>): (m: nat)
    requires s != {}
    ensures m in s && forall k <- s :: m <= k
  {
    MinExists(s);
    var m: nat :| IsMin(s, m);
    m
  }

  ghost function AllocPage(free: set<nat>): (g: Grant)
    ensures free == {} ==> g == Grant({}, 0)
    ensures free != {} ==>
              && g.addr % PAGE_SIZE == 0 && g.addr / PAGE_SIZE in free && g.free == free - {g.addr / PAGE_SIZE}
              && forall p <- free :: g.addr / PAGE_SIZE <= p
  {
    if free == {} then Grant(free, 0) else Grant(free - {Min(free)}, Min(free) * PAGE_SIZE)
  }

  ghost function FreePage(free: set<nat>, total: nat, addr: nat): set<nat> {
    if addr / PAGE_SIZE < total then free + {addr / PAGE_SIZE} else free
  }

  /** "0 means out of memory" is right exactly when page 0 is not itself up for allocation. */
  lemma ZeroMeansExhausted(free: set<nat>)
    ensures (AllocPage(free).addr == 0 <==> free == {}) <==> 0 !in free
  {
    if 0 in free { assert Min(free) == 0; }
  }

  // ----- Runs of a client that frees only what it holds -----

  datatype Request = Get | Put(page: nat)

  /** Page numbers still free, page numbers handed out and not yet returned. */
  datatype Ledger = Ledger(free: set<nat>, held: set<nat>)

  ghost predicate Honest(l: Ledger, r: Request) {
    r.Put? ==> r.page in l.held
  }

  ghost function Serve(l: Ledger, total: nat, r: Request): Ledger {
    match r
    case Get =>
      var g := AllocPage(l.free);
      Ledger(g.free, if g.addr == 0 then l.held else l.held + {g.addr / PAGE_SIZE})
    case Put(p) => Ledger(FreePage(l.free, total, p * PAGE_SIZE), l.held - {p})
  }

  ghost function ServeAll(l: Ledger, total: nat, rs: seq<Request>): Ledger
    decreases |rs|
  {
    if rs == [] then l else ServeAll(Serve(l, total, rs[0]), total, rs[1..])
  }

  ghost predicate HonestRun(l: Ledger, total: nat, rs: seq<Request>)
    decreases |rs|
  {
    rs == [] || (Honest(l, rs[0]) && HonestRun(Serve(l, total, rs[0]), total, rs[1..]))
  }

  ghost predicate Sound(l: Ledger, total: nat) {
    && 0 !in l.free
    && l.free !! l.held
    && forall p <- l.free + l.held :: 0 < p < total
  }

  lemma ServeConserves(l: Ledger, total: nat, r: Request)
    requires Sound(l, total) && Honest(l, r)
    ensures var l' := Serve(l, total, r);
            && Sound(l', total) && l'.free + l'.held == l.free + l.held
            && (r.Get? && l.free != {} ==> AllocPage(l.free).addr / PAGE_SIZE !in l.held)
            && (r.Get? ==> (l'.held == l.held <==> l.free == {}))
  {
    match r
    case Get =>
      if l.free != {} {
        var m := Min(l.free);
        assert m * PAGE_SIZE / PAGE_SIZE == m;
        assert m in l.free && m !in l.held;
        assert Serve(l, total, r).free + Serve(l, total, r).held == l.free + l.held;
      }
    case Put(p) =>
      assert p * PAGE_SIZE / PAGE_SIZE == p;
      assert p in l.free + l.held;
  }

  /** Over every honest run no page is lost, gained, or held and free at once. */
  lemma {:induction false} RunConserves(l: Ledger, total: nat, rs: seq<Request>)
    requires Sound(l, total) && HonestRun(l, total, rs)
    ensures var l' := ServeAll(l, total, rs);
            && Sound(l', total) && l'.free + l'.held == l.free + l.held
            && |l'.free| + |l'.held| == |l.free| + |l.held|
    decreases |rs|
  {
    if rs != [] {
      ServeConserves(l, total, rs[0]);
      RunConserves(Serve(l, total, rs[0]), total, rs[1..]);
    }
    var l' := ServeAll(l, total, rs);
    assert |l'.free + l'.held| == |l'.free| + |l'.held|;
    assert |l.free + l.held| == |l.free| + |l.held|;
  }

  /** Put undoes Get: returning the page just granted restores the free set. */
  lemma PutUndoesGet(l: Ledger, total: nat)
    requires Sound(l, total) && l.free != {}
    ensures var g := AllocPage(l.free);
            g.addr != 0 && FreePage(g.free, total, g.addr) == l.free
  {
    var m := Min(l.free);
    assert m in l.free + l.held;
    assert m * PAGE_SIZE / PAGE_SIZE == m;
  }
}
