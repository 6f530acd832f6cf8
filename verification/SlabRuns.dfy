/** Whole runs of the object allocator on top of the page allocator: any sequence of allocations
    and frees, of whatever sizes, keeps the caches and the page map consistent; the objects in use
    are exactly those handed out and not yet freed; and nothing leaks. */
module SlabRuns {
  import opened Wrappers
  import opened Dyadic
  import opened PageMap
  import opened Partition
  import opened Slabs
  import opened SlabPool
  import Allocating
  import CanonicalForm
  import Freeing
  import Runs

  /** The page allocator with the owners of its pages, and the caches. */
  datatype Heap = Heap(sys: Runs.Sys, pool: Pool)

  ghost predicate Inv(h: Heap) {
    Runs.Inv(h.sys) && PoolOk(h.pool, h.sys.D)
  }

  /** What handing out one object changes: that object of that slab is in use now, and nobody
      held it before. */
  ghost predicate HandsOut(s: Pool, t: Pool, c: nat, page: nat, objp: nat) {
    && (forall d: nat, q: nat, a: nat :: InUse(t, d, q, a) <==> InUse(s, d, q, a) || (d == c && q == page && a == objp))
    && (forall d: nat, q: nat :: !InUse(s, d, q, objp))
  }

  /** What taking one object back changes: that object is no longer in use. */
  ghost predicate TakesBack(s: Pool, t: Pool, c: nat, page: nat, objp: nat) {
    forall d: nat, q: nat, a: nat :: InUse(t, d, q, a) <==> InUse(s, d, q, a) && !(d == c && q == page && a == objp)
  }

  ghost predicate SameGeometry(s: Pool, t: Pool) {
    |t.caches| == |s.caches| && forall c :: 0 <= c < |s.caches| ==> t.caches[c].geo == s.caches[c].geo
  }

  ghost predicate SameSlabs(s: Pool, t: Pool) {
    forall d: nat, q: nat :: HasSlab(t, d, q) <==> HasSlab(s, d, q)
  }

  ghost predicate OneMoreSlab(s: Pool, t: Pool, c: nat, p: nat) {
    forall d: nat, q: nat :: HasSlab(t, d, q) <==> HasSlab(s, d, q) || (d == c && q == p)
  }

  ghost predicate OneSlabLess(s: Pool, t: Pool, c: nat, p: nat) {
    forall d: nat, q: nat :: HasSlab(t, d, q) <==> HasSlab(s, d, q) && !(d == c && q == p)
  }

  // --- an object from a slab that is there -------------------------------------------------

  /** Handing out an object of a partial slab. */
  lemma GiveEffect(s: Pool, D: seq<Owner>, c: nat, page: nat)
    requires PoolOk(s, D) && Partitioned(D) && c < |s.caches| && page in s.caches[c].partial
    ensures page < |s.slabs| && s.slabs[page].freelist != []
    ensures var t := Given(s, c, page);
      && PoolOk(t, D) && SameGeometry(s, t) && SameSlabs(s, t)
      && HandsOut(s, t, c, page, s.slabs[page].freelist[0])
  {
    GivenFromPartial(s, D, c, page);
    var sl := s.slabs[page];
    var sl' := sl.(freelist := sl.freelist[1..], inuse := sl.inuse + 1);
    DetachOk(s, D, c, page);
    AttachOk(Detach(s, c, page), D, c, page, sl');
    ExchangeSlabs(s, D, c, page, sl');
    SlabOf(s, D, c, page);
    GivenInUse(s, D, c, page, sl', Given(s, c, page));
  }

  lemma GivenInUse(s: Pool, D: seq<Owner>, c: nat, page: nat, sl': Slab, t: Pool)
    requires PoolOk(s, D) && Partitioned(D) && HasSlab(s, c, page) && page < |s.slabs|
    requires var sl := s.slabs[page];
      && GoodSlab(s.caches[c].geo, c, sl, D, page) && sl.freelist != []
      && sl' == sl.(freelist := sl.freelist[1..], inuse := sl.inuse + 1)
    requires t == Attach(Detach(s, c, page), c, page, sl')
    ensures HandsOut(s, t, c, page, s.slabs[page].freelist[0])
  {
    hide PoolOk, Attach, Detach;
    var sl := s.slabs[page];
    var objp := sl.freelist[0];
    assert sl.freelist == [objp] + sl'.freelist && objp !in sl'.freelist;
    forall d: nat, q: nat, a: nat
      ensures InUse(t, d, q, a) <==> InUse(s, d, q, a) || (d == c && q == page && a == objp)
    {
      ExchangeInUse(s, D, c, page, sl', d, q, a);
      if HasSlab(s, d, page) { SlabOf(s, D, d, page); }
    }
    forall d: nat, q: nat
      ensures !InUse(s, d, q, objp)
    {
      SlotHasOneOwner(s, D, c, page, objp, d, q);
    }
  }

  lemma ExchangeSlabs(s: Pool, D: seq<Owner>, c: nat, p: nat, sl: Slab)
    requires PoolOk(s, D) && HasSlab(s, c, p) && p < |s.slabs|
    ensures var t := Attach(Detach(s, c, p), c, p, sl); SameSlabs(s, t) && SameGeometry(s, t)
  {
    assert GoodLists(s, D, c);
    WithoutFacts(s.caches[c].partial, p);
    WithoutFacts(s.caches[c].full, p);
  }

  /** A slot on a free list is in nobody's use. */
  lemma SlotHasOneOwner(s: Pool, D: seq<Owner>, c: nat, p: nat, a: nat, d: nat, q: nat)
    requires PoolOk(s, D) && Partitioned(D) && HasSlab(s, c, p) && p < |s.slabs| && a in s.slabs[p].freelist
    ensures !InUse(s, d, q, a)
  {
    SlabOf(s, D, c, p);
    if InUse(s, d, q, a) {
      SlabOf(s, D, d, q);
      ObjectInBlock(s.caches[c].geo, p, a, a);
      ObjectInBlock(s.caches[d].geo, q, a, a);
      HeadOwns(D, p);
      HeadOwns(D, q);
    }
  }

  /** An object in use belongs to one slab of one cache. */
  lemma OneSlab(s: Pool, D: seq<Owner>, c: nat, p: nat, d: nat, q: nat, a: nat)
    requires PoolOk(s, D) && Partitioned(D) && InUse(s, c, p, a) && InUse(s, d, q, a)
    ensures c == d && p == q
  {
    SlabOf(s, D, c, p);
    SlabOf(s, D, d, q);
    ObjectInBlock(s.caches[c].geo, p, a, a);
    ObjectInBlock(s.caches[d].geo, q, a, a);
    HeadOwns(D, p);
    HeadOwns(D, q);
  }

  // --- an object from a new slab -------------------------------------------------------------

  /** D' differs from D in free pages only, and block (p, k) of it is live. */
  ghost predicate TakesBlock(D: seq<Owner>, D': seq<Owner>, p: nat, k: nat) {
    && |D'| == |D| && LiveHead(D', p, k) && (forall x :: InBlock(p, k, x) ==> 0 <= x < |D| && D[x].Free?)
    && (forall x :: 0 <= x < |D| && !D[x].Free? ==> D'[x] == D[x])
    && (forall x :: 0 <= x < |D| ==> (D'[x].Free? <==> D[x].Free? && !InBlock(p, k, x)))
  }

  /** No aligned run of free pages of that order is left. */
  ghost predicate NoRoom(D: seq<Owner>, order: nat) {
    !exists p: nat :: Fits(D, p, order) && CanonicalForm.AllFree(D, p, order)
  }

  /** What `alloc_pages` does for a cache. */
  lemma AllocEffect(s: Runs.Sys, order: nat)
    requires Runs.Inv(s)
    ensures Allocating.WellListed(s.m)
    ensures var r, t := Allocating.AllocPages(s.m, order).1, Runs.Step(s, Runs.Alloc(order));
      && (r == None <==> NoRoom(s.D, order)) && (r == None ==> t == s)
      && (r.Some? ==> TakesBlock(s.D, t.D, r.value, order))
  {
    Allocating.RepresentsWellListed(s.m, s.D);
    Allocating.AllocFailsExactlyWhen(s.m, s.D, order);
    if Allocating.AllocPages(s.m, order).1.Some? {
      Allocating.AllocSound(s.m, s.D, order);
      hide Allocating.Taken, Allocating.AllocPages, Represents, Partitioned, Canonical, FirstOrder;
      BlockStarts(order);
    }
  }

  lemma BlockStarts(k: nat)
    ensures Pow2(k) > 0
  {
  }

  lemma NewCounted(s: Pool, D: seq<Owner>, D': seq<Owner>, c: nat, p: nat)
    requires PoolOk(s, D) && c < |s.caches| && TakesBlock(D, D', p, s.caches[c].geo.order)
    ensures PoolOk(s, D') && Unlisted(s, p) && p < |s.slabs|
  {
    forall d: nat, q: nat | HasSlab(s, d, q)
      ensures q < |D| && D'[q] == D[q] && q != p
    {
      SlabOf(s, D, d, q);
      BlockStarts(s.caches[c].geo.order);
      assert InBlock(p, s.caches[c].geo.order, p);
    }
    PoolFrame(s, D, D', s.slabs);
    assert s.(slabs := s.slabs) == s;
  }

  /** A block that was free becomes a slab with one object handed out. */
  lemma NewEffect(s: Pool, D: seq<Owner>, D': seq<Owner>, c: nat, p: nat)
    requires PoolOk(s, D) && Partitioned(D) && c < |s.caches| && TakesBlock(D, D', p, s.caches[c].geo.order)
    ensures p < |s.slabs| && Grown(s, c, p).slabs[p].freelist != []
    ensures Grown(s, c, p).slabs[p].freelist[0] == p * PAGE_SIZE
    ensures var t := Given(Grown(s, c, p), c, p);
      PoolOk(t, D') && SameGeometry(s, t) && OneMoreSlab(s, t, c, p) && HandsOut(s, t, c, p, p * PAGE_SIZE)
  {
    var g := s.caches[c].geo;
    assert GoodLists(s, D, c);
    NewCounted(s, D, D', c, p);
    GivenFromGrown(s, D', c, p);
    var sl := Slab(c, 1, SlotList(g, p, g.nums)[1..]);
    AttachOk(Counted(s, c), D', c, p, sl);
    AttachedSlabs(s, c, p, sl);
    NewInUse(s, D, D', c, p, sl, Attach(Counted(s, c), c, p, sl));
  }

  lemma AttachedSlabs(s: Pool, c: nat, p: nat, sl: Slab)
    requires c < |s.caches| && p < |s.slabs|
    ensures var t := Attach(Counted(s, c), c, p, sl); SameGeometry(s, t) && OneMoreSlab(s, t, c, p)
  {
  }

  lemma NewInUse(s: Pool, D: seq<Owner>, D': seq<Owner>, c: nat, p: nat, sl: Slab, t: Pool)
    requires PoolOk(s, D) && Partitioned(D) && c < |s.caches| && TakesBlock(D, D', p, s.caches[c].geo.order)
    requires p < |s.slabs| && Unlisted(s, p) && GoodGeometry(s.caches[c].geo)
    requires var g := s.caches[c].geo;
      sl == Slab(c, 1, SlotList(g, p, g.nums)[1..]) && t == Attach(Counted(s, c), c, p, sl)
    ensures HandsOut(s, t, c, p, p * PAGE_SIZE)
  {
    hide PoolOk, GoodGeometry;
    var g := s.caches[c].geo;
    var l := SlotList(g, p, g.nums);
    SlotListFacts(g, p);
    assert l == [l[0]] + l[1..] && l[0] == p * PAGE_SIZE;
    AttachedSlabs(s, c, p, sl);
    forall d: nat, q: nat, a: nat
      ensures InUse(t, d, q, a) <==> InUse(s, d, q, a) || (d == c && q == p && a == p * PAGE_SIZE)
    {
      if d < |s.caches| { assert !HasSlab(s, d, p); }
    }
    assert InBlock(p, g.order, p) by { BlockStarts(g.order); }
    forall d: nat, q: nat
      ensures !InUse(s, d, q, p * PAGE_SIZE)
    {
      FreePageHoldsNoObject(s, D, p, d, q);
    }
  }

  lemma FreePageHoldsNoObject(s: Pool, D: seq<Owner>, p: nat, d: nat, q: nat)
    requires PoolOk(s, D) && Partitioned(D) && p < |D| && D[p].Free?
    ensures !InUse(s, d, q, p * PAGE_SIZE)
  {
    if InUse(s, d, q, p * PAGE_SIZE) {
      SlabOf(s, D, d, q);
      ObjectInBlock(s.caches[d].geo, q, p * PAGE_SIZE, p * PAGE_SIZE);
      HeadOwns(D, q);
    }
  }

  // --- taking an object back -----------------------------------------------------------------

  /** What `__bfree` does to the caches. */
  lemma TakeBackEffect(s: Pool, D: seq<Owner>, c: nat, p: nat, a: nat)
    requires PoolOk(s, D) && Partitioned(D) && InUse(s, c, p, a)
    ensures c < |s.caches| && p < |s.slabs| && LiveHead(D, p, s.caches[c].geo.order)
    ensures var (t, empty) := TakenBack(s, c, p, a);
      && TakesBack(s, t, c, p, a) && SameGeometry(s, t) && (empty <==> s.slabs[p].inuse == 1)
      && (if empty then OneSlabLess(s, t, c, p) else PoolOk(t, D) && SameSlabs(s, t))
  {
    TakenBackOk(s, D, c, p, a);
    SlabOf(s, D, c, p);
    DetachOk(s, D, c, p);
    var (t, empty) := TakenBack(s, c, p, a);
    var sl := s.slabs[p];
    var sl' := sl.(freelist := sl.freelist + [a], inuse := Decrement(sl.inuse));
    ExchangeSlabs(s, D, c, p, sl');
    if empty {
      DetachedSlabs(s, D, c, p, t);
    } else {
      AttachOk(Detach(s, c, p), D, c, p, sl');
    }
    TakenInUse(s, D, c, p, a, sl', t, empty);
  }

  lemma DetachedSlabs(s: Pool, D: seq<Owner>, c: nat, p: nat, t: Pool)
    requires PoolOk(s, D) && HasSlab(s, c, p) && p < |s.slabs| && t.caches == Detach(s, c, p).caches
    ensures OneSlabLess(s, t, c, p) && SameGeometry(s, t)
  {
    assert GoodLists(s, D, c);
    WithoutFacts(s.caches[c].partial, p);
    WithoutFacts(s.caches[c].full, p);
  }

  lemma TakenInUse(s: Pool, D: seq<Owner>, c: nat, p: nat, a: nat, sl': Slab, t: Pool, empty: bool)
    requires PoolOk(s, D) && Partitioned(D) && InUse(s, c, p, a)
    requires sl' == s.slabs[p].(freelist := s.slabs[p].freelist + [a], inuse := Decrement(s.slabs[p].inuse))
    requires !empty ==> t == Attach(Detach(s, c, p), c, p, sl')
    requires empty ==> s.slabs[p].inuse == 1 && t == Detach(s, c, p).(slabs := s.slabs[p := sl'])
    ensures TakesBack(s, t, c, p, a)
  {
    if empty {
      DetachedSlabs(s, D, c, p, t);
      hide PoolOk, Detach;
      forall d: nat, q: nat, b: nat
        ensures InUse(t, d, q, b) <==> InUse(s, d, q, b) && !(d == c && q == p && b == a)
      {
        LastObject(s, D, c, p, a, b);
        if q == p && HasSlab(s, d, p) {
          SlabOf(s, D, d, p);
          SlabOf(s, D, c, p);
        }
      }
    } else {
      hide PoolOk, Attach, Detach;
      forall d: nat, q: nat, b: nat
        ensures InUse(t, d, q, b) <==> InUse(s, d, q, b) && !(d == c && q == p && b == a)
      {
        ExchangeInUse(s, D, c, p, sl', d, q, b);
        SlabOf(s, D, c, p);
        if HasSlab(s, d, p) { SlabOf(s, D, d, p); }
      }
    }
  }

  /** A slab with one object in use has no other. */
  lemma LastObject(s: Pool, D: seq<Owner>, c: nat, p: nat, a: nat, b: nat)
    requires PoolOk(s, D) && InUse(s, c, p, a) && s.slabs[p].inuse == 1
    ensures InUse(s, c, p, b) <==> b == a
  {
    InuseCounts(s, D, c, p);
    OnlyOne(UsedSlots(s, c, p), a, b);
  }

  lemma OnlyOne(used: set<nat>, a: nat, b: nat)
    requires |used| == 1 && a in used
    ensures b in used <==> b == a
  {
    assert |used - {a}| == 0;
    assert used == {a};
  }

  /** Block (p, k) has become free, and no other page has changed hands. */
  ghost predicate ReturnsBlock(D: seq<Owner>, D': seq<Owner>, p: nat, k: nat) {
    && |D'| == |D|
    && forall x :: 0 <= x < |D| ==>
         (D'[x].Free? <==> D[x].Free? || InBlock(p, k, x)) && (!D'[x].Free? ==> D'[x] == D[x])
  }

  /** The pool after an empty slab has gone back to the page allocator. */
  lemma EmptySlabGone(s: Pool, D: seq<Owner>, D': seq<Owner>, c: nat, p: nat, a: nat)
    requires PoolOk(s, D) && Partitioned(D) && InUse(s, c, p, a) && s.slabs[p].inuse == 1
    requires ReturnsBlock(D, D', p, s.caches[c].geo.order)
    ensures PoolOk(TakenBack(s, c, p, a).0, D')
  {
    var t := TakenBack(s, c, p, a).0;
    TakenBackOk(s, D, c, p, a);
    DetachOk(s, D, c, p);
    SlabOf(s, D, c, p);
    HeadOwns(D, p);
    var u := Detach(s, c, p);
    forall d: nat, q: nat | HasSlab(u, d, q)
      ensures q < |D| && D'[q] == D[q] && t.slabs[q] == u.slabs[q]
    {
      assert q != p;
      SlabOf(u, D, d, q);
    }
    PoolFrame(u, D, D', t.slabs);
  }

  // --- calls -------------------------------------------------------------------------------

  /** `bmem_cache_alloc` of cache c, `bmalloc` and `bfree`. */
  datatype Call = CacheAlloc(c: nat) | Bmalloc(size: nat) | Bfree(objp: nat)

  /** The compound head that `bfree` finds for an address, and the cache of its slab. */
  function PageOf(h: Heap, objp: nat): Option<nat> {
    if objp / PAGE_SIZE < |h.sys.m.pages| then Some(h.sys.m.pages[objp / PAGE_SIZE].head) else None
  }

  /** `bfree` finds the slab that the object came from. */
  ghost predicate Found(h: Heap, c: nat, p: nat, objp: nat) {
    InUse(h.pool, c, p, objp) && PageOf(h, objp) == Some(p)
  }

  lemma FoundFacts(h: Heap, c: nat, p: nat, objp: nat)
    requires Inv(h) && Found(h, c, p, objp)
    ensures c < |h.pool.caches| && p < |h.pool.slabs| && h.pool.slabs[p].cache == c
    ensures var k := h.pool.caches[c].geo.order;
      && LiveHead(h.sys.D, p, k) && Aligned(p, k) && p < |h.sys.D|
      && h.sys.D[p] == Live(p, k) && h.pool.slabs[p].inuse > 0
  {
    SlabOf(h.pool, h.sys.D, c, p);
    HeadOwns(h.sys.D, p);
  }

  /** Giving the object back is safe: if it is the last one of its slab, the merge loop of
      `free_page` stops at a page that is not FREE. */
  ghost predicate SafeToFree(h: Heap, c: nat, p: nat, objp: nat) {
    && Found(h, c, p, objp)
    && (p < |h.pool.slabs| && c < |h.pool.caches| && h.pool.slabs[p].inuse == 1 ==>
          Aligned(p, h.pool.caches[c].geo.order)
          && Freeing.MergeStops(h.sys.m, p, h.pool.caches[c].geo.order))
  }

  lemma FoundWhenSafe(h: Heap, c: nat, p: nat, objp: nat)
    requires SafeToFree(h, c, p, objp)
    ensures Found(h, c, p, objp)
  {
  }

  /** Whom a call serves: allocations need a cache, frees an object in use that is safe to free. */
  ghost predicate Allowed(h: Heap, call: Call) {
    match call
    case CacheAlloc(c) => c < |h.pool.caches|
    case Bmalloc(size) => BmallocIndex(size).Some? ==> BmallocIndex(size).value < |h.pool.caches|
    case Bfree(objp) => exists c, p :: SafeToFree(h, c, p, objp)
  }

  /** `bmem_cache_alloc` as a function: the new heap and the answer. */
  ghost function Allocate(h: Heap, c: nat): (r: (Heap, Option<nat>))
    requires Inv(h) && c < |h.pool.caches|
    ensures Inv(r.0)
  {
    var s, D, ca := h.pool, h.sys.D, h.pool.caches[c];
    if ca.partial != [] then
      GiveEffect(s, D, c, ca.partial[0]);
      (Heap(h.sys, Given(s, c, ca.partial[0])), Some(s.slabs[ca.partial[0]].freelist[0]))
    else
      AllocEffect(h.sys, ca.geo.order);
      var page := Allocating.AllocPages(h.sys.m, ca.geo.order).1;
      if page == None then (h, None)
      else
        var sys := Runs.Step(h.sys, Runs.Alloc(ca.geo.order));
        NewEffect(s, D, sys.D, c, page.value);
        (Heap(sys, Given(Grown(s, c, page.value), c, page.value)), Some(page.value * PAGE_SIZE))
  }

  lemma AllocateNew(h: Heap, c: nat)
    requires Inv(h) && c < |h.pool.caches| && h.pool.caches[c].partial == []
    ensures Allocating.WellListed(h.sys.m)
    ensures var k := h.pool.caches[c].geo.order;
      var page := Allocating.AllocPages(h.sys.m, k).1;
      if page == None then Allocate(h, c) == (h, None)
      else
        var p, t := page.value, Runs.Step(h.sys, Runs.Alloc(k));
        && p < |h.pool.slabs| && Grown(h.pool, c, p).slabs[p].freelist != []
        && Grown(h.pool, c, p).slabs[p].freelist[0] == p * PAGE_SIZE
        && Allocate(h, c) == (Heap(t, Given(Grown(h.pool, c, p), c, p)), Some(p * PAGE_SIZE))
        && HandsOut(h.pool, Allocate(h, c).0.pool, c, p, p * PAGE_SIZE)
  {
    hide Represents, Partitioned, Canonical, PoolOk, HandsOut, Given, Grown, TakesBlock, Runs.Step;
    var k := h.pool.caches[c].geo.order;
    AllocEffect(h.sys, k);
    var page := Allocating.AllocPages(h.sys.m, k).1;
    if page.Some? { NewEffect(h.pool, h.sys.D, Runs.Step(h.sys, Runs.Alloc(k)).D, c, page.value); }
  }

  /** `bfree` as a function. */
  ghost function Release(h: Heap, c: nat, p: nat, objp: nat): (t: Heap)
    requires Inv(h) && SafeToFree(h, c, p, objp)
    ensures Inv(t)
  {
    FoundFacts(h, c, p, objp);
    TakeBackEffect(h.pool, h.sys.D, c, p, objp);
    var (pool, empty) := TakenBack(h.pool, c, p, objp);
    if !empty then Heap(h.sys, pool)
    else
      var sys := Runs.Step(h.sys, Runs.Release(p));
      ReleaseEffect(h.sys, p);
      EmptySlabGone(h.pool, h.sys.D, sys.D, c, p, objp);
      Heap(sys, pool)
  }

  lemma ReleaseEffect(s: Runs.Sys, p: nat)
    requires Runs.Inv(s) && Runs.Allowed(s, Runs.Release(p))
    ensures ReturnsBlock(s.D, Runs.Step(s, Runs.Release(p)).D, p, s.D[p].order)
  {
    Freeing.ReturnedFacts(s.m, s.D, p, s.D[p].order);
    Freeing.SafeFree(s.m, s.D, p, s.D[p].order);
  }

  ghost function Step(h: Heap, call: Call): (r: (Heap, Option<nat>))
    requires Inv(h) && Allowed(h, call)
    ensures Inv(r.0)
  {
    match call
    case CacheAlloc(c) => Allocate(h, c)
    case Bmalloc(size) =>
      var index := BmallocIndex(size);
      if index == None then (h, None) else Allocate(h, index.value)
    case Bfree(objp) =>
      var c, p :| SafeToFree(h, c, p, objp);
      (Release(h, c, p, objp), None)
  }

  /** Whichever slab is named, freeing the object is the same step. */
  lemma StepOfFree(h: Heap, c: nat, p: nat, objp: nat)
    requires Inv(h) && SafeToFree(h, c, p, objp)
    ensures Allowed(h, Bfree(objp)) && Step(h, Bfree(objp)) == (Release(h, c, p, objp), None)
  {
    hide PoolOk, Partitioned, Release;
    var d, q :| SafeToFree(h, d, q, objp) && Step(h, Bfree(objp)) == (Release(h, d, q, objp), None);
    FoundWhenSafe(h, c, p, objp);
    FoundWhenSafe(h, d, q, objp);
    OneSlab(h.pool, h.sys.D, c, p, d, q, objp);
  }

  ghost predicate AllAllowed(h: Heap, calls: seq<Call>)
    requires Inv(h)
    decreases |calls|
  {
    calls == [] || (Allowed(h, calls[0]) && AllAllowed(Step(h, calls[0]).0, calls[1..]))
  }

  /** A whole run: it ends consistent because every step does. */
  ghost function Run(h: Heap, calls: seq<Call>): (t: Heap)
    requires Inv(h) && AllAllowed(h, calls)
    ensures Inv(t)
    decreases |calls|
  {
    if calls == [] then h else Run(Step(h, calls[0]).0, calls[1..])
  }

  /** What the calls of a run return. */
  ghost function Answers(h: Heap, calls: seq<Call>): seq<Option<nat>>
    requires Inv(h) && AllAllowed(h, calls)
    decreases |calls|
  {
    if calls == [] then []
    else
      var (t, r) := Step(h, calls[0]);
      [r] + Answers(t, calls[1..])
  }

  /** A run that is not over: its first call, then the others. */
  lemma RunGoesOn(h: Heap, calls: seq<Call>, i: nat)
    requires i < |calls| && Inv(h) && AllAllowed(h, calls[i..])
    ensures Allowed(h, calls[i])
    ensures var (t, r) := Step(h, calls[i]);
      && AllAllowed(t, calls[i + 1..]) && Run(h, calls[i..]) == Run(t, calls[i + 1..])
      && Answers(h, calls[i..]) == [r] + Answers(t, calls[i + 1..])
  {
    hide Inv, Step, Allowed;
    assert calls[i..][0] == calls[i] && calls[i..][1..] == calls[i + 1..];
  }

  // --- every allocation and every free ---------------------------------------------------------

  /** The pages that are free or belong to a slab. */
  ghost predicate Spare(h: Heap, x: nat) {
    x < |h.sys.D| && (h.sys.D[x].Free? || InSlab(h.pool, x))
  }

  ghost predicate InSlab(s: Pool, x: nat) {
    exists c: nat, p: nat :: HasSlab(s, c, p) && InBlock(p, s.caches[c].geo.order, x)
  }

  ghost predicate SameSpare(h: Heap, t: Heap) {
    |t.sys.D| == |h.sys.D| && SameGeometry(h.pool, t.pool) && forall x: nat :: Spare(t, x) <==> Spare(h, x)
  }

  lemma SlabsThenPages(s: Pool, t: Pool, x: nat)
    requires SameSlabs(s, t) && SameGeometry(s, t)
    ensures InSlab(t, x) <==> InSlab(s, x)
  {
    if InSlab(s, x) {
      var c: nat, p: nat :| HasSlab(s, c, p) && InBlock(p, s.caches[c].geo.order, x);
      assert HasSlab(t, c, p);
    }
    if InSlab(t, x) {
      var c: nat, p: nat :| HasSlab(t, c, p) && InBlock(p, t.caches[c].geo.order, x);
      assert HasSlab(s, c, p);
    }
  }

  lemma MoreSlabsThenPages(s: Pool, t: Pool, c: nat, p: nat, x: nat)
    requires OneMoreSlab(s, t, c, p) && SameGeometry(s, t) && c < |s.caches|
    ensures InSlab(t, x) <==> InSlab(s, x) || InBlock(p, s.caches[c].geo.order, x)
  {
    if InSlab(s, x) {
      var d: nat, q: nat :| HasSlab(s, d, q) && InBlock(q, s.caches[d].geo.order, x);
      assert HasSlab(t, d, q);
    }
    if InSlab(t, x) {
      var d: nat, q: nat :| HasSlab(t, d, q) && InBlock(q, t.caches[d].geo.order, x);
      assert HasSlab(s, d, q) || (d == c && q == p);
    }
    assert HasSlab(t, c, p);
  }

  /** The allocation in full: it fails exactly when no slab has a free slot and the page allocator
      has no room for another; otherwise it hands out an object that nobody holds. */
  lemma AllocateEffect(h: Heap, c: nat)
    requires Inv(h) && c < |h.pool.caches|
    ensures var (t, r) := Allocate(h, c);
      && (r == None <==> h.pool.caches[c].partial == [] && NoRoom(h.sys.D, h.pool.caches[c].geo.order))
      && (r == None ==> t == h)
      && (r.Some? ==> exists page: nat :: HandsOut(h.pool, t.pool, c, page, r.value))
      && SameSpare(h, t)
  {
    var s, D, ca := h.pool, h.sys.D, h.pool.caches[c];
    hide Runs.Inv, PoolOk, HandsOut, NoRoom, Given, Grown, TakesBlock;
    if ca.partial != [] {
      GiveEffect(s, D, c, ca.partial[0]);
      forall x: nat
        ensures InSlab(Allocate(h, c).0.pool, x) <==> InSlab(s, x)
      {
        SlabsThenPages(s, Allocate(h, c).0.pool, x);
      }
    } else {
      AllocEffect(h.sys, ca.geo.order);
      var page := Allocating.AllocPages(h.sys.m, ca.geo.order).1;
      if page.Some? {
        var t := Allocate(h, c).0;
        NewEffect(s, D, t.sys.D, c, page.value);
        NewSpare(h, t, c, page.value);
      }
    }
  }

  lemma NewSpare(h: Heap, t: Heap, c: nat, p: nat)
    requires c < |h.pool.caches| && TakesBlock(h.sys.D, t.sys.D, p, h.pool.caches[c].geo.order)
    requires OneMoreSlab(h.pool, t.pool, c, p) && SameGeometry(h.pool, t.pool)
    ensures SameSpare(h, t)
  {
    hide OneMoreSlab, InSlab;
    forall x: nat
      ensures Spare(t, x) <==> Spare(h, x)
    {
      MoreSlabsThenPages(h.pool, t.pool, c, p, x);
    }
  }

  /** The free in full: exactly that object is no longer in use. */
  lemma ReleaseEffectOnHeap(h: Heap, c: nat, p: nat, objp: nat)
    requires Inv(h) && SafeToFree(h, c, p, objp)
    ensures TakesBack(h.pool, Release(h, c, p, objp).pool, c, p, objp)
    ensures SameSpare(h, Release(h, c, p, objp))
  {
    hide PoolOk, TakesBack, TakenBack, Represents, Partitioned, Canonical;
    var t := Release(h, c, p, objp);
    FoundFacts(h, c, p, objp);
    TakeBackEffect(h.pool, h.sys.D, c, p, objp);
    if TakenBack(h.pool, c, p, objp).1 {
      ReleaseEffect(h.sys, p);
      ReturnedSpare(h, t, c, p);
    } else {
      forall x: nat
        ensures InSlab(t.pool, x) <==> InSlab(h.pool, x)
      {
        SlabsThenPages(h.pool, t.pool, x);
      }
    }
  }

  lemma ReturnedSpare(h: Heap, t: Heap, c: nat, p: nat)
    requires c < |h.pool.caches| && ReturnsBlock(h.sys.D, t.sys.D, p, h.pool.caches[c].geo.order)
    requires OneSlabLess(h.pool, t.pool, c, p) && HasSlab(h.pool, c, p) && SameGeometry(h.pool, t.pool)
    ensures SameSpare(h, t)
  {
    assert OneMoreSlab(t.pool, h.pool, c, p);
    hide OneMoreSlab, OneSlabLess, InSlab;
    forall x: nat
      ensures Spare(t, x) <==> Spare(h, x)
    {
      MoreSlabsThenPages(t.pool, h.pool, c, p, x);
    }
  }

  // --- whole runs ----------------------------------------------------------------------------

  /** A cache of a power of two, without slabs. */
  function EmptyCache(e: nat): Cache {
    Cache(Geometry(Pow2(e), CacheNums(Pow2(e)), CacheOrder(Pow2(e))), 0, 0, 0, [], [], [])
  }

  /** A page of slots, or a block for one slot. */
  function GeometryOf(e: nat): Geometry {
    if e <= PAGE_SHIFT then Geometry(Pow2(e), Pow2(PAGE_SHIFT - e), 0) else Geometry(Pow2(e), 1, e - PAGE_SHIFT)
  }

  lemma GeometryIs(e: nat)
    ensures EmptyCache(e).geo == GeometryOf(e)
  {
    SlotsFillBlock(e);
  }

  lemma EmptyPool(s: Pool, D: seq<Owner>, exps: seq<nat>)
    requires |s.slabs| == |D| && |s.caches| == |exps|
    requires forall i :: 0 <= i < |exps| ==> 3 <= exps[i] <= PAGE_SHIFT + TOP && s.caches[i] == EmptyCache(exps[i])
    ensures PoolOk(s, D) && Objects(s) == iset{}
  {
    forall c | 0 <= c < |exps|
      ensures GoodLists(s, D, c)
    {
      hide Pow2, CacheNums, CacheOrder;
      SlotsFillBlock(exps[c]);
      Pow2Monotone(3, exps[c]);
      Powers();
    }
  }

  ghost predicate IsUsed(s: Pool, a: nat) {
    exists c: nat, p: nat :: InUse(s, c, p, a)
  }

  /** The addresses of the objects in use. */
  ghost function Objects(s: Pool): iset<nat> {
    iset a: nat | IsUsed(s, a)
  }

  /** What the callers hold after one more call. */
  ghost function Held(held: iset<nat>, call: Call, r: Option<nat>): iset<nat> {
    match call
    case Bfree(objp) => held - iset{objp}
    case _ => if r.Some? then held + iset{r.value} else held
  }

  ghost function HeldAfter(h: Heap, calls: seq<Call>, held: iset<nat>): iset<nat>
    requires Inv(h) && AllAllowed(h, calls)
    decreases |calls|
  {
    if calls == [] then held
    else
      var (t, r) := Step(h, calls[0]);
      HeldAfter(t, calls[1..], Held(held, calls[0], r))
  }

  lemma HandsOutObject(s: Pool, t: Pool, c: nat, p: nat, a: nat)
    requires HandsOut(s, t, c, p, a)
    ensures Objects(t) == Objects(s) + iset{a} && a !in Objects(s)
  {
    forall b: nat
      ensures b in Objects(t) <==> b in Objects(s) || b == a
    {
      if b in Objects(t) {
        var d, q :| InUse(t, d, q, b);
        assert InUse(s, d, q, b) || b == a;
      }
      if b in Objects(s) {
        var d, q :| InUse(s, d, q, b);
        assert InUse(t, d, q, b);
      }
      assert InUse(t, c, p, a);
    }
  }

  lemma TakesBackObject(s: Pool, D: seq<Owner>, t: Pool, c: nat, p: nat, a: nat)
    requires PoolOk(s, D) && Partitioned(D) && InUse(s, c, p, a) && TakesBack(s, t, c, p, a)
    ensures Objects(t) == Objects(s) - iset{a}
  {
    hide PoolOk, InUse;
    forall b: nat
      ensures b in Objects(t) <==> b in Objects(s) && b != a
    {
      if b in Objects(t) {
        var d, q :| InUse(t, d, q, b);
        assert InUse(s, d, q, b);
        if b == a { OneSlab(s, D, c, p, d, q, a); }
      }
      if b in Objects(s) && b != a {
        var d, q :| InUse(s, d, q, b);
        assert InUse(t, d, q, b);
      }
    }
  }

  /** One call: what is handed out was nobody's, and the objects in use change as the callers
      expect. */
  lemma StepEffect(h: Heap, call: Call)
    requires Inv(h) && Allowed(h, call)
    ensures var (t, r) := Step(h, call);
      && Objects(t.pool) == Held(Objects(h.pool), call, r)
      && (r.Some? ==> r.value !in Objects(h.pool))
      && SameSpare(h, t)
  {
    hide Inv, Allocate, Release, SafeToFree, HandsOut, TakesBack, Objects, SameSpare, NoRoom;
    match call
    case CacheAlloc(c) => AllocateObjects(h, c);
    case Bmalloc(size) =>
      if BmallocIndex(size).Some? { AllocateObjects(h, BmallocIndex(size).value); } else { SameSpareItself(h); }
    case Bfree(objp) =>
      var c, p :| SafeToFree(h, c, p, objp) && Step(h, call) == (Release(h, c, p, objp), None);
      ReleaseEffectOnHeap(h, c, p, objp);
      ReleaseObjects(h, c, p, objp, Release(h, c, p, objp));
  }

  lemma SameSpareItself(h: Heap)
    ensures SameSpare(h, h)
  {
  }

  lemma AllocateObjects(h: Heap, c: nat)
    requires Inv(h) && c < |h.pool.caches|
    ensures var (t, r) := Allocate(h, c);
      && Objects(t.pool) == (if r.Some? then Objects(h.pool) + iset{r.value} else Objects(h.pool))
      && (r.Some? ==> r.value !in Objects(h.pool))
      && SameSpare(h, t)
  {
    hide Inv, Allocate, HandsOut, Objects, SameSpare, NoRoom;
    AllocateEffect(h, c);
    var (t, r) := Allocate(h, c);
    if r.Some? {
      var page: nat :| HandsOut(h.pool, t.pool, c, page, r.value);
      HandsOutObject(h.pool, t.pool, c, page, r.value);
    }
  }

  lemma ReleaseObjects(h: Heap, c: nat, p: nat, objp: nat, t: Heap)
    requires Inv(h) && SafeToFree(h, c, p, objp) && TakesBack(h.pool, t.pool, c, p, objp)
    ensures Objects(t.pool) == Objects(h.pool) - iset{objp}
  {
    hide PoolOk, Objects, TakesBack;
    TakesBackObject(h.pool, h.sys.D, t.pool, c, p, objp);
  }

  /** After every run of allocations and safe frees the objects in use are exactly those that the
      callers hold: those in use before or handed out since, less those given back. */
  lemma {:induction false} RunTracksObjects(h: Heap, calls: seq<Call>)
    requires Inv(h) && AllAllowed(h, calls)
    ensures Objects(Run(h, calls).pool) == HeldAfter(h, calls, Objects(h.pool))
    decreases |calls|
  {
    hide Inv, Step, Objects, SameSpare, Held;
    if calls != [] {
      StepEffect(h, calls[0]);
      RunTracksObjects(Step(h, calls[0]).0, calls[1..]);
    }
  }

  /** The object at a ends at or before a'. */
  ghost predicate EndsBefore(s: Pool, a: nat, a': nat) {
    exists c: nat, p: nat :: InUse(s, c, p, a) && a + s.caches[c].geo.size <= a'
  }

  /** No two objects that callers hold after any run share a byte. */
  lemma RunKeepsObjectsApart(h: Heap, calls: seq<Call>, a: nat, a': nat)
    requires Inv(h) && AllAllowed(h, calls)
    requires a in HeldAfter(h, calls, Objects(h.pool)) && a' in HeldAfter(h, calls, Objects(h.pool)) && a < a'
    ensures EndsBefore(Run(h, calls).pool, a, a')
  {
    var t := Run(h, calls);
    RunTracksObjects(h, calls);
    hide AllAllowed, Run, HeldAfter, PoolOk, Partitioned, InUse;
    var c, p :| InUse(t.pool, c, p, a);
    var d, q :| InUse(t.pool, d, q, a');
    ObjectsDisjoint(t.pool, t.sys.D, c, p, a, d, q, a');
  }

  /** Every run keeps the sizes of the caches and the set of pages that are free or in a slab. */
  lemma {:induction false} RunKeepsSpare(h: Heap, calls: seq<Call>)
    requires Inv(h) && AllAllowed(h, calls)
    ensures SameSpare(h, Run(h, calls))
    decreases |calls|
  {
    hide Inv, Step, Objects, Held, Spare;
    if calls != [] {
      StepEffect(h, calls[0]);
      RunKeepsSpare(Step(h, calls[0]).0, calls[1..]);
    }
  }

  /** Every slab has an object in use. */
  lemma SlabHasObject(s: Pool, D: seq<Owner>, c: nat, p: nat)
    requires PoolOk(s, D) && HasSlab(s, c, p)
    ensures Objects(s) != iset{}
  {
    InuseCounts(s, D, c, p);
    SlabOf(s, D, c, p);
    var a :| a in UsedSlots(s, c, p);
    assert IsUsed(s, a) && a in Objects(s);
  }

  lemma IdleIsFree(h: Heap, x: nat)
    requires Inv(h) && Objects(h.pool) == iset{}
    ensures Spare(h, x) <==> x < |h.sys.D| && h.sys.D[x].Free?
  {
    if InSlab(h.pool, x) {
      var c: nat, p: nat :| HasSlab(h.pool, c, p) && InBlock(p, h.pool.caches[c].geo.order, x);
      SlabHasObject(h.pool, h.sys.D, c, p);
    }
  }

  /** Nothing leaks: a run that begins and ends with no object in use, whatever it allocated and
      in whatever order it freed, leaves every free list of the page allocator as it was (as a
      multiset), and every counter. */
  lemma NothingLeaks(h: Heap, calls: seq<Call>, k: nat)
    requires Inv(h) && AllAllowed(h, calls) && k < PAGE_MAX_ORDER
    requires Objects(h.pool) == iset{} && HeldAfter(h, calls, iset{}) == iset{}
    ensures multiset(Run(h, calls).sys.m.area[k].list) == multiset(h.sys.m.area[k].list)
    ensures Run(h, calls).sys.m.area[k].nrFree == h.sys.m.area[k].nrFree
  {
    var t := Run(h, calls);
    hide PoolOk, Spare, AllAllowed, Run, HeldAfter, Objects;
    RunTracksObjects(h, calls);
    RunKeepsSpare(h, calls);
    forall x | 0 <= x < |h.sys.D|
      ensures h.sys.D[x].Free? <==> t.sys.D[x].Free?
    {
      IdleIsFree(h, x);
      IdleIsFree(t, x);
    }
    CanonicalForm.SameFreePagesSameLists(t.sys.m, t.sys.D, h.sys.m, h.sys.D, k);
  }

  /** While every page of a live block leads to its head, every object in use is found by
      `bfree`. */
  lemma EveryObjectIsFound(h: Heap, c: nat, p: nat, objp: nat)
    requires Inv(h) && HeadsFound(h.sys.m, h.sys.D) && InUse(h.pool, c, p, objp)
    ensures Found(h, c, p, objp)
  {
    ObjectLeadsHome(h.pool, h.sys.D, h.sys.m, c, p, objp);
  }
}
