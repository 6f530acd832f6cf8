/** Which object an allocation hands out: the first free slot of the slab that was used last, so that a
    new slab is used up in order of address; and how many slabs were ever made. */
module SlabOrder {
  import opened Wrappers
  import opened PageMap
  import opened Slabs
  import opened SlabPool
  import opened SlabRuns
  import Allocating
  import Runs

  /** Slab p is the one that cache c takes objects from. */
  predicate Current(s: Pool, c: nat, p: nat) {
    c < |s.caches| && s.caches[c].partial != [] && s.caches[c].partial[0] == p && p < |s.slabs|
  }

  /** A partial slab has a free slot, and it is full exactly when that was its last. */
  lemma PartialSlab(h: Heap, c: nat, p: nat)
    requires Inv(h) && Current(h.pool, c, p)
    ensures h.pool.slabs[p].freelist != []
    ensures h.pool.slabs[p].inuse + |h.pool.slabs[p].freelist| == h.pool.caches[c].geo.nums
  {
    assert GoodLists(h.pool, h.sys.D, c) && p in h.pool.caches[c].partial;
  }

  /** An allocation takes the first free slot of the current slab, which stays the current one as long as
      it has another. */
  lemma NextFromCurrent(h: Heap, c: nat, p: nat)
    requires Inv(h) && Current(h.pool, c, p)
    ensures h.pool.slabs[p].freelist != []
    ensures var (t, r) := Allocate(h, c);
      && r == Some(h.pool.slabs[p].freelist[0]) && t.sys == h.sys && p < |t.pool.slabs|
      && t.pool.slabs[p].freelist == h.pool.slabs[p].freelist[1..]
      && (if |h.pool.slabs[p].freelist| > 1 then Current(t.pool, c, p)
          else c < |t.pool.caches| && p in t.pool.caches[c].full)
  {
    PartialSlab(h, c, p);
    hide Inv;
  }

  /** A slab that an object has been given back to becomes the current one, with the slot at the end of its
      free list. */
  lemma FreedIsCurrent(h: Heap, c: nat, p: nat, objp: nat)
    requires Inv(h) && SafeToFree(h, c, p, objp)
    ensures c < |h.pool.caches| && p < |h.pool.slabs| && h.pool.slabs[p].inuse > 0
    ensures h.pool.slabs[p].inuse > 1 ==>
      var t := Release(h, c, p, objp);
      Current(t.pool, c, p) && t.sys == h.sys && t.pool.slabs[p].freelist == h.pool.slabs[p].freelist + [objp]
  {
    FoundFacts(h, c, p, objp);
    hide Inv, SafeToFree;
  }

  /** A new slab hands out its first slot and is the current one if it has more. */
  lemma NewIsCurrent(h: Heap, c: nat, p: nat)
    requires Inv(h) && c < |h.pool.caches| && h.pool.caches[c].partial == [] && Allocating.WellListed(h.sys.m)
    requires Allocating.AllocPages(h.sys.m, h.pool.caches[c].geo.order).1 == Some(p)
    ensures p < |h.pool.slabs| && h.pool.caches[c].geo.nums > 0
    ensures var (t, r) := Allocate(h, c);
      var g := h.pool.caches[c].geo;
      && r == Some(SlotAddr(g, p, 0)) && p < |t.pool.slabs| && SameGeometry(h.pool, t.pool)
      && t.pool.slabs[p].freelist == SlotList(g, p, g.nums)[1..]
      && (g.nums > 1 ==> Current(t.pool, c, p))
  {
    AllocateNew(h, c);
    var k := h.pool.caches[c].geo.order;
    AllocEffect(h.sys, k);
    var sys := Runs.Step(h.sys, Runs.Alloc(k));
    NewCounted(h.pool, h.sys.D, sys.D, c, p);
    hide Inv, Runs.Step, Allocate, HandsOut, TakesBlock;
    GivenFromGrown(h.pool, sys.D, c, p);
    hide PoolOk;
  }

  lemma AllocateKeepsGeometry(h: Heap, c: nat)
    requires Inv(h) && c < |h.pool.caches|
    ensures SameGeometry(h.pool, Allocate(h, c).0.pool)
  {
    AllocateEffect(h, c);
  }

  /** The heap after k allocations from cache c. */
  ghost function Times(h: Heap, c: nat, k: nat): (t: Heap)
    requires Inv(h) && c < |h.pool.caches|
    ensures Inv(t) && SameGeometry(h.pool, t.pool)
  {
    if k == 0 then h
    else
      AllocateKeepsGeometry(Times(h, c, k - 1), c);
      Allocate(Times(h, c, k - 1), c).0
  }

  /** A new slab is used up in order of address: the allocation after the first k takes slot k. */
  lemma {:induction false} ObjectsInOrder(h: Heap, c: nat, p: nat, k: nat)
    requires Inv(h) && c < |h.pool.caches| && h.pool.caches[c].partial == [] && Allocating.WellListed(h.sys.m)
    requires Allocating.AllocPages(h.sys.m, h.pool.caches[c].geo.order).1 == Some(p)
    requires k < h.pool.caches[c].geo.nums
    ensures var (t, r) := Allocate(Times(h, c, k), c);
      var g := h.pool.caches[c].geo;
      && r == Some(SlotAddr(g, p, k)) && p < |t.pool.slabs|
      && t.pool.slabs[p].freelist == SlotList(g, p, g.nums)[k + 1..]
      && (k + 1 < g.nums ==> Current(t.pool, c, p))
  {
    hide Inv, Allocate, Current, Allocating.AllocPages;
    if k == 0 {
      NewIsCurrent(h, c, p);
    } else {
      ObjectsInOrder(h, c, p, k - 1);
      var g := h.pool.caches[c].geo;
      var l := SlotList(g, p, g.nums);
      NextFromCurrent(Times(h, c, k), c, p);
      assert l[k..][0] == l[k] && l[k..][1..] == l[k + 1..];
    }
  }

  // --- slabs ever made -------------------------------------------------------------------------

  /** `total_slabs` goes up by one exactly when a new slab is made, ... */
  lemma AllocateCounts(h: Heap, c: nat, d: nat)
    requires Inv(h) && c < |h.pool.caches| && d < |h.pool.caches|
    ensures var (t, r) := Allocate(h, c);
      && d < |t.pool.caches|
      && t.pool.caches[d].totalSlabs ==
           h.pool.caches[d].totalSlabs + if d == c && h.pool.caches[c].partial == [] && r.Some? then 1 else 0
  {
    if h.pool.caches[c].partial == [] { AllocateNew(h, c); }
    hide Inv, HandsOut;
  }

  /** ... and never down. */
  lemma ReleaseCounts(h: Heap, c: nat, p: nat, objp: nat, d: nat)
    requires Inv(h) && SafeToFree(h, c, p, objp) && d < |h.pool.caches|
    ensures var t := Release(h, c, p, objp);
      d < |t.pool.caches| && t.pool.caches[d].totalSlabs == h.pool.caches[d].totalSlabs
  {
    FoundFacts(h, c, p, objp);
    hide Inv, SafeToFree;
  }
}
