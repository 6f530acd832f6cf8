/** The object allocator of src/mm/slub.c in place, on top of the page allocator. */
module Slub {
  import opened Wrappers
  import opened Dyadic
  import opened PageMap
  import opened Partition
  import opened PageAlloc
  import opened Slabs
  import opened SlabPool
  import opened SlabRuns
  import Allocating
  import Freeing
  import Runs
  import UnsafeFree

  class SlabAllocator {
    const pages: PageAllocator
    const caches: array<Cache>
    const slabs: array<Slab>

    ghost function State(): Pool
      reads caches, slabs
    {
      Pool(caches[..], slabs[..])
    }

    /** The whole heap as a value. */
    ghost function Value(): Heap
      reads pages, pages.pageMap, pages.freeArea, caches, slabs
    {
      Heap(pages.Sys(), State())
    }

    /** The lists, counters and slots are right for the blocks that the page allocator has live. */
    ghost predicate Consistent()
      reads pages, pages.pageMap, pages.freeArea, caches, slabs
    {
      pages.Valid() && PoolOk(State(), pages.owner)
    }

    /** And every page of a live block leads to its head. */
    ghost predicate Valid()
      reads pages, pages.pageMap, pages.freeArea, caches, slabs
    {
      Consistent() && HeadsFound(pages.State(), pages.owner)
    }

    /** Caches of the given powers of two (`bmalloc_create_cache`), all empty. */
    constructor (pages: PageAllocator, exps: seq<nat>)
      requires pages.Valid()
      requires forall i :: 0 <= i < |exps| ==> 3 <= exps[i] <= PAGE_SHIFT + TOP
      ensures this.pages == pages && fresh(caches) && fresh(slabs) && Consistent()
      ensures Objects(State()) == iset{}
      ensures HeadsFound(pages.State(), pages.owner) ==> Valid()
      ensures caches.Length == |exps| && forall i :: 0 <= i < |exps| ==> caches[i].geo.size == Pow2(exps[i])
      ensures forall i :: 0 <= i < |exps| ==> caches[i].geo == GeometryOf(exps[i])
    {
      this.pages := pages;
      caches := new Cache[|exps|](i requires 0 <= i < |exps| => EmptyCache(exps[i]));
      slabs := new Slab[pages.pageMap.Length](_ => Slab(0, 0, []));
      new;
      Allocating.RepresentedLength(pages.State(), pages.owner);
      hide PoolOk, Represents, Partitioned, Canonical, HeadsFound;
      EmptyPool(State(), pages.owner, exps);
      forall i | 0 <= i < |exps| ensures caches[i].geo == GeometryOf(exps[i]) { GeometryIs(exps[i]); }
    }

    /** `bmem_cache_page`: the first partial slab, else the first empty one.  In a consistent pool
        the answer is a slab of this cache with a free slot, NULL exactly when there is none, and
        nothing changes. */
    method CachePage(c: nat) returns (r: Option<nat>)
      requires c < caches.Length
      modifies caches
      ensures old(Consistent()) ==> State() == old(State())
      ensures old(Consistent()) && r.Some? ==>
        && r.value < slabs.Length && HasSlab(State(), c, r.value) && slabs[r.value].freelist != []
        && caches[c].partial != [] && r.value == caches[c].partial[0]
      ensures old(Consistent()) ==> (r == None <==>
        forall p: nat :: p < slabs.Length && HasSlab(State(), c, p) ==> slabs[p].freelist == [])
      ensures r == if old(caches[c].partial) != [] then Some(old(caches[c].partial[0]))
                   else if old(caches[c].free) != [] then Some(old(caches[c].free[0])) else None
      ensures r == None || old(caches[c].partial) != [] ==> caches[..] == old(caches[..])
      ensures r.Some? && old(caches[c].partial) == [] ==>
        caches[..] == old(caches[..])[c := old(caches[c]).(freeSlabs := Decrement(old(caches[c].freeSlabs)))]
    {
      assert Consistent() ==> GoodLists(State(), pages.owner, c);
      if caches[c].partial != [] { return Some(caches[c].partial[0]); }
      if caches[c].free != [] {
        r := Some(caches[c].free[0]);
        caches[c] := caches[c].(freeSlabs := Decrement(caches[c].freeSlabs));
        return;
      }
      return None;
    }

    /** `bmem_cache_setup`. */
    method CacheSetup(c: nat, page: nat)
      requires c < caches.Length && page < slabs.Length
      modifies slabs
      ensures slabs[..] == old(slabs[..])[page := old(slabs[page]).(freelist :=
        old(slabs[page].freelist) + SlotList(caches[c].geo, page, caches[c].geo.nums))]
    {
      var objc := 0;
      while objc < caches[c].geo.nums
        invariant objc <= caches[c].geo.nums
        invariant slabs[page] ==
          old(slabs[page]).(freelist := old(slabs[page].freelist) + SlotList(caches[c].geo, page, objc))
        invariant forall x :: 0 <= x < slabs.Length && x != page ==> slabs[x] == old(slabs[x])
      {
        var objp := page * PAGE_SIZE + caches[c].geo.size * objc;
        slabs[page] := slabs[page].(freelist := slabs[page].freelist + [objp]);
        assert SlotList(caches[c].geo, page, objc) + [objp] == SlotList(caches[c].geo, page, objc + 1);
        assert old(slabs[page].freelist) + SlotList(caches[c].geo, page, objc) + [objp]
            == old(slabs[page].freelist) + SlotList(caches[c].geo, page, objc + 1);
        objc := objc + 1;
      }
    }

    /** `bmem_cache_grow` with the page it was given. */
    method CacheAdopt(c: nat, page: nat)
      requires c < caches.Length && page < slabs.Length
      modifies caches, slabs
      ensures State() == Grown(old(State()), c, page)
    {
      slabs[page] := slabs[page].(freelist := []);
      slabs[page] := slabs[page].(cache := c);
      slabs[page] := slabs[page].(inuse := 0);
      CacheSetup(c, page);
      caches[c] := caches[c].(totalSlabs := caches[c].totalSlabs + 1);
      caches[c] := caches[c].(free := [page] + caches[c].free);
      caches[c] := caches[c].(freeObjs := caches[c].freeObjs + caches[c].geo.nums);
      ghost var slots := SlotList(caches[c].geo, page, caches[c].geo.nums);
      assert [] + slots == slots;
    }

    /** `bmem_cache_alloc_object` on a slab with a free slot: fetch, count, fix up. */
    method CacheAllocObject(c: nat, page: nat) returns (objp: nat)
      requires c < caches.Length && page < slabs.Length && slabs[page].freelist != []
      modifies caches, slabs
      ensures State() == Given(old(State()), c, page) && objp == old(slabs[page].freelist[0])
    {
      objp := slabs[page].freelist[0];
      slabs[page] := slabs[page].(freelist := slabs[page].freelist[1..]);
      slabs[page] := slabs[page].(inuse := slabs[page].inuse + 1);
      caches[c] := caches[c].(freeObjs := Decrement(caches[c].freeObjs));
      caches[c] := OffLists(caches[c], page);
      if slabs[page].inuse == caches[c].geo.nums {
        caches[c] := caches[c].(full := [page] + caches[c].full);
      } else {
        caches[c] := caches[c].(partial := [page] + caches[c].partial);
      }
    }

    /** `bmem_cache_alloc` from a partial slab: the page allocator is not involved. */
    method AllocFromPartial(c: nat, page: nat) returns (objp: nat)
      requires Consistent() && c < caches.Length && caches[c].partial != [] && page == caches[c].partial[0]
      modifies caches, slabs
      ensures Consistent() && (Value(), Some(objp)) == Allocate(old(Value()), c)
      ensures old(Valid()) ==> Valid()
      ensures HandsOut(old(State()), State(), c, page, objp)
    {
      GiveEffect(State(), pages.owner, c, page);
      objp := CacheAllocObject(c, page);
    }

    /** `bmem_cache_alloc` when no slab has a free slot: a new block becomes a slab. */
    method AllocFromNew(c: nat) returns (r: Option<nat>)
      requires Consistent() && c < caches.Length && caches[c].partial == []
      modifies pages, pages.pageMap, pages.freeArea, caches, slabs
      ensures Consistent() && (Value(), r) == Allocate(old(Value()), c)
      ensures r.Some? ==> HandsOut(old(State()), State(), c, r.value / PAGE_SIZE, r.value)
      ensures r.Some? && old(Valid()) ==> (Valid() <==>
        var p, k := r.value / PAGE_SIZE, old(caches[c].geo.order);
        Aligned(p, k) && |old(pages.State()).pages| == |old(pages.owner)|
        && Allocating.BuddyRangeClear(old(pages.State()), old(pages.owner), p, k))
    {
      hide PoolOk, Partitioned, Represents, Canonical, HeadsFound, Grown, Given, HandsOut, Allocate, Runs.Step;
      AllocateNew(Value(), c);
      Allocating.RepresentedLength(pages.State(), pages.owner);
      var page := pages.AllocPages(caches[c].geo.order);
      if page == None { return None; }
      var p := page.value;
      CacheAdopt(c, p);
      var objp := CacheAllocObject(c, p);
      r := Some(objp);
      assert objp / PAGE_SIZE == p;
    }

    /** `bmem_cache_alloc`: an object that no one holds, or NULL exactly when no slab has a free
        slot and the page allocator has no room for another.  The heads of live pages stay right
        exactly when the buddy range of a new block is clear of other live pages. */
    method CacheAlloc(c: nat) returns (r: Option<nat>)
      requires Consistent() && c < caches.Length
      modifies pages, pages.pageMap, pages.freeArea, caches, slabs
      ensures Consistent() && (Value(), r) == Allocate(old(Value()), c)
      ensures SameGeometry(old(State()), State())
      ensures r == None <==> old(caches[c].partial) == [] && NoRoom(old(pages.owner), old(caches[c].geo.order))
      ensures r == None ==> Value() == old(Value())
      ensures r.Some? ==> exists page: nat :: HandsOut(old(State()), State(), c, page, r.value)
      ensures old(Valid()) && (r == None || old(caches[c].partial) != []) ==> Valid()
      ensures old(Valid()) && r.Some? && old(caches[c].partial) == [] ==> (Valid() <==>
        var p, k := r.value / PAGE_SIZE, old(caches[c].geo.order);
        Aligned(p, k) && |old(pages.State()).pages| == |old(pages.owner)|
        && Allocating.BuddyRangeClear(old(pages.State()), old(pages.owner), p, k))
    {
      hide HandsOut, NoRoom, PoolOk, HeadsFound, Represents, Partitioned, Canonical, Allocate;
      AllocateEffect(Value(), c);
      PartialOnly(c);
      var page := CachePage(c);
      if page == None {
        r := AllocFromNew(c);
      } else {
        var objp := AllocFromPartial(c, page.value);
        r := Some(objp);
      }
    }

    lemma PartialOnly(c: nat)
      requires Consistent() && c < caches.Length
      ensures caches[c].free == []
    {
      assert GoodLists(State(), pages.owner, c);
    }

    /** `__bfree` up to the return of an empty slab. */
    method PutBack(page: nat, c: nat, objp: nat) returns (empty: bool)
      requires c < caches.Length && page < slabs.Length
      modifies caches, slabs
      ensures (State(), empty) == TakenBack(old(State()), c, page, objp)
    {
      slabs[page] := slabs[page].(freelist := slabs[page].freelist + [objp]);
      caches[c] := caches[c].(freeObjs := caches[c].freeObjs + 1);
      slabs[page] := slabs[page].(inuse := Decrement(slabs[page].inuse));
      empty := slabs[page].inuse == 0;
      caches[c] := OffLists(caches[c], page);
      if empty {
        caches[c] := caches[c].(freeObjs := Less(caches[c].freeObjs, caches[c].geo.nums));
      } else {
        caches[c] := caches[c].(partial := [page] + caches[c].partial);
      }
      assert caches[..] == old(caches[..])[c := caches[c]];
      assert slabs[..] == old(slabs[..])[page := slabs[page]];
    }

    /** `bfree` of an object whose page leads to its slab: it is taken back.  An empty slab goes
        back to the page allocator; everything stays consistent when that is safe. */
    method Bfree(objp: nat, ghost c: nat, ghost p: nat)
      requires Consistent() && Found(Value(), c, p, objp)
      modifies pages, pages.pageMap, pages.freeArea, caches, slabs
      ensures TakesBack(old(State()), State(), c, p, objp) && SameGeometry(old(State()), State())
      ensures p < |old(State()).slabs| && LiveHead(old(pages.owner), p, old(State()).caches[c].geo.order)
      ensures old(State()).slabs[p].inuse > 1 ==>
        Consistent() && pages.State() == old(pages.State()) && pages.owner == old(pages.owner)
      ensures old(State()).slabs[p].inuse == 1 ==>
        var k := old(State()).caches[c].geo.order;
        && Aligned(p, k) && (Freeing.MergeStops(old(pages.State()), p, k) ==> Consistent())
        && (UnsafeFree.ListsOnlyFree(pages.State(), SetBlock(old(pages.owner), p, k, Free(p, k)))
            <==> Freeing.MergeStops(old(pages.State()), p, k))
      ensures SafeToFree(old(Value()), c, p, objp) ==>
        && Consistent() && Value() == Release(old(Value()), c, p, objp)
        && (old(Valid()) ==> Valid())
    {
      hide Represents, Partitioned, Canonical, PoolOk, HeadsFound, TakesBack, InUse, TakenBack;
      ghost var h := Value();
      FoundFacts(h, c, p, objp);
      TakeBackEffect(h.pool, h.sys.D, c, p, objp);
      var x := objp / PAGE_SIZE;
      var page := pages.pageMap[x].head;
      var cache := slabs[page].cache;
      var empty := PutBack(page, cache, objp);
      if empty {
        pages.FreePage(page);
        if Freeing.MergeStops(h.sys.m, p, h.pool.caches[c].geo.order) {
          EmptySlabGone(h.pool, h.sys.D, pages.owner, c, p, objp);
        }
      }
    }

    /** The caches of `bmalloc` come first: powers of two from 8 on. */
    ghost predicate PowersFrom8()
      reads caches
    {
      KMALLOC_CACHE_NUM <= caches.Length && forall i :: 0 <= i < KMALLOC_CACHE_NUM ==> caches[i].geo.size == Pow2(i + 3)
    }

    /** `bmalloc`: an object of the cache of the smallest fitting power of two; NULL for sizes that
        no cache serves, and when the cache cannot give one. */
    method Bmalloc(size: nat) returns (r: Option<nat>)
      requires Consistent() && PowersFrom8()
      modifies pages, pages.pageMap, pages.freeArea, caches, slabs
      ensures Consistent() && PowersFrom8() && SameGeometry(old(State()), State())
      ensures Allowed(old(Value()), Call.Bmalloc(size)) && (Value(), r) == Step(old(Value()), Call.Bmalloc(size))
      ensures BmallocIndex(size) == None ==> r == None && Value() == old(Value())
      ensures BmallocIndex(size).Some? ==>
        var c := BmallocIndex(size).value;
        && c < caches.Length
        && (r == None <==> old(caches[..])[c].partial == [] && NoRoom(old(pages.owner), old(caches[..])[c].geo.order))
      ensures r.Some? && 0 < size <= Pow2(31) ==>
        var g := old(caches[..])[BmallocIndex(size).value].geo.size;
        size <= g && (g > KMALLOC_MIN_SIZE ==> g < 2 * size)
      ensures r.Some? ==> BmallocIndex(size).Some?
      ensures r.Some? ==> exists page: nat :: HandsOut(old(State()), State(), BmallocIndex(size).value, page, r.value)
      ensures old(Valid()) && (r == None || old(caches[..])[BmallocIndex(size).value].partial != []) ==> Valid()
      ensures old(Valid()) && r.Some? && old(caches[..])[BmallocIndex(size).value].partial == [] ==> (Valid() <==>
        var p, k := r.value / PAGE_SIZE, old(caches[..])[BmallocIndex(size).value].geo.order;
        Aligned(p, k) && |old(pages.State()).pages| == |old(pages.owner)|
        && Allocating.BuddyRangeClear(old(pages.State()), old(pages.owner), p, k))
    {
      hide HandsOut, NoRoom, Consistent, HeadsFound, Allocate, BmallocIndex, Inv;
      var index := BmallocIndex(size);
      if index == None { return None; }
      IndexInTable(size);
      BestFit(size);
      r := CacheAlloc(index.value);
    }

    lemma BestFit(size: nat)
      requires PowersFrom8() && BmallocIndex(size).Some? && BmallocIndex(size).value < KMALLOC_CACHE_NUM
      ensures 0 < size <= Pow2(31) ==>
        var g := caches[BmallocIndex(size).value].geo.size;
        size <= g && (g > KMALLOC_MIN_SIZE ==> g < 2 * size)
    {
      if 0 < size <= Pow2(31) {
        Powers();
        IndexFitsExactlyWhen(size);
      }
    }

    lemma IndexInTable(size: nat)
      ensures BmallocIndex(size).Some? ==> BmallocIndex(size).value < KMALLOC_CACHE_NUM
    {
      if size > 0 { IndexByBits(size); }
    }

    /** One call in place is one step on values. */
    method Serve(call: Call) returns (r: Option<nat>)
      requires Consistent() && PowersFrom8() && Allowed(Value(), call)
      modifies pages, pages.pageMap, pages.freeArea, caches, slabs
      ensures Consistent() && PowersFrom8() && (Value(), r) == Step(old(Value()), call)
    {
      hide Allocate, Release, PoolOk, Represents, Partitioned, Canonical, SafeToFree, HandsOut, NoRoom, BmallocIndex;
      match call
      case CacheAlloc(c) => r := CacheAlloc(c);
      case Bmalloc(size) => r := Bmalloc(size);
      case Bfree(objp) =>
        ghost var c, p :| SafeToFree(Value(), c, p, objp);
        StepOfFree(Value(), c, p, objp);
        FoundWhenSafe(Value(), c, p, objp);
        Bfree(objp, c, p);
        r := None;
    }

    /** Any sequence of allocations and safe frees in place: the heap stays consistent and ends,
        with the answers, as the run of the calls on values says. */
    method ServeAll(calls: seq<Call>) returns (answers: seq<Option<nat>>)
      requires Consistent() && PowersFrom8() && AllAllowed(Value(), calls)
      modifies pages, pages.pageMap, pages.freeArea, caches, slabs
      ensures Consistent() && PowersFrom8()
      ensures Value() == Run(old(Value()), calls) && answers == Answers(old(Value()), calls)
    {
      hide Step, Allowed, PoolOk, Represents, Partitioned, Canonical, PowersFrom8;
      answers := [];
      assert calls[0..] == calls;
      for i := 0 to |calls|
        invariant Consistent() && PowersFrom8() && AllAllowed(Value(), calls[i..])
        invariant Run(Value(), calls[i..]) == Run(old(Value()), calls)
        invariant answers + Answers(Value(), calls[i..]) == Answers(old(Value()), calls)
      {
        RunGoesOn(Value(), calls, i);
        var r := Serve(calls[i]);
        answers := answers + [r];
      }
    }
  }
}
