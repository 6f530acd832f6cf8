/** Whether `bfree` finds the slab of every object: it does after any run of calls on caches whose
    slabs are single pages; a slab of two pages can mislead it. */
module SlabHeads {
  import opened Wrappers
  import opened Dyadic
  import opened PageMap
  import opened Partition
  import opened Slabs
  import opened SlabPool
  import opened SlabRuns
  import Allocating
  import Freeing
  import Runs
  import Witnesses

  /** The buddy of a free page is not part of a larger block: the range that an allocation of one
      page overwrites holds no live page with another head. */
  lemma SinglePageIsClear(m: Mem, D: seq<Owner>, p: nat)
    requires Partitioned(D) && |m.pages| == |D| && HeadsFound(m, D) && p < |D| && D[p].Free?
    ensures Aligned(p, 0) && Allocating.BuddyRangeClear(m, D, p, 0)
  {
    var b := Buddy(p, 0);
    assert Pow2(0) == 1;
    if b < |D| && D[b].Live? {
      assert GoodAt(D, b);
      var h, j := D[b].head, D[b].order;
      if !InBlock(h, j, p) { HeadInBuddy(p, 0, h, j); }
    }
  }

  lemma AllocPageKeepsHeads(s: Runs.Sys)
    requires Runs.Inv(s) && HeadsFound(s.m, s.D)
    ensures var t := Runs.Step(s, Runs.Alloc(0)); HeadsFound(t.m, t.D)
  {
    Allocating.RepresentsWellListed(s.m, s.D);
    if Allocating.AllocPages(s.m, 0).1.Some? {
      Allocating.AllocSound(s.m, s.D, 0);
      var p := Allocating.AllocPages(s.m, 0).1.value;
      assert InBlock(p, 0, p);
      SinglePageIsClear(s.m, s.D, p);
      Allocating.AllocKeepsHeadsExactlyWhen(s.m, s.D, 0);
    }
  }

  lemma ReleaseKeepsHeads(s: Runs.Sys, p: nat)
    requires Runs.Inv(s) && Runs.Allowed(s, Runs.Release(p)) && HeadsFound(s.m, s.D)
    ensures var t := Runs.Step(s, Runs.Release(p)); HeadsFound(t.m, t.D)
  {
    Freeing.ReturnedFacts(s.m, s.D, p, s.D[p].order);
    Freeing.SafeFree(s.m, s.D, p, s.D[p].order);
  }

  /** Slabs of cache c are single pages. */
  predicate SinglePages(s: Pool, c: nat) {
    c < |s.caches| ==> s.caches[c].geo.order == 0
  }

  /** If the call takes a new slab, it is a single page. */
  predicate SmallCall(s: Pool, call: Call) {
    match call
    case CacheAlloc(c) => SinglePages(s, c)
    case Bmalloc(size) => BmallocIndex(size).Some? ==> SinglePages(s, BmallocIndex(size).value)
    case Bfree(_) => true
  }

  lemma AllocateKeepsHeads(h: Heap, c: nat)
    requires Inv(h) && c < |h.pool.caches| && SinglePages(h.pool, c) && HeadsFound(h.sys.m, h.sys.D)
    ensures var t := Allocate(h, c).0; |t.sys.m.pages| == |t.sys.D| && HeadsFound(t.sys.m, t.sys.D)
  {
    if h.pool.caches[c].partial == [] {
      AllocateNew(h, c);
      AllocPageKeepsHeads(h.sys);
    }
    hide PoolOk, Partitioned, Canonical, Runs.Step;
  }

  lemma ReleaseHeads(h: Heap, c: nat, p: nat, objp: nat)
    requires Inv(h) && SafeToFree(h, c, p, objp) && HeadsFound(h.sys.m, h.sys.D)
    ensures var t := Release(h, c, p, objp); |t.sys.m.pages| == |t.sys.D| && HeadsFound(t.sys.m, t.sys.D)
  {
    hide PoolOk, Partitioned, Canonical, Runs.Step, InUse, TakenBack;
    FoundFacts(h, c, p, objp);
    TakeBackFacts(h, c, p, objp);
    if TakenBack(h.pool, c, p, objp).1 { ReleaseKeepsHeads(h.sys, p); }
  }

  lemma TakeBackFacts(h: Heap, c: nat, p: nat, objp: nat)
    requires Inv(h) && Found(h, c, p, objp)
    ensures c < |h.pool.caches| && p < |h.pool.slabs|
    ensures TakenBack(h.pool, c, p, objp).1 <==> h.pool.slabs[p].inuse == 1
  {
    TakeBackEffect(h.pool, h.sys.D, c, p, objp);
  }

  lemma StepKeepsHeads(h: Heap, call: Call)
    requires Inv(h) && Allowed(h, call) && SmallCall(h.pool, call) && HeadsFound(h.sys.m, h.sys.D)
    ensures var t := Step(h, call).0; |t.sys.m.pages| == |t.sys.D| && HeadsFound(t.sys.m, t.sys.D)
  {
    hide PoolOk, Partitioned, Canonical, Allocate, Release, SafeToFree, HeadsFound, BmallocIndex;
    match call
    case CacheAlloc(c) => AllocateKeepsHeads(h, c);
    case Bmalloc(size) => if BmallocIndex(size).Some? { AllocateKeepsHeads(h, BmallocIndex(size).value); }
    case Bfree(objp) =>
      var c, p :| SafeToFree(h, c, p, objp) && Step(h, call) == (Release(h, c, p, objp), None);
      ReleaseHeads(h, c, p, objp);
  }

  lemma SmallCallStays(s: Pool, t: Pool, call: Call)
    requires SameGeometry(s, t)
    ensures SmallCall(s, call) <==> SmallCall(t, call)
  {
  }

  /** Every run of calls on caches of single pages keeps all compound heads right, ... */
  lemma {:induction false} RunKeepsHeads(h: Heap, calls: seq<Call>)
    requires Inv(h) && AllAllowed(h, calls) && HeadsFound(h.sys.m, h.sys.D)
    requires forall i :: 0 <= i < |calls| ==> SmallCall(h.pool, calls[i])
    ensures var t := Run(h, calls); |t.sys.m.pages| == |t.sys.D| && HeadsFound(t.sys.m, t.sys.D)
    decreases |calls|
  {
    hide PoolOk, Represents, Partitioned, Canonical, Step, HeadsFound, SmallCall, Allowed, SameGeometry;
    InvLength(h);
    if calls != [] {
      var t := Step(h, calls[0]).0;
      StepKeepsHeads(h, calls[0]);
      StepEffect(h, calls[0]);
      forall i | 0 <= i < |calls[1..]|
        ensures SmallCall(t.pool, calls[1..][i])
      {
        SmallCallStays(h.pool, t.pool, calls[i + 1]);
      }
      RunKeepsHeads(t, calls[1..]);
    }
  }

  lemma InvLength(h: Heap)
    requires Inv(h)
    ensures |h.sys.m.pages| == |h.sys.D|
  {
  }

  /** ... so that `bfree` finds every object in use, whatever came before. */
  lemma RunFindsObjects(h: Heap, calls: seq<Call>, c: nat, p: nat, objp: nat)
    requires Inv(h) && AllAllowed(h, calls) && HeadsFound(h.sys.m, h.sys.D)
    requires forall i :: 0 <= i < |calls| ==> SmallCall(h.pool, calls[i])
    requires InUse(Run(h, calls).pool, c, p, objp)
    ensures Found(Run(h, calls), c, p, objp)
  {
    RunKeepsHeads(h, calls);
    EveryObjectIsFound(Run(h, calls), c, p, objp);
  }

  /** The caches of `bmalloc`. */
  ghost predicate BmallocCaches(s: Pool) {
    KMALLOC_CACHE_NUM <= |s.caches|
    && forall i :: 0 <= i < KMALLOC_CACHE_NUM ==> s.caches[i].geo == EmptyCache(i + 3).geo
  }

  /** `bmalloc` of up to a page is such a call. */
  lemma SizesToAPageAreSmall(s: Pool, size: nat)
    requires BmallocCaches(s) && size <= PAGE_SIZE
    ensures SmallCall(s, Bmalloc(size))
  {
    hide BmallocIndex, Pow2, CacheOrder, CacheNums;
    Powers();
    if size == 0 {
      ZeroIndex();
      SmallOrder(3);
    } else {
      IndexFitsExactlyWhen(size);
      if BmallocIndex(size).Some? {
        var i := BmallocIndex(size).value;
        if i > 9 { Pow2Monotone(12, i + 2); }
        SmallOrder(i + 3);
      }
    }
  }

  lemma ZeroIndex()
    ensures BmallocIndex(0) == Some(0)
  {
  }

  lemma SmallOrder(e: nat)
    requires e <= PAGE_SHIFT
    ensures CacheOrder(Pow2(e)) == 0
  {
    FlsBelowPow2(e);
  }

  // --- a slab of two pages --------------------------------------------------------------------

  /** Block (p, 2) after page p has been taken from it. */
  ghost predicate FourTaken(D: seq<Owner>, D': seq<Owner>, p: nat) {
    && p + 4 <= |D| == |D'|
    && D'[p] == Live(p, 0) && D'[p + 1] == Free(p + 1, 0) && D'[p + 2] == D'[p + 3] == Free(p + 2, 1)
    && forall x :: 0 <= x < |D| && !(p <= x < p + 4) ==> D'[x] == D[x]
  }

  lemma TakenFromFour(D: seq<Owner>, p: nat)
    requires p + 4 <= |D|
    ensures FourTaken(D, Allocating.Taken(D, p, 2, 0), p)
  {
    assert Pow2(0) == 1 && Pow2(1) == 2 && Pow2(2) == 4;
    var D0 := SetBlock(D, p, 2, Live(p, 2));
    var D1 := Allocating.Halved(D0, p, 1);
    var D2 := Allocating.Halved(D1, p, 0);
    assert Allocating.Split(D1, p, 1, 0) == Allocating.Split(D2, p, 0, 0) == D2;
    assert Allocating.Split(D0, p, 2, 0) == Allocating.Split(D1, p, 1, 0);
  }

  lemma TakenPage(D: seq<Owner>, p: nat)
    requires p < |D|
    ensures Allocating.Taken(D, p, 0, 0) == D[p := Live(p, 0)]
  {
    assert Pow2(0) == 1;
  }

  /** The only free block of an order is the first one on its list. */
  lemma OnlyBlockFirst(m: Mem, D: seq<Owner>, q: nat, k: nat)
    requires Represents(m, D) && k < PAGE_MAX_ORDER && FreeHead(D, q, k)
    requires forall x: nat :: FreeHead(D, x, k) ==> x == q
    ensures |m.area| == PAGE_MAX_ORDER && m.area[k].list != [] && m.area[k].list[0] == q && FirstOrder(m, k) == k
  {
    assert AreaAgrees(m, D, k);
    assert m.area[k].list[0] in m.area[k].list;
  }

  lemma NoBlock(m: Mem, D: seq<Owner>, k: nat, x: nat)
    requires Represents(m, D) && k < PAGE_MAX_ORDER && m.area[k].list == []
    ensures !FreeHead(D, x, k)
  {
    assert AreaAgrees(m, D, k);
  }

  /** `alloc_pages` takes the first block of the first order that has one. */
  lemma TakesFirst(s: Runs.Sys, order: nat, k: nat)
    requires Runs.Inv(s) && FirstOrder(s.m, order) == k && order <= k < PAGE_MAX_ORDER
    ensures s.m.area[k].list != [] && Allocating.WellListed(s.m)
    ensures var p, t := s.m.area[k].list[0], Runs.Step(s, Runs.Alloc(order));
      && Allocating.AllocPages(s.m, order).1 == Some(p) && FreeHead(s.D, p, k) && Aligned(p, order)
      && t.D == Allocating.Taken(s.D, p, k, order) && |t.m.pages| == |s.m.pages| == |s.D|
      && forall x :: 0 <= x < |s.D| ==> t.m.pages[x].head == Allocating.HeadAfter(s.m, p, order, x)
  {
    Allocating.RepresentsWellListed(s.m, s.D);
    Allocating.TakeRepresents(s.m, s.D, k, order);
    hide Represents, Partitioned, Canonical, Allocating.Taken, Allocating.HeadAfter;
  }

  /** A heap whose smallest free block has four pages, and two caches without a partial slab: c with
      slabs of one page that hold one object, d with slabs of two pages. */
  ghost predicate Poised(h: Heap, c: nat, d: nat) {
    && Inv(h) && |h.sys.m.area| == PAGE_MAX_ORDER && c < |h.pool.caches| && d < |h.pool.caches| && c != d
    && h.pool.caches[c].partial == [] && h.pool.caches[d].partial == []
    && h.pool.caches[c].geo.order == 0 && h.pool.caches[c].geo.nums == 1 && h.pool.caches[d].geo.order == 1
    && h.sys.m.area[0].list == [] && h.sys.m.area[1].list == [] && h.sys.m.area[2].list != []
  }

  /** One object of cache c from a new slab, which is full at once. */
  lemma FullAtOnce(h: Heap, c: nat, p: nat)
    requires Inv(h) && c < |h.pool.caches| && h.pool.caches[c].partial == [] && h.pool.caches[c].geo.nums == 1
    requires Allocating.WellListed(h.sys.m)
    requires Allocating.AllocPages(h.sys.m, h.pool.caches[c].geo.order).1 == Some(p)
    ensures var (t, r) := Allocate(h, c);
      && t.sys == Runs.Step(h.sys, Runs.Alloc(h.pool.caches[c].geo.order)) && r == Some(p * PAGE_SIZE)
      && HandsOut(h.pool, t.pool, c, p, p * PAGE_SIZE)
      && |t.pool.caches| == |h.pool.caches| && t.pool.caches[c].partial == []
      && t.pool.caches[c].geo == h.pool.caches[c].geo
      && forall d :: 0 <= d < |t.pool.caches| && d != c ==> t.pool.caches[d] == h.pool.caches[d]
  {
    AllocateNew(h, c);
    var k := h.pool.caches[c].geo.order;
    AllocEffect(h.sys, k);
    var sys := Runs.Step(h.sys, Runs.Alloc(k));
    NewCounted(h.pool, h.sys.D, sys.D, c, p);
    hide Runs.Inv, Runs.Step, PoolOk, HandsOut, Allocate;
    GivenFromGrown(h.pool, sys.D, c, p);
  }

  lemma FreeHeadsOfFour(m: Mem, D: seq<Owner>, D': seq<Owner>, p: nat)
    requires Represents(m, D) && m.area[0].list == [] && m.area[1].list == [] && FourTaken(D, D', p)
    ensures FreeHead(D', p + 1, 0) && FreeHead(D', p + 2, 1)
    ensures forall q: nat :: FreeHead(D', q, 0) ==> q == p + 1
    ensures forall q: nat :: FreeHead(D', q, 1) ==> q == p + 2
  {
    hide Represents;
    forall q: nat, k: nat | k < 2 && FreeHead(D', q, k)
      ensures q == p + 1 + k
    {
      NoBlock(m, D, k, q);
    }
  }

  lemma FreeHeadsOfTwo(D: seq<Owner>, p: nat)
    requires p + 2 < |D| && FreeHead(D, p + 2, 1) && forall q: nat :: FreeHead(D, q, 1) ==> q == p + 2
    ensures var D' := D[p + 1 := Live(p + 1, 0)];
      FreeHead(D', p + 2, 1) && forall q: nat :: FreeHead(D', q, 1) ==> q == p + 2
  {
    var D' := D[p + 1 := Live(p + 1, 0)];
    assert forall q: nat :: FreeHead(D', q, 1) ==> FreeHead(D, q, 1);
  }

  lemma FromOrderTwo(m: Mem)
    requires |m.area| == PAGE_MAX_ORDER && m.area[0].list == [] && m.area[1].list == [] && m.area[2].list != []
    ensures FirstOrder(m, 0) == 2
  {
    assert FirstOrder(m, 1) == 2;
  }

  lemma FourFit(D: seq<Owner>, p: nat)
    requires Partitioned(D) && FreeHead(D, p, 2)
    ensures p + 4 <= |D| && Aligned(p, 2)
  {
    HeadOwns(D, p);
    assert Pow2(2) == 4;
  }

  /** The first page of a block of four, ... */
  lemma FirstOfFour(s: Runs.Sys, p: nat, t: Runs.Sys)
    requires Runs.Inv(s) && |s.m.area| == PAGE_MAX_ORDER && s.m.area[0].list == [] && s.m.area[1].list == []
    requires s.m.area[2].list != [] && p == s.m.area[2].list[0] && t == Runs.Step(s, Runs.Alloc(0))
    ensures Allocating.WellListed(s.m) && Allocating.AllocPages(s.m, 0).1 == Some(p)
    ensures Aligned(p, 2) && p + 4 <= |t.D| && FreeHead(t.D, p + 1, 0) && FreeHead(t.D, p + 2, 1)
    ensures forall q: nat :: FreeHead(t.D, q, 0) ==> q == p + 1
    ensures forall q: nat :: FreeHead(t.D, q, 1) ==> q == p + 2
  {
    hide Partitioned, Canonical, Represents, Runs.Step, Allocating.Taken, Allocating.WellListed, Allocating.AllocPages;
    FromOrderTwo(s.m);
    TakesFirst(s, 0, 2);
    FourFit(s.D, p);
    TakenFromFour(s.D, p);
    FreeHeadsOfFour(s.m, s.D, t.D, p);
  }

  /** ... the second, ... */
  lemma SecondOfFour(s: Runs.Sys, p: nat, t: Runs.Sys)
    requires Runs.Inv(s) && t == Runs.Step(s, Runs.Alloc(0))
    requires p + 4 <= |s.D| && FreeHead(s.D, p + 1, 0) && FreeHead(s.D, p + 2, 1)
    requires forall q: nat :: FreeHead(s.D, q, 0) ==> q == p + 1
    requires forall q: nat :: FreeHead(s.D, q, 1) ==> q == p + 2
    ensures Allocating.WellListed(s.m) && Allocating.AllocPages(s.m, 0).1 == Some(p + 1)
    ensures p + 4 <= |t.D| && FreeHead(t.D, p + 2, 1) && forall q: nat :: FreeHead(t.D, q, 1) ==> q == p + 2
  {
    hide Partitioned, Canonical, Represents, Runs.Step, Allocating.Taken, Allocating.WellListed, Allocating.AllocPages;
    OnlyBlockFirst(s.m, s.D, p + 1, 0);
    TakesFirst(s, 0, 0);
    TakenPage(s.D, p + 1);
    FreeHeadsOfTwo(s.D, p);
  }

  /** ... and the other two: now the second page leads to the first. */
  lemma PairOfFour(s: Runs.Sys, p: nat, t: Runs.Sys)
    requires Runs.Inv(s) && t == Runs.Step(s, Runs.Alloc(1)) && Aligned(p, 2)
    requires p + 4 <= |s.D| && FreeHead(s.D, p + 2, 1) && forall q: nat :: FreeHead(s.D, q, 1) ==> q == p + 2
    ensures Allocating.WellListed(s.m) && Allocating.AllocPages(s.m, 1).1 == Some(p + 2)
    ensures p + 1 < |t.m.pages| && t.m.pages[p + 1].head == p
  {
    hide Partitioned, Canonical, Represents, Runs.Step, Allocating.Taken, Allocating.WellListed, Allocating.AllocPages;
    OnlyBlockFirst(s.m, s.D, p + 2, 1);
    TakesFirst(s, 1, 1);
    PairBuddy(p);
  }

  lemma PairBuddy(p: nat)
    requires Aligned(p, 2)
    ensures Aligned(p + 2, 1) && Buddy(p + 2, 1) == p && InBlock(p, 1, p + 1)
  {
    AlignedStep(p, 1);
    assert Pow2(1) == 2;
  }

  lemma PagesInOrder(h: Heap)
    requires Inv(h)
    ensures Runs.Inv(h.sys)
  {
  }

  /** The three allocations on the heap. */
  lemma PairAllocated(h: Heap, c: nat, d: nat, p: nat, h1: Heap, h2: Heap, h3: Heap)
    requires Poised(h, c, d) && p == h.sys.m.area[2].list[0]
    requires h1 == Allocate(h, c).0 && c < |h1.pool.caches| && h2 == Allocate(h1, c).0
    requires d < |h2.pool.caches| && h3 == Allocate(h2, d).0
    ensures InUse(h3.pool, c, p + 1, (p + 1) * PAGE_SIZE)
    ensures PageOf(h3, (p + 1) * PAGE_SIZE) == Some(p)
  {
    hide Inv, Runs.Inv, PoolOk, Runs.Step, Allocate, Allocating.WellListed, Allocating.AllocPages, HandsOut, InUse;
    hide FreeHead, Aligned, PageOf;
    PagesInOrder(h);
    PagesInOrder(h1);
    PagesInOrder(h2);
    FirstOfFour(h.sys, p, Runs.Step(h.sys, Runs.Alloc(0)));
    FullAtOnce(h, c, p);
    SecondOfFour(h1.sys, p, Runs.Step(h1.sys, Runs.Alloc(0)));
    FullAtOnce(h1, c, p + 1);
    PairOfFour(h2.sys, p, Runs.Step(h2.sys, Runs.Alloc(1)));
    AllocateNew(h2, d);
    HandedOut(h1.pool, h2.pool, c, p + 1, (p + 1) * PAGE_SIZE);
    StaysInUse(h2.pool, h3.pool, d, p + 2, (p + 2) * PAGE_SIZE, c, p + 1, (p + 1) * PAGE_SIZE);
    LeadsTo(h3, p + 1, p);
  }

  lemma LeadsTo(h: Heap, x: nat, p: nat)
    requires x < |h.sys.m.pages| && h.sys.m.pages[x].head == p
    ensures PageOf(h, x * PAGE_SIZE) == Some(p)
  {
    assert x * PAGE_SIZE / PAGE_SIZE == x;
  }

  lemma AllocateSameCaches(h: Heap, c: nat)
    requires Inv(h) && c < |h.pool.caches|
    ensures |Allocate(h, c).0.pool.caches| == |h.pool.caches|
  {
    AllocateEffect(h, c);
  }

  /** Three calls mislead `bfree`: the second object of one page is led to the slab of the first. */
  lemma PairMisleadsBfree(h: Heap, c: nat, d: nat) returns (t: Heap)
    requires Poised(h, c, d)
    ensures var calls := [CacheAlloc(c), CacheAlloc(c), CacheAlloc(d)];
      AllAllowed(h, calls) && t == Run(h, calls)
    ensures var p := h.sys.m.area[2].list[0];
      && InUse(t.pool, c, p + 1, (p + 1) * PAGE_SIZE) && PageOf(t, (p + 1) * PAGE_SIZE) == Some(p)
      && !Found(t, c, p + 1, (p + 1) * PAGE_SIZE)
  {
    hide Inv, Runs.Inv, PoolOk, Allocate, InUse, PageOf;
    var h1 := Allocate(h, c).0;
    AllocateSameCaches(h, c);
    var h2 := Allocate(h1, c).0;
    AllocateSameCaches(h1, c);
    t := Allocate(h2, d).0;
    ThreeCalls(h, c, c, d, h1, h2, t);
    PairAllocated(h, c, d, h.sys.m.area[2].list[0], h1, h2, t);
  }

  lemma OneFour(D: seq<Owner>)
    requires D == Witnesses.Around16(Free(16, 2), Free(16, 2), Free(16, 2), Free(16, 2), Unmanaged)
    ensures Partitioned(D) && Canonical(D) && FreeHead(D, 16, 2)
    ensures forall p: nat, k: nat :: FreeHead(D, p, k) ==> p == 16 && k == 2
  {
    Witnesses.Orders();
    assert Buddy(16, 2) == 20;
  }

  lemma OnlyOrderTwo(m: Mem, D: seq<Owner>)
    requires Represents(m, D) && FreeHead(D, 16, 2)
    requires forall p: nat, k: nat :: FreeHead(D, p, k) ==> p == 16 && k == 2
    ensures |m.area| == PAGE_MAX_ORDER && m.area[0].list == [] && m.area[1].list == [] && m.area[2].list != []
  {
    assert AreaAgrees(m, D, 0) && AreaAgrees(m, D, 1) && AreaAgrees(m, D, 2);
    NoEntries(m.area[0].list);
    NoEntries(m.area[1].list);
  }

  lemma PageAndPair()
    ensures EmptyCache(12).geo.order == 0 && EmptyCache(12).geo.nums == 1 && EmptyCache(13).geo.order == 1
    ensures EmptyCache(12).partial == EmptyCache(13).partial == []
  {
    assert Pow2(12) == PAGE_SIZE by { PageSizeIsPow2(); }
    FlsBelowPow2(12);
    FlsBelowPow2(13);
  }

  lemma TwoCaches(D: seq<Owner>) returns (s: Pool)
    ensures PoolOk(s, D) && s.caches == [EmptyCache(12), EmptyCache(13)]
  {
    s := Pool([EmptyCache(12), EmptyCache(13)], seq(|D|, _ => Slab(0, 0, [])));
    hide PoolOk, EmptyCache;
    EmptyPool(s, D, [12, 13]);
  }

  /** There is such a heap: four free pages, and empty caches of 4096 and of 8192 bytes. */
  lemma PoisedHeap() returns (h: Heap)
    ensures Poised(h, 0, 1) && HeadsFound(h.sys.m, h.sys.D)
    ensures h.pool.caches == [EmptyCache(12), EmptyCache(13)]
  {
    var D := Witnesses.Around16(Free(16, 2), Free(16, 2), Free(16, 2), Free(16, 2), Unmanaged);
    var m := Witnesses.StateOf(D);
    Witnesses.EveryPartitionIsHeld(D);
    OneFour(D);
    hide Partitioned, Canonical, Represents, HeadsFound, PoolOk, EmptyCache, Witnesses.Around16, Witnesses.StateOf;
    OnlyOrderTwo(m, D);
    var s := TwoCaches(D);
    PageAndPair();
    h := Heap(Runs.Sys(m, D), s);
  }

  lemma HandedOut(s: Pool, t: Pool, c: nat, p: nat, a: nat)
    requires HandsOut(s, t, c, p, a)
    ensures InUse(t, c, p, a)
  {
  }

  lemma StaysInUse(s: Pool, t: Pool, d: nat, q: nat, b: nat, c: nat, p: nat, a: nat)
    requires HandsOut(s, t, d, q, b) && InUse(s, c, p, a)
    ensures InUse(t, c, p, a)
  {
  }

  lemma ThreeCalls(h: Heap, a: nat, b: nat, c: nat, h1: Heap, h2: Heap, t: Heap)
    requires Inv(h) && a < |h.pool.caches| && h1 == Allocate(h, a).0
    requires b < |h1.pool.caches| && h2 == Allocate(h1, b).0
    requires c < |h2.pool.caches| && t == Allocate(h2, c).0
    ensures var calls := [CacheAlloc(a), CacheAlloc(b), CacheAlloc(c)];
      AllAllowed(h, calls) && Run(h, calls) == t
  {
    hide Inv, Allocate;
    var calls := [CacheAlloc(a), CacheAlloc(b), CacheAlloc(c)];
    OneMoreCall(h2, CacheAlloc(c), [], t);
    OneMoreCall(h1, CacheAlloc(b), [CacheAlloc(c)], h2);
    assert [CacheAlloc(b)] + [CacheAlloc(c)] == [CacheAlloc(b), CacheAlloc(c)];
    OneMoreCall(h, CacheAlloc(a), [CacheAlloc(b), CacheAlloc(c)], h1);
    assert [CacheAlloc(c)] + [] == [CacheAlloc(c)];
    assert [CacheAlloc(a)] + [CacheAlloc(b), CacheAlloc(c)] == calls;
  }

  lemma OneMoreCall(h: Heap, call: Call, rest: seq<Call>, t: Heap)
    requires Inv(h) && Allowed(h, call) && t == Step(h, call).0 && AllAllowed(t, rest)
    ensures AllAllowed(h, [call] + rest) && Run(h, [call] + rest) == Run(t, rest)
  {
    hide Inv, Step, Allowed;
    assert ([call] + rest)[1..] == rest;
  }
}
