/** Boot, end to end: the memory the firmware reports is added to an empty array of regions, ranges
    are reserved, the page map is allocated from the rest, what is left is carved into free
    blocks, and no allocation of any later run hands out a byte from anywhere else. */
module Boot {
  import opened Arithmetic
  import opened Dyadic
  import opened MemblockAdd
  import opened PageMap
  import opened Partition
  import opened Regions
  import opened Memblock
  import opened PageAlloc
  import Allocating
  import Carve
  import Runs

  const MEMORY_START: nat := 0x010000
  const MEMORY_LIMIT: nat := 0x100000

  /** Byte a of page x. */
  predicate OnPage(x: nat, a: nat) {
    x * PAGE_SIZE <= a < (x + 1) * PAGE_SIZE
  }

  /** Page x starts in a region that ends within a page map of n pages. */
  ghost predicate InLowRegion(R: seq<Region>, n: nat, x: nat) {
    exists i :: 0 <= i < |R| && R[i].End() <= n * PAGE_SIZE && Contains(R[i], x * PAGE_SIZE)
  }

  lemma LowRegionStep(R: seq<Region>, i: nat, n: nat, first: nat, count: nat)
    requires i < |R| && Separated(R) && PageAligned(R)
    requires R[i].base == first * PAGE_SIZE && R[i].size == count * PAGE_SIZE
    requires first + count <= n
    ensures forall x: nat :: InLowRegion(R[..i + 1], n, x) <==> InLowRegion(R[..i], n, x) || first <= x < first + count
    ensures forall x: nat :: first <= x < first + count ==> !InLowRegion(R[..i], n, x)
    ensures first > 0 ==> !InLowRegion(R[..i], n, first - 1)
    ensures forall x: nat :: InLowRegion(R[..i], n, x) ==> x < first
    ensures !InLowRegion(R[..i], n, first + count)
  {
    hide InLowRegion, Separated, PageAligned;
    var r, P := R[i], PAGE_SIZE;
    assert forall x: nat :: Contains(r, x * P) <==> first <= x < first + count;
    forall x: nat
      ensures InLowRegion(R[..i + 1], n, x) <==> InLowRegion(R[..i], n, x) || Contains(r, x * P)
      ensures InLowRegion(R[..i], n, x) ==> x + 1 < first
    {
      OneMoreRegion(R, i, n, x);
      if InLowRegion(R[..i], n, x) { LowRegionBelow(R, i, n, x, first); }
    }
  }

  lemma OneMoreRegion(R: seq<Region>, i: nat, n: nat, x: nat)
    requires i < |R| && R[i].End() <= n * PAGE_SIZE
    ensures InLowRegion(R[..i + 1], n, x) <==> InLowRegion(R[..i], n, x) || Contains(R[i], x * PAGE_SIZE)
  {
    assert R[..i + 1][i] == R[i];
    assert forall j :: 0 <= j < i ==> R[..i][j] == R[..i + 1][j];
  }

  lemma LowRegionBelow(R: seq<Region>, i: nat, n: nat, x: nat, first: nat)
    requires i < |R| && Separated(R) && PageAligned(R) && R[i].base == first * PAGE_SIZE && InLowRegion(R[..i], n, x)
    ensures x + 1 < first
  {
    hide Separated, PageAligned;
    var P := PAGE_SIZE;
    var j: nat :| j < i && R[..i][j].End() <= n * P && Contains(R[..i][j], x * P);
    EarlierRegion(R, j, i);
    WholePages(x, R[j].End(), first);
  }

  lemma EarlierRegion(R: seq<Region>, j: nat, i: nat)
    requires j < i < |R| && Separated(R) && PageAligned(R)
    ensures R[..i][j] == R[j] && R[j].End() < R[i].base && R[j].End() % PAGE_SIZE == 0
  {
  }

  lemma WholePages(x: nat, end: nat, first: nat)
    requires x * PAGE_SIZE < end < first * PAGE_SIZE && end % PAGE_SIZE == 0
    ensures x + 1 < first
  {
    assert end == end / PAGE_SIZE * PAGE_SIZE;
  }

  /** `page_map_free_bootmem`: exactly the pages of the regions below the limit become free, whatever
      their records held before; the records of all other pages stay as they are. */
  method PageMapFreeBootmem(alloc: PageAllocator, mb: MemblockType)
    requires alloc.Sketched() && Canonical(alloc.owner)
    requires forall x :: 0 <= x < |alloc.owner| ==> alloc.owner[x].Unmanaged?
    requires mb.Valid() && Separated(mb.InUse()) && PageAligned(mb.InUse())
    modifies alloc, alloc.pageMap, alloc.freeArea
    ensures alloc.Sketched() && Canonical(alloc.owner) && |alloc.owner| == old(|alloc.owner|)
    ensures Carve.LeavesAlone(old(alloc.State()), alloc.State(), alloc.owner)
    ensures Carve.Ascending(alloc.State())
    ensures forall x :: 0 <= x < |alloc.owner| ==>
      if InLowRegion(mb.InUse(), |alloc.owner|, x) then alloc.owner[x].Free? else alloc.owner[x].Unmanaged?
  {
    hide Canonical, Represents, Partitioned, InLowRegion;
    Carve.NothingListed(alloc.State(), alloc.owner);
    ghost var R, n, m0 := mb.InUse(), |alloc.owner|, alloc.State();
    var i := 0;
    NoRegionYet(R, n);
    DescribedLength(m0, alloc.owner);
    assert Carve.LeavesAlone(m0, m0, alloc.owner);
    hide Describes, Carve.LeavesAlone, Carve.Ascending;
    while i < mb.cnt
      invariant 0 <= i <= mb.cnt && mb.Valid() && mb.InUse() == R
      invariant alloc.Sketched() && Canonical(alloc.owner) && |alloc.owner| == n
      invariant Carve.LeavesAlone(m0, alloc.State(), alloc.owner) && Carve.Ascending(alloc.State())
      invariant forall x :: 0 <= x < n ==>
        if InLowRegion(R[..i], n, x) then alloc.owner[x].Free? else alloc.owner[x].Unmanaged?
    {
      var r := mb.regions[i];
      assert r == R[i];
      MapLength(alloc);
      if r.End() > alloc.pageMap.Length * PAGE_SIZE {
        RestIsHigh(R, i, n);
        return;
      }
      ghost var first, count := r.base / PAGE_SIZE, r.size / PAGE_SIZE;
      LowRegionStep(R, i, n, first, count);
      ghost var m, D := alloc.State(), alloc.owner;
      alloc.PageMapFreeBootmem(r.base, r.size, first, count);
      Carve.LeavesMoreAlone(m0, m, D, alloc.State(), alloc.owner);
      i := i + 1;
      forall x | 0 <= x < n
        ensures if InLowRegion(R[..i], n, x) then alloc.owner[x].Free? else alloc.owner[x].Unmanaged?
      {
        assert InLowRegion(R[..i], n, x) <==> InLowRegion(R[..i - 1], n, x) || first <= x < first + count;
      }
    }
    assert R[..i] == R;
  }

  lemma NoRegionYet(R: seq<Region>, n: nat)
    ensures forall x :: !InLowRegion(R[..0], n, x)
  {
  }

  lemma MapLength(alloc: PageAllocator)
    requires alloc.Sketched()
    ensures alloc.pageMap.Length == |alloc.owner|
  {
  }

  lemma RestIsHigh(R: seq<Region>, i: nat, n: nat)
    requires i < |R| && Separated(R) && R[i].End() > n * PAGE_SIZE
    ensures forall x: nat :: InLowRegion(R, n, x) <==> InLowRegion(R[..i], n, x)
  {
    forall x: nat ensures InLowRegion(R, n, x) <==> InLowRegion(R[..i], n, x) {
      forall j | 0 <= j < i ensures R[..i][j] == R[j] {}
      if InLowRegion(R, n, x) {
        var j :| 0 <= j < |R| && R[j].End() <= n * PAGE_SIZE && Contains(R[j], x * PAGE_SIZE);
        LowIsBefore(R, i, n, j);
        assert Contains(R[..i][j], x * PAGE_SIZE);
      }
    }
  }

  lemma LowIsBefore(R: seq<Region>, i: nat, n: nat, j: nat)
    requires i < |R| && j < |R| && Separated(R) && R[i].End() > n * PAGE_SIZE
    requires R[j].End() <= n * PAGE_SIZE
    ensures j < i
  {
  }

  /** A range of 32-bit numbers that is not empty and whose page-rounded end is below 4 GiB. */
  predicate Proper(range: (nat, nat)) {
    range.1 > 0 && RoundUp(range.0 + range.1) < B32
  }

  predicate WithinOne(range: (nat, nat), a: nat) {
    RoundDown(range.0) <= a < RoundUp(range.0 + range.1)
  }

  /** Byte a lies in one of the ranges, each rounded outwards to pages. */
  ghost predicate Within(ranges: seq<(nat, nat)>, a: nat) {
    exists j :: 0 <= j < |ranges| && WithinOne(ranges[j], a)
  }

  lemma OneMoreRange(ranges: seq<(nat, nat)>, range: (nat, nat))
    ensures forall a: nat :: Within(ranges + [range], a) <==> Within(ranges, a) || WithinOne(range, a)
  {
    hide WithinOne;
    var next := ranges + [range];
    assert next[|ranges|] == range;
    forall a: nat
      ensures Within(next, a) <==> Within(ranges, a) || WithinOne(range, a)
    {
      if Within(ranges, a) {
        var j :| 0 <= j < |ranges| && WithinOne(ranges[j], a);
        assert next[j] == ranges[j];
      }
    }
  }

  // --- reservations ------------------------------------------------------------------------

  /** `bootmem_reserve_regions`. */
  method ReserveAll(mb: MemblockType, reserved: seq<(nat, nat)>)
    requires mb.Valid() && Separated(mb.InUse()) && PageAligned(mb.InUse()) && Low(mb.InUse())
    requires mb.cnt + |reserved| <= mb.regions.Length
    requires forall j :: 0 <= j < |reserved| ==> Proper(reserved[j])
    modifies mb, mb.regions
    ensures mb.Valid() && Separated(mb.InUse()) && PageAligned(mb.InUse()) && Low(mb.InUse())
    ensures mb.cnt <= old(mb.cnt) + |reserved|
    ensures forall a: nat :: Covers(mb.InUse(), a) <==> Covers(old(mb.InUse()), a) && !Within(reserved, a)
  {
    hide Separated, PageAligned, Low, Covers, Removed, RoundDown, RoundUp, Within, WithinOne, Proper;
    hide Splits, Crosses, Sorted, Sum;
    var i := 0;
    NoRange(reserved[..0]);
    while i < |reserved|
      invariant 0 <= i <= |reserved| && mb.Valid()
      invariant Separated(mb.InUse()) && PageAligned(mb.InUse()) && Low(mb.InUse())
      invariant mb.cnt <= old(mb.cnt) + i
      invariant forall a: nat :: Covers(mb.InUse(), a) <==> Covers(old(mb.InUse()), a) && !Within(reserved[..i], a)
    {
      ghost var R := mb.InUse();
      SeparatedSorted(R);
      ProperFacts(reserved[i]);
      var _ := mb.DelRegion(reserved[i].0, reserved[i].1);
      RemovedFacts(R, mb.InUse(), reserved[i]);
      OneMoreRange(reserved[..i], reserved[i]);
      assert reserved[..i + 1] == reserved[..i] + [reserved[i]];
      i := i + 1;
    }
    assert reserved[..i] == reserved;
  }

  lemma NoRange(ranges: seq<(nat, nat)>)
    requires ranges == []
    ensures forall a: nat :: !Within(ranges, a)
  {
  }

  lemma ProperFacts(range: (nat, nat))
    requires Proper(range)
    ensures range.1 > 0 && range.0 + range.1 <= B32
    ensures RoundDown(range.0) < RoundUp(range.0 + range.1) < B32
    ensures RoundUp(range.0 + range.1) + PAGE_SIZE <= B32
  {
  }

  lemma SeparatedSorted(R: seq<Region>)
    requires Separated(R)
    ensures Sorted(R)
  {
  }

  lemma RemovedFacts(R: seq<Region>, R': seq<Region>, range: (nat, nat))
    requires Separated(R) && PageAligned(R) && Low(R) && range.1 > 0
    requires Removed(R, R', RoundDown(range.0), RoundUp(range.0 + range.1))
    ensures Separated(R') && PageAligned(R') && Low(R')
    ensures forall a: nat :: Covers(R', a) <==> Covers(R, a) && !WithinOne(range, a)
  {
    hide Covers;
  }

  // --- from the array of regions to the page allocator ---------------------------------------

  /** None of the pages that nobody manages was flagged FREE in the memory the map came to lie in. */
  ghost predicate NoStaleFlag(pages: seq<Page>, D: seq<Owner>) {
    forall x :: 0 <= x < |D| && x < |pages| && D[x].Unmanaged? ==> !pages[x].free
  }

  /** Room for `size` bytes: a page-aligned address from which on they are all left, below the limit. */
  ghost predicate Room(left: iset<nat>, size: nat, a: nat) {
    && a % PAGE_SIZE == 0 && MEMORY_START <= a && a + size <= MEMORY_LIMIT
    && forall b: nat :: a <= b < a + size ==> b in left
  }

  ghost predicate LowestRoom(left: iset<nat>, size: nat, a: nat) {
    Room(left, size, a) && forall b: nat :: Room(left, size, b) ==> a <= b
  }

  /** The bytes of the regions that no reservation takes. */
  ghost function Left(R: seq<Region>, reserved: seq<(nat, nat)>): iset<nat> {
    iset a: nat | Covers(R, a) && !Within(reserved, a)
  }

  /** Bytes and regions say the same about where something fits. */
  lemma FitsIsRoom(R: seq<Region>, left: iset<nat>, size: nat, a: nat)
    requires Separated(R) && size > 0 && forall b: nat :: b in left <==> Covers(R, b)
    ensures FitsIn(R, size, PAGE_SIZE, MEMORY_START, MEMORY_LIMIT, a) <==> Room(left, size, a)
  {
    hide Covers, Separated;
    if FitsIn(R, size, PAGE_SIZE, MEMORY_START, MEMORY_LIMIT, a) {
      var i: nat :| i < |R| && R[i].base <= a < R[i].End() && a + size <= R[i].End();
      forall b: nat | a <= b < a + size ensures Covers(R, b) { IsCover(R, i, b); }
    }
    if Room(left, size, a) {
      var i := FindCover(R, a);
      if R[i].End() < a + size {
        assert R[i].End() in left;
        var k := FindCover(R, R[i].End());
        NoNeighbour(R, i, k);
      }
    }
  }

  /** A region reaches beyond the pages of a fit exactly when the byte behind them is left. */
  lemma CrossesIsLeft(R: seq<Region>, size: nat, a: nat)
    requires Separated(R) && PageAligned(R) && size > 0 && FitsIn(R, size, PAGE_SIZE, MEMORY_START, MEMORY_LIMIT, a)
    ensures Crosses(R, RoundUp(a + size)) <==> Covers(R, RoundUp(a + size))
  {
    hide Covers, Separated, RoundUp;
    var e := RoundUp(a + size);
    var i: nat :| i < |R| && R[i].base <= a < R[i].End() && a + size <= R[i].End();
    EndsOnPage(R, i);
    if R[i].End() < e { OnePageOnly(a + size, e, R[i].End()); }
    hide PageAligned;
    if Crosses(R, e) {
      var j: nat :| j < |R| && R[j].base < e < R[j].End();
      IsCover(R, j, e);
    }
    if Covers(R, e) {
      var k := FindCover(R, e);
      if R[i].End() == e { NoNeighbour(R, i, k); }
    }
  }

  lemma OnePageOnly(x: nat, e: nat, y: nat)
    requires e == RoundUp(x) && y % PAGE_SIZE == 0 && x <= y
    ensures e <= y
  {
  }

  /** Whether and where the page map is placed. */
  lemma MapPlaced(R: seq<Region>, left: iset<nat>, size: nat, r: nat)
    requires Separated(R) && PageAligned(R) && size > 0 && forall b: nat :: b in left <==> Covers(R, b)
    requires r != 0 ==> FirstFit(R, size, PAGE_SIZE, MEMORY_START, MEMORY_LIMIT, r) && Crosses(R, RoundUp(r + size))
    requires r == 0 ==>
      || (forall a: nat :: !FitsIn(R, size, PAGE_SIZE, MEMORY_START, MEMORY_LIMIT, a))
      || (exists a: nat ::
            FirstFit(R, size, PAGE_SIZE, MEMORY_START, MEMORY_LIMIT, a) && !Crosses(R, RoundUp(a + size)))
    ensures r != 0 ==> LowestRoom(left, size, r)
    ensures r == 0 <==> forall a: nat :: LowestRoom(left, size, a) ==> RoundUp(a + size) !in left
  {
    hide Covers, Separated, PageAligned, RoundUp, FitsIn, Room, Crosses;
    forall a: nat
      ensures FitsIn(R, size, PAGE_SIZE, MEMORY_START, MEMORY_LIMIT, a) <==> Room(left, size, a)
    {
      FitsIsRoom(R, left, size, a);
    }
    forall a: nat
      ensures LowestRoom(left, size, a) ==>
        FirstFit(R, size, PAGE_SIZE, MEMORY_START, MEMORY_LIMIT, a)
        && (Crosses(R, RoundUp(a + size)) <==> RoundUp(a + size) in left)
    {
      if LowestRoom(left, size, a) { CrossesIsLeft(R, size, a); }
    }
    if r != 0 { assert LowestRoom(left, size, r); }
    if a: nat :| FirstFit(R, size, PAGE_SIZE, MEMORY_START, MEMORY_LIMIT, a) {
      forall b: nat | LowestRoom(left, size, b) ensures b == a {}
    }
  }

  /** Boot up to the first allocation: reservations, the page map, the free blocks.  What is left
      is exactly the given regions without every page-rounded reservation and without the page
      map; its pages within the map, and no others, become free, so that a page is managed only if
      all its bytes lie there.  The map is not cleared: the allocator is valid exactly when no page
      that stays unmanaged happens to be flagged FREE.  The page map goes to the lowest room for it
      between 64 KiB and 1 MiB; boot gives up exactly when there is none, or when the byte behind the
      pages of the lowest one is not left. */
  method Start(mb: MemblockType, reserved: seq<(nat, nat)>, mapSize: nat, memory: array<Page>)
      returns (alloc: PageAllocator?, mapBase: nat)
    requires mb.Valid() && Separated(mb.InUse()) && PageAligned(mb.InUse()) && Low(mb.InUse())
    requires mb.cnt + |reserved| < mb.regions.Length
    requires forall j :: 0 <= j < |reserved| ==> Proper(reserved[j])
    requires mapSize > 0 && Aligned(memory.Length, TOP)
    modifies mb, mb.regions, memory
    ensures mb.Valid() && (alloc == null <==> mapBase == 0)
    ensures var left := Left(old(mb.InUse()), reserved);
      && (alloc == null <==> forall a: nat :: LowestRoom(left, mapSize, a) ==> RoundUp(a + mapSize) !in left)
      && (alloc != null ==> LowestRoom(left, mapSize, mapBase))
    ensures alloc != null ==> alloc.Sketched() && Canonical(alloc.owner) && fresh(alloc) && alloc.pageMap == memory
    ensures alloc != null ==> Carve.Ascending(alloc.State())
    ensures alloc != null ==> Separated(mb.InUse()) && PageAligned(mb.InUse())
    ensures alloc != null ==> (alloc.Valid() <==> NoStaleFlag(old(memory[..]), alloc.owner))
    ensures alloc != null ==> forall a: nat :: Covers(mb.InUse(), a) <==>
      Covers(old(mb.InUse()), a) && !Within(reserved, a) && !WithinOne((mapBase, mapSize), a)
    ensures alloc != null ==> forall x :: 0 <= x < |alloc.owner| ==>
      if InLowRegion(mb.InUse(), |alloc.owner|, x) then alloc.owner[x].Free? else alloc.owner[x].Unmanaged?
    ensures alloc != null ==> forall x: nat, a: nat ::
      x < |alloc.owner| && !alloc.owner[x].Unmanaged? && OnPage(x, a) ==>
        Covers(old(mb.InUse()), a) && !Within(reserved, a) && !WithinOne((mapBase, mapSize), a)
  {
    hide Separated, PageAligned, Low, Covers, Removed, RoundDown, RoundUp, Proper, Within, WithinOne;
    hide Represents, Describes, Partitioned, Canonical, FirstFit, FitsIn, Crosses, Carve.LeavesAlone;
    hide Carve.Ascending, LowestRoom;
    ghost var left := Left(mb.InUse(), reserved);
    ReserveAll(mb, reserved);
    ghost var R := mb.InUse();
    SeparatedSorted(R);
    Powers();
    mapBase := mb.AllocRange(mapSize, PAGE_SIZE, MEMORY_START, MEMORY_LIMIT);
    MapPlaced(R, left, mapSize, mapBase);
    if mapBase == 0 { return null, 0; }
    ghost var S := mb.InUse();
    RemovedFacts(R, S, (mapBase, mapSize));
    var a0 := new PageAllocator(memory);
    ghost var m0, D0 := a0.State(), a0.owner;
    PageMapFreeBootmem(a0, mb);
    ValidWhen(m0, D0, a0.State(), a0.owner);
    alloc := a0;
    forall x: nat, a: nat | x < |alloc.owner| && !alloc.owner[x].Unmanaged? && OnPage(x, a)
      ensures Covers(S, a)
    {
      LowPageCovered(S, |alloc.owner|, x, a);
    }
  }

  lemma ValidWhen(m: Mem, D: seq<Owner>, m': Mem, D': seq<Owner>)
    requires Describes(m', D') && Carve.LeavesAlone(m, m', D') && |D| == |D'|
    requires forall x :: 0 <= x < |D| ==> D[x].Unmanaged?
    ensures Represents(m', D') <==> NoStaleFlag(m.pages, D')
  {
    Carve.StaysClean(m, D, m', D');
    hide Represents, Describes;
  }

  lemma LowPageCovered(R: seq<Region>, n: nat, x: nat, a: nat)
    requires PageAligned(R) && InLowRegion(R, n, x) && OnPage(x, a)
    ensures Covers(R, a)
  {
    var i: nat :| i < |R| && R[i].End() <= n * PAGE_SIZE && Contains(R[i], x * PAGE_SIZE);
    EndsOnPage(R, i);
    hide PageAligned, InLowRegion;
    PageFits(x, R[i].End());
    IsCover(R, i, a);
  }

  lemma EndsOnPage(R: seq<Region>, i: nat)
    requires PageAligned(R) && i < |R|
    ensures R[i].End() % PAGE_SIZE == 0
  {
  }

  lemma PageFits(x: nat, end: nat)
    requires x * PAGE_SIZE < end && end % PAGE_SIZE == 0
    ensures (x + 1) * PAGE_SIZE <= end
  {
  }

  /** Byte a of page x is part of the block that the next allocation of `order` hands out after
      the run `ops`. */
  ghost predicate HandsOutByte(s: Runs.Sys, ops: seq<Runs.Op>, order: nat, x: nat, a: nat) {
    && Runs.Inv(s) && Runs.AllAllowed(s, ops)
    && Allocating.WellListed(Runs.Run(s, ops).m)
    && var r := Allocating.AllocPages(Runs.Run(s, ops).m, order).1;
       r.Some? && InBlock(r.value, order, x) && OnPage(x, a)
  }

  /** If the bytes of all managed pages are good bytes, then after every run of allocations and
      safe frees every byte of every page handed out is a good byte, and the page was free. */
  lemma RunsHandOutGoodBytes(s: Runs.Sys, ops: seq<Runs.Op>, order: nat, good: iset<nat>, x: nat, a: nat)
    requires HandsOutByte(s, ops, order, x, a)
    requires forall y: nat, b: nat :: y < |s.D| && !s.D[y].Unmanaged? && OnPage(y, b) ==> b in good
    ensures a in good
    ensures x < |Runs.Run(s, ops).D| && Runs.Run(s, ops).D[x].Free?
  {
    var t := Runs.Run(s, ops);
    Runs.RunConserves(s, ops);
    Allocating.AllocSound(t.m, t.D, order);
  }

  // --- the firmware's memory map --------------------------------------------------------------

  /** `struct e820_entry`: two 64-bit fields, of which the source reads the low 32 bits. */
  datatype Entry = Entry(addr: nat, size: nat, available: bool) {
    function Addr32(): (r: nat)
      ensures r < B32
    {
      addr % B32
    }

    function Size32(): (r: nat)
      ensures r < B32
    {
      size % B32
    }

    function End32(): (r: nat)
      ensures r < B32
    {
      (Addr32() + Size32()) % B32
    }

    /** The firmware reports byte a as usable. */
    predicate Reports(a: nat) {
      available && addr <= a < addr + size
    }
  }

  /** The entry is handed to `memblock_add`. */
  predicate Wanted(e: Entry) {
    e.available && e.End32() > MEMORY_START && e.Addr32() < MEMORY_LIMIT
  }

  /** What of it is handed over: nothing below the start. */
  function Offer(e: Entry): (nat, nat)
    requires Wanted(e)
  {
    var base := if e.Addr32() > MEMORY_START then e.Addr32() else MEMORY_START;
    (base, (e.End32() - base) % B32)
  }

  predicate Offered(range: (nat, nat), a: nat) {
    range.0 <= a < range.0 + range.1
  }

  function Offers(entries: seq<Entry>): seq<(nat, nat)> {
    if entries == [] then []
    else
      var last := entries[|entries| - 1];
      Offers(entries[..|entries| - 1]) + if Wanted(last) then [Offer(last)] else []
  }

  /** The cut to 32 bits: where the bytes of an offer end. */
  lemma OfferEnds(e: Entry)
    requires Wanted(e)
    ensures Offer(e).0 + Offer(e).1 == e.Addr32() + e.Size32()
    ensures Offer(e).0 >= e.Addr32() && Offer(e).0 < MEMORY_LIMIT && (Offer(e).1 == 0 <==> e.Size32() == 0)
  {
    var lo, sz := e.Addr32(), e.Size32();
    if lo + sz < B32 {
      assert e.End32() == lo + sz;
    } else {
      assert e.End32() == lo + sz - B32;
    }
  }

  /** The exact condition: every byte handed over is one that the entry reports, if and only if the
      entry lies below 4 GiB or its size is cut to nothing. */
  lemma OfferIsReportedExactlyWhen(e: Entry)
    requires Wanted(e)
    ensures (forall a: nat :: Offered(Offer(e), a) ==> e.Reports(a)) <==> e.addr < B32 || e.Size32() == 0
  {
    OfferEnds(e);
    DivRem(e.size, B32);
    if e.addr < B32 {
      assert e.Addr32() == e.addr;
    } else if e.Size32() > 0 {
      assert Offered(Offer(e), Offer(e).0) && !e.Reports(Offer(e).0);
    }
  }

  /** The other way round: the entry's usable bytes from 64 KiB to 1 MiB are all handed over if and only
      if the cut of the size leaves enough of them, and the sum does not wrap around to the start or
      below. */
  lemma LowBytesAreOfferedExactlyWhen(e: Entry)
    requires e.available && 0 < e.size && e.addr < MEMORY_LIMIT && e.addr + e.size > MEMORY_START
    ensures (forall a: nat :: MEMORY_START <= a < MEMORY_LIMIT && e.Reports(a) ==> Wanted(e) && Offered(Offer(e), a))
      <==> e.End32() > MEMORY_START && (e.addr + e.Size32() >= MEMORY_LIMIT || e.size < B32)
  {
    LowEntry(e);
    hide Entry.Addr32, Entry.End32, Entry.Size32, Offer;
    var first := if e.addr > MEMORY_START then e.addr else MEMORY_START;
    assert e.Reports(first);
    if Wanted(e) {
      OfferEnds(e);
      LowOffer(e);
      if e.size >= B32 { assert e.Reports(MEMORY_LIMIT - 1); }
    }
  }

  lemma LowEntry(e: Entry)
    requires e.addr < MEMORY_LIMIT
    ensures e.Addr32() == e.addr && (e.size < B32 ==> e.Size32() == e.size)
  {
  }

  lemma LowOffer(e: Entry)
    requires Wanted(e)
    ensures Offer(e).0 == if e.Addr32() > MEMORY_START then e.Addr32() else MEMORY_START
  {
  }

  /** An entry that ends below 4 GiB hands over every usable byte from 64 KiB to 1 MiB. */
  lemma LowBytesAreOffered(entries: seq<Entry>, j: nat, a: nat)
    requires j < |entries| && entries[j].addr + entries[j].size < B32
    requires MEMORY_START <= a < MEMORY_LIMIT && entries[j].Reports(a)
    ensures Within(Offers(entries), a)
  {
    var e := entries[j];
    assert e.End32() == e.addr + e.size;
    LowBytesAreOfferedExactlyWhen(e);
    var k := OfferIn(entries, j);
    OfferedIsWithin(Offer(e), a);
  }

  lemma OfferedIsWithin(range: (nat, nat), a: nat)
    requires Offered(range, a)
    ensures WithinOne(range, a)
  {
  }

  /** Where the offer of entry j stands. */
  lemma {:induction false} OfferIn(entries: seq<Entry>, j: nat) returns (k: nat)
    requires j < |entries| && Wanted(entries[j])
    ensures k < |Offers(entries)| && Offers(entries)[k] == Offer(entries[j])
  {
    hide Wanted, Offer;
    var n: nat := |entries| - 1;
    if j < n { k := OfferIn(entries[..n], j); } else { k := |Offers(entries[..n])|; }
  }

  /** A page at 4 GiB and 128 KiB: the page at 128 KiB is handed over, which nobody reports. */
  lemma HighPageIsOfferedLow()
    ensures var e := Entry(0x1_0002_0000, 0x1000, true);
      && Offers([e]) == [(0x2_0000, 0x1000)]
      && forall a: nat :: Offered((0x2_0000, 0x1000), a) ==> !e.Reports(a)
  {
    var e := Entry(0x1_0002_0000, 0x1000, true);
    assert e.Addr32() == 0x2_0000 && e.Size32() == 0x1000 && e.End32() == 0x2_1000;
    assert [e][..0] == [] && Offers([]) == [];
  }

  /** After the rounding to pages: every byte is reported if and only if the entry lies below 4 GiB
      and both its ends are page boundaries, as far as they are its own. */
  lemma PagesAreReportedExactlyWhen(e: Entry)
    requires Wanted(e) && Proper(Offer(e))
    ensures (forall a: nat :: WithinOne(Offer(e), a) ==> e.Reports(a)) <==> Exact(e)
  {
    OfferEnds(e);
    ProperFacts(Offer(e));
    var r := Offer(e);
    var B, E := RoundDown(r.0), RoundUp(r.0 + r.1);
    assert WithinOne(r, B) && WithinOne(r, E - 1);
    if e.addr < B32 {
      assert e.Addr32() == e.addr;
      StartOfOffer(e, B);
      EndOfOffer(e, E);
    }
  }

  predicate Exact(e: Entry) {
    && e.addr < B32
    && (e.addr <= MEMORY_START || e.addr % PAGE_SIZE == 0)
    && (e.size >= B32 || (e.addr + e.size) % PAGE_SIZE == 0)
  }

  lemma StartOfOffer(e: Entry, B: nat)
    requires Wanted(e) && e.addr == e.Addr32() && B == RoundDown(Offer(e).0)
    ensures e.addr <= B <==> e.addr <= MEMORY_START || e.addr % PAGE_SIZE == 0
  {
  }

  lemma EndOfOffer(e: Entry, E: nat)
    requires Wanted(e) && e.addr == e.Addr32() && E == RoundUp(e.addr + e.Size32()) && E < B32
    ensures E <= e.addr + e.size <==> e.size >= B32 || (e.addr + e.size) % PAGE_SIZE == 0
  {
    if e.size < B32 { assert e.Size32() == e.size; }
  }

  /** A page handed over holds a byte that was offered before the rounding. */
  lemma PageHasOffered(range: (nat, nat), a: nat) returns (b: nat)
    requires Proper(range) && WithinOne(range, a)
    ensures Offered(range, b) && b / PAGE_SIZE == a / PAGE_SIZE
  {
    b := if a < range.0 then range.0 else if a < range.0 + range.1 then a else range.0 + range.1 - 1;
  }

  /** Some entry reports byte a. */
  ghost predicate Usable(entries: seq<Entry>, a: nat) {
    exists j :: 0 <= j < |entries| && entries[j].Reports(a)
  }

  /** The page of byte a holds a usable byte. */
  ghost predicate OnUsablePage(entries: seq<Entry>, a: nat) {
    exists b: nat :: b / PAGE_SIZE == a / PAGE_SIZE && Usable(entries, b)
  }

  /** No entry from 4 GiB on is taken for low memory. */
  predicate NoneAliased(entries: seq<Entry>) {
    forall j :: 0 <= j < |entries| && Wanted(entries[j]) ==> entries[j].addr < B32 || entries[j].Size32() == 0
  }

  predicate AllExact(entries: seq<Entry>) {
    forall j :: 0 <= j < |entries| && Wanted(entries[j]) ==> Exact(entries[j])
  }

  lemma {:induction false} OfferOf(entries: seq<Entry>, k: nat) returns (j: nat)
    requires k < |Offers(entries)|
    ensures j < |entries| && Wanted(entries[j]) && Offers(entries)[k] == Offer(entries[j])
  {
    var n: nat := |entries| - 1;
    if k < |Offers(entries[..n])| { j := OfferOf(entries[..n], k); } else { j := n; }
  }

  /** What the pages handed over have to do with the memory that the firmware reports. */
  lemma PagesOffered(entries: seq<Entry>, a: nat)
    requires Within(Offers(entries), a) && forall k :: 0 <= k < |Offers(entries)| ==> Proper(Offers(entries)[k])
    ensures NoneAliased(entries) ==> OnUsablePage(entries, a)
    ensures AllExact(entries) ==> Usable(entries, a)
  {
    hide WithinOne, Proper, Offer, Wanted, Exact, Entry.Reports, Offered;
    var k: nat :| k < |Offers(entries)| && WithinOne(Offers(entries)[k], a);
    var j := OfferOf(entries, k);
    var b := PageHasOffered(Offer(entries[j]), a);
    OfferIsReportedExactlyWhen(entries[j]);
    PagesAreReportedExactlyWhen(entries[j]);
    assert entries[j].Reports(b) ==> Usable(entries, b);
    assert entries[j].Reports(a) ==> Usable(entries, a);
  }

  // --- adding one range after the other ------------------------------------------------------

  /** No byte of the ranges lies within the page-rounded range or next to it. */
  ghost predicate Away(ranges: seq<(nat, nat)>, range: (nat, nat)) {
    forall a: nat :: Within(ranges, a) ==> a + 1 < RoundDown(range.0) || RoundUp(range.0 + range.1) < a
  }

  /** The ranges hold the page-rounded range and the byte below it. */
  ghost predicate Nested(ranges: seq<(nat, nat)>, range: (nat, nat)) {
    && RoundDown(range.0) > 0
    && forall a: nat :: RoundDown(range.0) <= a + 1 && a < RoundUp(range.0 + range.1) ==> Within(ranges, a)
  }

  ghost predicate Addable(ranges: seq<(nat, nat)>, range: (nat, nat)) {
    Away(ranges, range) || Nested(ranges, range)
  }

  ghost predicate AllProper(ranges: seq<(nat, nat)>) {
    forall j :: 0 <= j < |ranges| ==> Proper(ranges[j])
  }

  /** Every range can be added to those before it. */
  ghost predicate Chained(ranges: seq<(nat, nat)>) {
    AllProper(ranges) && forall j :: 0 <= j < |ranges| ==> Addable(ranges[..j], ranges[j])
  }

  /** The array holds exactly the ranges, rounded to pages, in separated regions. */
  ghost predicate Holds(R: seq<Region>, ranges: seq<(nat, nat)>) {
    if ranges == [] then R == [Region(0, 0)]
    else
      && 0 < |R| <= |ranges| && Separated(R) && Nonempty(R) && PageAligned(R)
      && forall a: nat :: Covers(R, a) <==> Within(ranges, a)
  }

  lemma HoldsFacts(R: seq<Region>, ranges: seq<(nat, nat)>)
    requires Holds(R, ranges) && AllProper(ranges)
    ensures Separated(R) && PageAligned(R) && Low(R)
    ensures 0 < |R| && (if ranges == [] then |R| == 1 && R[0].size == 0 else |R| <= |ranges| && R[0].size > 0)
    ensures forall a: nat :: Covers(R, a) <==> Within(ranges, a)
  {
    hide Covers, Within, Separated, PageAligned, AllProper;
    if ranges == [] {
      NoRange(ranges);
      NothingHeld(R);
    } else {
      hide Nonempty;
      NonemptyFirst(R);
      forall i | 0 <= i < |R|
        ensures R[i].End() < B32
      {
        EndIsLow(R, ranges, i);
      }
    }
  }

  lemma NonemptyFirst(R: seq<Region>)
    requires Nonempty(R) && 0 < |R|
    ensures R[0].size > 0
  {
  }

  lemma NothingHeld(R: seq<Region>)
    requires R == [Region(0, 0)]
    ensures Separated(R) && PageAligned(R) && Low(R) && !Nonempty(R) && forall a: nat :: !Covers(R, a)
  {
    assert R[0].size == 0;
  }

  lemma EndIsLow(R: seq<Region>, ranges: seq<(nat, nat)>, i: nat)
    requires ranges != [] && Holds(R, ranges) && AllProper(ranges) && i < |R|
    ensures R[i].End() < B32
  {
    hide Separated, Proper, RoundUp, RoundDown;
    var a := R[i].End() - 1;
    assert Contains(R[i], a) && Covers(R, a);
    var j :| 0 <= j < |ranges| && WithinOne(ranges[j], a);
    ProperFacts(ranges[j]);
  }

  /** Bytes and regions say the same about a clear range. */
  lemma ClearIsAway(R: seq<Region>, ranges: seq<(nat, nat)>, range: (nat, nat))
    requires ranges != [] && Holds(R, ranges) && Proper(range)
    ensures Clear(R, RoundDown(range.0), RoundUp(range.0 + range.1)) <==> Away(ranges, range)
  {
    var B, E := RoundDown(range.0), RoundUp(range.0 + range.1);
    ProperFacts(range);
    hide Within, Proper, RoundDown, RoundUp, Separated, PageAligned;
    if Away(ranges, range) {
      forall j: nat | j < |R|
        ensures R[j].End() < B || E < R[j].base
      {
        HeldByte(R, ranges, j, B);
      }
    }
    if Clear(R, B, E) {
      forall a: nat | Within(ranges, a)
        ensures a + 1 < B || E < a
      {
        assert Covers(R, a);
        var j := FindCover(R, a);
      }
    }
  }

  lemma HeldBytes(R: seq<Region>, ranges: seq<(nat, nat)>, j: nat)
    requires ranges != [] && Holds(R, ranges) && j < |R|
    ensures R[j].base < R[j].End()
    ensures forall a: nat :: R[j].base <= a < R[j].End() ==> Within(ranges, a)
  {
    hide Within, Separated, PageAligned;
    forall a: nat | R[j].base <= a < R[j].End()
      ensures Within(ranges, a)
    {
      IsCover(R, j, a);
    }
  }

  lemma HeldByte(R: seq<Region>, ranges: seq<(nat, nat)>, j: nat, b: nat)
    requires ranges != [] && Holds(R, ranges) && j < |R|
    ensures R[j].size > 0 && Within(ranges, R[j].base) && Within(ranges, R[j].End() - 1)
    ensures R[j].base <= b < R[j].End() ==> Within(ranges, b)
  {
    HeldBytes(R, ranges, j);
  }

  /** And about a range inside a region. */
  lemma InsideIsNested(R: seq<Region>, ranges: seq<(nat, nat)>, range: (nat, nat))
    requires ranges != [] && Holds(R, ranges) && Proper(range)
    ensures Inside(R, RoundDown(range.0), RoundUp(range.0 + range.1)) <==> Nested(ranges, range)
  {
    var B, E := RoundDown(range.0), RoundUp(range.0 + range.1);
    ProperFacts(range);
    hide Within, Proper, RoundDown, RoundUp, PageAligned;
    if Inside(R, B, E) {
      var j: nat :| j < |R| && R[j].base < B && E <= R[j].End();
      HeldBytes(R, ranges, j);
    }
    if Nested(ranges, range) {
      var j := FindCover(R, B - 1);
      if R[j].End() < E {
        var k := FindCover(R, R[j].End());
        NoNeighbour(R, j, k);
      }
    }
  }

  /** The byte behind a separated region is in no region. */
  lemma NoNeighbour(R: seq<Region>, j: nat, k: nat)
    requires Separated(R) && j < |R| && k < |R| && R[j].size > 0
    ensures !Contains(R[k], R[j].End())
  {
  }

  /** The first region. */
  lemma HoldsFirst(R: seq<Region>, range: (nat, nat))
    requires Proper(range)
    requires R == [Region(RoundDown(range.0), RoundUp(range.0 + range.1) - RoundDown(range.0))]
    ensures Holds(R, [range])
  {
    ProperFacts(range);
    forall a: nat
      ensures Covers(R, a) <==> Contains(R[0], a)
      ensures Within([range], a) <==> WithinOne(range, a)
    {
      assert [range][0] == range;
    }
  }

  /** `memblock_add` of one more range: the array holds exactly all the ranges, in separated regions,
      if and only if the new one is away from the earlier ones or nested in them. */
  method AddRange(mb: MemblockType, ghost ranges: seq<(nat, nat)>, base: nat, size: nat)
    requires mb.Valid() && Holds(mb.InUse(), ranges) && AllProper(ranges) && Proper((base, size))
    requires (if Addable(ranges, (base, size)) then |ranges| + 1 else 2 * |ranges| + 1) < mb.regions.Length
    modifies mb, mb.regions
    ensures mb.Valid() && (Holds(mb.InUse(), ranges + [(base, size)]) <==> Addable(ranges, (base, size)))
  {
    hide Holds, AllProper, AddPieces, Fuse, Sorted, Reaches, Abuts, Covers, Clear, Inside, Low;
    hide Separated, Nonempty, PageAligned, RoundUp, RoundDown, Addable, Proper;
    ghost var R, range := mb.InUse(), (base, size);
    BeforeAdd(R, ranges, range);
    mb.AddRegion(base, size);
    AfterAdd(R, ranges, range, mb.InUse());
  }

  /** What `AddRegion` asks for. */
  lemma BeforeAdd(R: seq<Region>, ranges: seq<(nat, nat)>, range: (nat, nat))
    requires Holds(R, ranges) && AllProper(ranges) && Proper(range)
    ensures var B, E := RoundDown(range.0), RoundUp(range.0 + range.1);
      && Low(R) && B < E < B32 && range.0 + range.1 <= B32 && 0 < |R|
      && (ranges == [] ==> R == [Region(0, 0)])
      && (ranges != [] ==>
           && R[0].size > 0 && Separated(R) && Nonempty(R) && PageAligned(R)
           && (Clear(R, B, E) <==> Away(ranges, range)) && (Inside(R, B, E) <==> Nested(ranges, range))
           && |AddPieces(R, B, E).0| <= if Addable(ranges, range) then |ranges| + 1 else 2 * |ranges| + 1)
  {
    hide Covers, Within, Clear, Inside, Low, PageAligned, Proper, RoundUp, RoundDown, Separated, AllProper, AddPieces;
    HoldsFacts(R, ranges);
    ProperFacts(range);
    var B, E := RoundDown(range.0), RoundUp(range.0 + range.1);
    if ranges != [] {
      ClearIsAway(R, ranges, range);
      InsideIsNested(R, ranges, range);
      hide Nonempty, Away, Nested;
      PieceCount(R, B, E);
    }
  }

  lemma AfterAdd(R: seq<Region>, ranges: seq<(nat, nat)>, range: (nat, nat), R': seq<Region>)
    requires Holds(R, ranges) && Proper(range) && (ranges == [] || R != [])
    requires var B, E := RoundDown(range.0), RoundUp(range.0 + range.1);
      if ranges == [] then R' == [Region(B, (E - B) % B32)]
      else
        && (Separated(R') && Nonempty(R') <==> Clear(R, B, E) || Inside(R, B, E))
        && (Separated(R') && Nonempty(R') ==>
             && |R'| == (if Clear(R, B, E) then |R| + 1 else |R|) && PageAligned(R')
             && forall a: nat :: Covers(R', a) <==> Covers(R, a) || B <= a < E)
    ensures Holds(R', ranges + [range]) <==> Addable(ranges, range)
  {
    hide Covers, Within, PageAligned, Proper, RoundUp, RoundDown, Separated, Nonempty, Clear, Inside;
    ProperFacts(range);
    OneMoreRange(ranges, range);
    if ranges == [] {
      NoRange(ranges);
      HoldsFirst(R', range);
      assert ranges + [range] == [range];
    } else {
      ClearIsAway(R, ranges, range);
      InsideIsNested(R, ranges, range);
      hide Away, Nested;
    }
  }

  lemma OffersStep(entries: seq<Entry>, i: nat)
    requires i < |entries|
    ensures Offers(entries[..i + 1]) == Offers(entries[..i]) + if Wanted(entries[i]) then [Offer(entries[i])] else []
  {
    assert entries[..i + 1][..i] == entries[..i];
  }

  lemma {:induction false} OffersGrow(entries: seq<Entry>, i: nat)
    requires i <= |entries|
    ensures Offers(entries[..i]) <= Offers(entries)
    decreases |entries| - i
  {
    if i < |entries| {
      OffersStep(entries, i);
      OffersGrow(entries, i + 1);
    } else {
      assert entries[..i] == entries;
    }
  }

  lemma NextInChain(ranges: seq<(nat, nat)>, now: seq<(nat, nat)>, range: (nat, nat))
    requires Chained(ranges) && now + [range] <= ranges
    ensures AllProper(now) && Proper(range) && Addable(now, range)
  {
    hide Proper, Addable;
    assert now == ranges[..|now|] && ranges[|now|] == range;
    assert forall j :: 0 <= j < |now| ==> now[j] == ranges[j];
  }

  /** `e820_memblock_setup`, as far as it fills the boot memory: if every range on offer can be added
      to those before it, the array, empty at first, ends up with exactly their pages. */
  method MemblockSetup(mb: MemblockType, entries: seq<Entry>)
    requires mb.Valid() && mb.InUse() == [Region(0, 0)]
    requires Chained(Offers(entries)) && |Offers(entries)| < mb.regions.Length
    modifies mb, mb.regions
    ensures mb.Valid() && Holds(mb.InUse(), Offers(entries))
  {
    hide Holds, Chained, Addable, AllProper, Proper;
    HoldsNone(mb.InUse());
    for i := 0 to |entries|
      invariant mb.Valid() && Holds(mb.InUse(), Offers(entries[..i]))
    {
      OffersStep(entries, i);
      OffersGrow(entries, i + 1);
      var entry := entries[i];
      assert !Wanted(entry) ==> Offers(entries[..i + 1]) == Offers(entries[..i]);
      if !entry.available { continue; }
      if entry.End32() <= MEMORY_START { continue; }
      var base := if entry.Addr32() > MEMORY_START then entry.Addr32() else MEMORY_START;
      var size := (entry.End32() - base) % B32;
      if entry.Addr32() < MEMORY_LIMIT {
        assert Offer(entry) == (base, size);
        NextInChain(Offers(entries), Offers(entries[..i]), (base, size));
        AddRange(mb, Offers(entries[..i]), base, size);
      }
    }
    assert entries[..|entries|] == entries;
  }

  lemma HoldsNone(R: seq<Region>)
    requires R == [Region(0, 0)]
    ensures Holds(R, [])
  {
  }

  /** A machine with 640 KiB less the extended BIOS data area, 1 GiB from 1 MiB on, and 1 GiB from
      4 GiB on. */
  const COMMON_MAP: seq<Entry> := [
    Entry(0, 0x9_FC00, true), Entry(0x10_0000, 0x3FF0_0000, true), Entry(0x1_0000_0000, 0x4000_0000, true)]

  /** The memory at 4 GiB is taken for the lowest gigabyte. */
  lemma CommonMapOffers()
    ensures Offers(COMMON_MAP) == [(0x1_0000, 0x8_FC00), (0x1_0000, 0x3FFF_0000)]
    ensures !NoneAliased(COMMON_MAP)
  {
    var e := COMMON_MAP;
    assert e[0].End32() == 0x9_FC00 && e[1].Addr32() == 0x10_0000;
    assert e[2].Addr32() == 0 && e[2].Size32() == 0x4000_0000 && e[2].End32() == 0x4000_0000;
    assert e[..3] == e && e[..0] == [];
    OffersStep(e, 0);
    OffersStep(e, 1);
    OffersStep(e, 2);
  }

  /** What becomes of the array: an empty region, and one that reaches to 1 GiB twice. */
  method CommonMapGoesWrong(mb: MemblockType)
    requires mb.Valid() && mb.InUse() == [Region(0, 0)] && mb.regions.Length > 3
    modifies mb, mb.regions
    ensures mb.Valid() && mb.InUse() ==
      [Region(0x1_0000, 0), Region(0x1_0000, 0x3FFF_0000), Region(0x1_0000, 0x3FFF_0000)]
  {
    CommonBounds();
    hide AddPieces, Fuse, Separated, Nonempty, Reaches, Abuts, Covers, Sorted, Clear, Inside, RoundUp, RoundDown;
    AddLow(mb);
    ghost var A := mb.regions[..];
    LongerRangeTwice(A[3..]);
    assert A[0] == mb.InUse()[0] && mb.cnt == 1;
    mb.AddRegion(0x1_0000, 0x3FFF_0000);
    assert mb.InUse() == mb.regions[..][..3];
  }

  method AddLow(mb: MemblockType)
    requires mb.Valid() && mb.InUse() == [Region(0, 0)]
    modifies mb, mb.regions
    ensures mb.Valid() && mb.InUse() == [Region(0x1_0000, 0x9_0000)]
  {
    CommonBounds();
    hide AddPieces, Fuse, Separated, Nonempty, Reaches, Abuts, Covers, Sorted, Clear, Inside, RoundUp, RoundDown;
    assert mb.regions[0] == mb.InUse()[0];
    mb.AddRegion(0x1_0000, 0x8_FC00);
  }

  lemma CommonBounds()
    ensures RoundDown(0x1_0000) == 0x1_0000 && RoundUp(0x9_FC00) == 0xA_0000 && RoundUp(0x4000_0000) == 0x4000_0000
  {
  }

  /** The bytes handed over, rounded to pages, that no reservation takes. */
  ghost function Unreserved(entries: seq<Entry>, reserved: seq<(nat, nat)>): iset<nat> {
    iset a: nat | Within(Offers(entries), a) && !Within(reserved, a)
  }

  /** The whole of boot, from an empty array of regions: the page map goes to the lowest room for it,
      or boot gives up, exactly when there is none or when the byte behind it is not left; the pages
      of what is left in the map, and no others, become free.  And whatever run of allocations and safe frees
      follows, each byte of each page that is handed out lies in a page of memory on offer,
      outside every page of a reservation and outside the pages of the page map.  If no entry from
      4 GiB on is taken for low memory, it shares its page with a byte that the firmware reports;
      if the entries also end at page boundaries, the firmware reports the byte itself. */
  method BootUp(mb: MemblockType, entries: seq<Entry>, reserved: seq<(nat, nat)>, mapSize: nat, memory: array<Page>)
      returns (alloc: PageAllocator?, mapBase: nat)
    requires mb.Valid() && mb.InUse() == [Region(0, 0)]
    requires Chained(Offers(entries)) && |Offers(entries)| + |reserved| < mb.regions.Length
    requires 1 + |reserved| < mb.regions.Length
    requires forall j :: 0 <= j < |reserved| ==> Proper(reserved[j])
    requires mapSize > 0 && Aligned(memory.Length, TOP)
    modifies mb, mb.regions, memory
    ensures var left := Unreserved(entries, reserved);
      && (alloc == null <==> forall a: nat :: LowestRoom(left, mapSize, a) ==> RoundUp(a + mapSize) !in left)
      && (alloc != null ==> LowestRoom(left, mapSize, mapBase))
    ensures mb.Valid()
    ensures alloc != null ==> alloc.Sketched() && Canonical(alloc.owner) && Carve.Ascending(alloc.State())
    ensures alloc != null ==> |alloc.owner| == memory.Length && Separated(mb.InUse()) && PageAligned(mb.InUse())
    ensures alloc != null ==> forall a: nat :: Covers(mb.InUse(), a) <==>
      a in Unreserved(entries, reserved) && !WithinOne((mapBase, mapSize), a)
    ensures alloc != null ==> forall x :: 0 <= x < |alloc.owner| ==>
      if InLowRegion(mb.InUse(), |alloc.owner|, x) then alloc.owner[x].Free? else alloc.owner[x].Unmanaged?
    ensures alloc != null ==> (alloc.Valid() <==> NoStaleFlag(old(memory[..]), alloc.owner))
    ensures alloc != null ==> forall ops: seq<Runs.Op>, order: nat, x: nat, a: nat ::
      HandsOutByte(Runs.Sys(alloc.State(), alloc.owner), ops, order, x, a) ==>
        && Within(Offers(entries), a) && !Within(reserved, a) && !WithinOne((mapBase, mapSize), a)
        && (NoneAliased(entries) ==> OnUsablePage(entries, a))
        && (AllExact(entries) ==> Usable(entries, a))
  {
    hide Holds, Within, WithinOne, HandsOutByte, Separated, PageAligned, Low, Covers, Proper, Addable;
    hide NoneAliased, AllExact, OnUsablePage, Usable, NoStaleFlag, InLowRegion, LowestRoom, Carve.Ascending;
    MemblockSetup(mb, entries);
    HoldsFacts(mb.InUse(), Offers(entries));
    assert Left(mb.InUse(), reserved) == Unreserved(entries, reserved);
    alloc, mapBase := Start(mb, reserved, mapSize, memory);
    if alloc == null { return; }
    MapLength(alloc);
    ghost var s := Runs.Sys(alloc.State(), alloc.owner);
    ghost var good := iset a: nat |
      Within(Offers(entries), a) && !Within(reserved, a) && !WithinOne((mapBase, mapSize), a);
    forall ops: seq<Runs.Op>, order: nat, x: nat, a: nat | HandsOutByte(s, ops, order, x, a)
      ensures a in good && (NoneAliased(entries) ==> OnUsablePage(entries, a))
      ensures AllExact(entries) ==> Usable(entries, a)
    {
      RunsHandOutGoodBytes(s, ops, order, good, x, a);
      PagesOffered(entries, a);
    }
  }
}
