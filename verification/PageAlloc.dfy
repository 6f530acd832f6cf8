/** The page allocator of src/mm/page_alloc.c in place: a page map and nine free areas that the
    methods update field by field and loop by loop. */
module PageAlloc {
  import opened Wrappers
  import opened Dyadic
  import opened PageMap
  import opened Partition
  import Freeing
  import Allocating
  import UnsafeFree
  import CanonicalForm
  import Carve
  import Runs

  /** Neither neighbour of pages [first, end) is free. */
  ghost predicate Apart(D: seq<Owner>, first: nat, end: nat) {
    (0 < first <= |D| ==> !D[first - 1].Free?) && (end < |D| ==> !D[end].Free?)
  }

  lemma DescribedLength(m: Mem, D: seq<Owner>)
    requires Describes(m, D)
    ensures |m.pages| == |D|
  {
  }

  class PageAllocator {
    const pageMap: array<Page>
    const freeArea: array<FreeArea>
    /** Who owns each page; the source keeps no such record. */
    ghost var owner: seq<Owner>

    ghost function State(): (m: Mem)
      reads pageMap, freeArea
    {
      Mem(pageMap[..], freeArea[..])
    }

    /** The lists and the pages that somebody manages hold the partition `owner`. */
    ghost predicate Sketched()
      reads this, pageMap, freeArea
    {
      Describes(State(), owner) && Partitioned(owner)
    }

    /** The page map and the lists hold the partition `owner`. */
    ghost predicate Consistent()
      reads this, pageMap, freeArea
    {
      Represents(State(), owner) && Partitioned(owner)
    }

    /** And no two free buddies wait to be merged. */
    ghost predicate Valid()
      reads this, pageMap, freeArea
    {
      Consistent() && Canonical(owner)
    }

    /** The allocator as a value, with the owners of its pages. */
    ghost function Sys(): Runs.Sys
      reads this, pageMap, freeArea
    {
      Runs.Sys(State(), owner)
    }

    /** `page_map_init`: the page map lies in boot memory that nobody has cleared.  The allocator
        starts out valid exactly when none of its pages happens to be flagged FREE; carving does
        not mind. */
    constructor (memory: array<Page>)
      requires Aligned(memory.Length, TOP)
      ensures pageMap == memory && fresh(freeArea)
      ensures owner == seq(memory.Length, x => Unmanaged)
      ensures Sketched() && Canonical(owner)
      ensures Valid() <==> forall x :: 0 <= x < memory.Length ==> !memory[x].free
    {
      pageMap := memory;
      freeArea := new FreeArea[PAGE_MAX_ORDER](i => FreeArea(0, []));
      owner := seq(memory.Length, x => Unmanaged);
      new;
      assert forall k :: 0 <= k < PAGE_MAX_ORDER ==> AreaAgrees(State(), owner, k);
      CleanDescription(State(), owner);
      assert Clean(State(), owner) <==> forall x :: 0 <= x < memory.Length ==> !memory[x].free;
    }

    method FreePageAppend(page: nat, order: nat)
      requires order < freeArea.Length
      modifies freeArea
      ensures State() == PageMap.FreePageAppend(old(State()), page, order)
      ensures freeArea[order].list == old(freeArea[order].list) + [page]
    {
      freeArea[order] := freeArea[order].(list := freeArea[order].list + [page]);
      freeArea[order] := freeArea[order].(nrFree := freeArea[order].nrFree + 1);
    }

    method CompoundPageInit(paddr: nat, order: nat)
      requires paddr % PAGE_SIZE == 0 && paddr / PAGE_SIZE + Pow2(order) <= pageMap.Length
      modifies pageMap
      ensures State() == Carve.CompoundPageInit(old(State()), paddr / PAGE_SIZE, order)
      ensures forall x :: 0 <= x < pageMap.Length ==>
        pageMap[x] == if InBlock(paddr / PAGE_SIZE, order, x) then Page(true, order, paddr / PAGE_SIZE) else old(pageMap[x])
    {
      var pfn, first := 0, paddr / PAGE_SIZE;
      while pfn < Pow2(order)
        invariant 0 <= pfn <= Pow2(order)
        invariant forall x :: 0 <= x < pageMap.Length ==>
          pageMap[x] == if first <= x < first + pfn then Page(true, order, first) else old(pageMap[x])
      {
        pageMap[(paddr + pfn * PAGE_SIZE) / PAGE_SIZE] := Page(true, order, paddr / PAGE_SIZE);
        pfn := pfn + 1;
      }
      assert pageMap[..] == Carve.CompoundPageInit(old(State()), first, order).pages;
    }

    /** The order of the next block: the largest that the rest and the alignment allow. */
    static method NextOrder(addr: nat, rest: nat, ghost p: nat, ghost n: nat) returns (order: nat)
      requires addr == p * PAGE_SIZE && rest == n * PAGE_SIZE && n > 0
      ensures Carve.Greedy(p, order, p + n)
    {
      var align := Carve.RoundDownPow2(rest);
      if align > Pow2(PAGE_MAX_ORDER - 1) * PAGE_SIZE {
        align := Pow2(PAGE_MAX_ORDER - 1) * PAGE_SIZE;
      }
      Carve.StartOrder(n, align);
      order := Carve.Log2(align) - PAGE_SHIFT;
      ghost var start := order;
      assert Aligned(p, 0);
      while addr % (PAGE_SIZE * Pow2(order)) != 0
        invariant order <= start
        invariant forall j: nat :: order < j <= start ==> !Aligned(p, j)
        decreases order
      {
        Carve.PageAligned(p, order);
        order := order - 1;
      }
      Carve.PageAligned(p, order);
      Pow2Monotone(order, start);
    }

    /** One block of unmanaged pages is initialised and listed. */
    method CarveBlock(addr: nat, order: nat, ghost p: nat)
      requires Sketched() && addr == p * PAGE_SIZE && Fits(owner, p, order)
      requires forall x :: p <= x < p + Pow2(order) ==> owner[x].Unmanaged?
      modifies this, pageMap, freeArea
      ensures Sketched() && owner == SetBlock(old(owner), p, order, Free(p, order))
      ensures Carve.LeavesAlone(old(State()), State(), owner)
      ensures old(Carve.Ascending(State())) && Carve.NoneFreeFrom(old(owner), p) ==> Carve.Ascending(State())
    {
      ghost var m, D := State(), owner;
      assert addr / PAGE_SIZE == p;
      CompoundPageInit(addr, order);
      FreePageAppend(addr / PAGE_SIZE, order);
      owner := SetBlock(D, p, order, Free(p, order));
      if Carve.Ascending(m) && Carve.NoneFreeFrom(D, p) { Carve.CarveAscends(m, D, p, order, State()); }
      Carve.CarveStep(m, D, p, order, State());
    }

    /** One turn of the loop of `__page_map_free_bootmem`: the next greedy block of pages
        [p, p + r), in a region that starts at page `first`. */
    method CarveNext(addr: nat, rest: nat, ghost first: nat, ghost p: nat, ghost r: nat) returns (order: nat)
      requires Sketched() && addr == p * PAGE_SIZE && rest == r * PAGE_SIZE && r > 0
      requires first <= p && p + r <= |owner| && Carve.GreedyFrom(owner, first, p, p + r)
      requires forall x :: p <= x < p + r ==> owner[x].Unmanaged?
      modifies this, pageMap, freeArea
      ensures Sketched() && Carve.Greedy(p, order, p + r)
      ensures owner == SetBlock(old(owner), p, order, Free(p, order))
      ensures Carve.LeavesAlone(old(State()), State(), owner)
      ensures Carve.GreedyFrom(owner, first, p + Pow2(order), p + r)
      ensures Canonical(old(owner)) && Apart(old(owner), first, p + r) ==> Canonical(owner)
      ensures old(Carve.Ascending(State())) && Carve.NoneFreeFrom(old(owner), p) ==> Carve.Ascending(State())
    {
      hide Canonical, Describes, Partitioned, Pow2, Aligned, Carve.LeavesAlone, Carve.Ascending, Carve.NoneFreeFrom;
      ghost var D := owner;
      order := NextOrder(addr, rest, p, r);
      if Canonical(D) && Apart(D, first, p + r) {
        Carve.CarveCanonical(D, first, p, order, p + r);
      }
      CarveBlock(addr, order, p);
      Carve.GreedyGrows(D, first, p, order, p + r);
    }

    /** `__page_map_free_bootmem` on the region of pages [first, first + n): they become free
        blocks, each the largest that fits at its address; next to no other free pages, none of
        them has a free buddy.  Pages that stay unmanaged stay as they are. */
    method PageMapFreeBootmem(base: nat, size: nat, ghost first: nat, ghost n: nat)
      requires Sketched() && base == first * PAGE_SIZE && size == n * PAGE_SIZE && first + n <= |owner|
      requires forall x :: first <= x < first + n ==> owner[x].Unmanaged?
      modifies this, pageMap, freeArea
      ensures Sketched() && |owner| == |old(owner)| && Carve.LeavesAlone(old(State()), State(), owner)
      ensures forall x :: 0 <= x < |owner| ==>
        if first <= x < first + n then owner[x].Free? else owner[x] == old(owner)[x]
      ensures old(Consistent()) ==> Consistent()
      ensures Carve.GreedyFrom(owner, first, first + n, first + n)
      ensures Canonical(old(owner)) && Apart(old(owner), first, first + n) ==> Canonical(owner)
      ensures old(Carve.Ascending(State())) && Carve.NoneFreeFrom(old(owner), first) ==> Carve.Ascending(State())
    {
      hide Canonical, Describes, Represents, Partitioned, Pow2, Aligned, Carve.Ascending;
      ghost var m0, D0 := State(), owner;
      DescribedLength(m0, D0);
      assert Carve.LeavesAlone(m0, m0, D0);
      hide Carve.LeavesAlone;
      var addr: nat, rest: nat := base, size;
      ghost var p, r := first, n;
      while rest != 0
        invariant addr == p * PAGE_SIZE && rest == r * PAGE_SIZE && p + r == first + n && first <= p
        invariant Sketched() && |owner| == |old(owner)| && Carve.LeavesAlone(m0, State(), owner)
        invariant forall x :: 0 <= x < |owner| ==>
          if first <= x < p then owner[x].Free? else owner[x] == old(owner)[x]
        invariant Carve.GreedyFrom(owner, first, p, first + n)
        invariant Canonical(old(owner)) && Apart(old(owner), first, first + n) ==> Canonical(owner)
        invariant old(Carve.Ascending(State())) && Carve.NoneFreeFrom(old(owner), first) ==> Carve.Ascending(State())
        decreases r
      {
        ghost var m, D := State(), owner;
        var order := CarveNext(addr, rest, first, p, r);
        Carve.LeavesMoreAlone(m0, m, D, State(), owner);
        rest := rest - Pow2(order) * PAGE_SIZE;
        addr := addr + Pow2(order) * PAGE_SIZE;
        p, r := p + Pow2(order), r - Pow2(order);
      }
      Carve.StaysClean(m0, D0, State(), owner);
    }

    method FreePageAdd(page: nat, order: nat)
      requires order < freeArea.Length
      modifies freeArea
      ensures State() == PageMap.FreePageAdd(old(State()), page, order)
      ensures freeArea[order].list == [page] + old(freeArea[order].list)
    {
      freeArea[order] := freeArea[order].(list := [page] + freeArea[order].list);
      freeArea[order] := freeArea[order].(nrFree := freeArea[order].nrFree + 1);
    }

    method FreePageDel(page: nat)
      requires page < pageMap.Length
      modifies freeArea
      ensures State() == PageMap.FreePageDel(old(State()), page)
    {
      var order := pageMap[page].order;
      if order < freeArea.Length {
        freeArea[order] := freeArea[order].(list := Without(freeArea[order].list, page));
        freeArea[order] := freeArea[order].(nrFree := Decrement(freeArea[order].nrFree));
      }
    }

    /** Page numbers at or past the end of the map are skipped; the source would write past it. */
    method PageSetCompoundHead(page: nat, order: nat)
      modifies pageMap
      ensures State() == SetCompoundHead(old(State()), page, order)
      ensures forall x :: 0 <= x < pageMap.Length ==>
        pageMap[x] == if InBlock(page, order, x) then old(pageMap[x]).(head := page) else old(pageMap[x])
    {
      var pfn := 0;
      while pfn < Pow2(order)
        invariant 0 <= pfn <= Pow2(order)
        invariant forall x :: 0 <= x < pageMap.Length ==>
          pageMap[x] == if page <= x < page + pfn then old(pageMap[x]).(head := page) else old(pageMap[x])
      {
        if page + pfn < pageMap.Length {
          pageMap[page + pfn] := pageMap[page + pfn].(head := page);
        }
        pfn := pfn + 1;
      }
      assert pageMap[..] == SetCompoundHead(old(State()), page, order).pages;
    }

    method FreePageFix(page: nat, order: nat)
      requires page < pageMap.Length && freeArea.Length == PAGE_MAX_ORDER
      requires pageMap[page].order < PAGE_MAX_ORDER
      modifies pageMap, freeArea
      ensures State() == PageMap.FreePageFix(old(State()), page, old(pageMap[page].order), order)
    {
      var porder: nat := pageMap[page].order;
      while porder > order
        invariant porder < PAGE_MAX_ORDER
        invariant PageMap.FreePageFix(State(), page, porder, order)
               == PageMap.FreePageFix(old(State()), page, old(pageMap[page].order), order)
      {
        porder := porder - 1;
        var buddy := PageBuddy(page, porder);
        if 0 <= buddy < pageMap.Length {
          pageMap[buddy] := pageMap[buddy].(order := porder);
          pageMap[buddy] := pageMap[buddy].(free := true);
          FreePageAdd(buddy, porder);
        }
      }
    }

    method GetFreePages(order: nat) returns (r: Option<nat>)
      requires freeArea.Length == PAGE_MAX_ORDER && Allocating.WellListed(State())
      modifies pageMap, freeArea
      ensures (State(), r) == Allocating.AllocPages(old(State()), order)
    {
      r := None;
      var porder := order;
      while porder < PAGE_MAX_ORDER
        invariant r == None && State() == old(State())
        invariant FirstOrder(State(), porder) == FirstOrder(old(State()), order)
      {
        if freeArea[porder].list != [] {
          var page := freeArea[porder].list[0];
          r := Some(page);
          FreePageDel(page);
          FreePageFix(page, order);
          pageMap[page] := pageMap[page].(free := false);
          pageMap[page] := pageMap[page].(order := order);
          break;
        }
        porder := porder + 1;
      }
      if r == None {
        return;
      }
      PageSetCompoundHead(r.value, order);
      var buddy := PageBuddy(r.value, order);
      if buddy >= 0 {
        PageSetCompoundHead(buddy, order);
      }
    }

    /** `alloc_pages`: a block of free pages, or NULL exactly when no aligned run is free. */
    method AllocPages(order: nat) returns (r: Option<nat>)
      requires Valid()
      modifies this, pageMap, freeArea
      ensures Valid() && |owner| == |old(owner)|
      ensures r == None <==> !exists p: nat :: Fits(old(owner), p, order) && CanonicalForm.AllFree(old(owner), p, order)
      ensures r == None ==> State() == old(State()) && owner == old(owner)
      ensures r.Some? ==> LiveHead(owner, r.value, order) && CanonicalForm.AllFree(old(owner), r.value, order)
      ensures r.Some? ==> forall x :: 0 <= x < |owner| ==>
        && (owner[x].Free? <==> old(owner)[x].Free? && !InBlock(r.value, order, x))
        && (!old(owner)[x].Free? ==> owner[x] == old(owner)[x])
      ensures r.Some? ==> exists k: nat ::
        && order <= k <= TOP && FreeHead(old(owner), r.value, k)
        && old(freeArea[..])[k].list != [] && r.value == old(freeArea[..])[k].list[0]
        && forall q: nat, j: nat :: order <= j < k ==> !FreeHead(old(owner), q, j)
      ensures Allocating.WellListed(old(State())) && r == Allocating.AllocPages(old(State()), order).1
      ensures Sys() == Runs.Step(old(Sys()), Runs.Alloc(order))
      ensures r.Some? && HeadsFound(old(State()), old(owner)) ==>
        (HeadsFound(State(), owner) <==>
         Aligned(r.value, order) && Allocating.BuddyRangeClear(old(State()), old(owner), r.value, order))
    {
      ghost var m, D := State(), owner;
      Allocating.RepresentedLength(m, D);
      hide Represents, Partitioned, Canonical, Allocating.Taken, Allocating.WellListed, FirstOrder, HeadsFound;
      Allocating.RepresentsWellListed(m, D);
      Allocating.AllocFailsExactlyWhen(m, D, order);
      r := GetFreePages(order);
      if r.Some? {
        Allocating.AllocSound(m, D, order);
        Allocating.AllocTakesSmallest(m, D, order);
        if HeadsFound(m, D) { Allocating.AllocKeepsHeadsExactlyWhen(m, D, order); }
        owner := Allocating.Taken(D, r.value, FirstOrder(m, order), order);
      }
    }

    method MergePages(page: nat, buddy: nat) returns (left: nat)
      requires page < pageMap.Length && buddy < pageMap.Length
      modifies pageMap, freeArea
      ensures (State(), left) == PageMap.MergePages(old(State()), page, buddy)
    {
      FreePageDel(page);
      FreePageDel(buddy);
      pageMap[page] := pageMap[page].(order := pageMap[page].order + 1);
      pageMap[buddy] := pageMap[buddy].(order := pageMap[buddy].order + 1);
      left := if page < buddy then page else buddy;
      PageSetCompoundHead(left, pageMap[left].order);
    }

    method MergeFreePage(first: nat)
      requires first < pageMap.Length && freeArea.Length == PAGE_MAX_ORDER
      modifies pageMap, freeArea
      ensures State() == PageMap.MergeFreePage(old(State()), first, old(pageMap[first].order))
    {
      hide PageMap.MergeFreePage, PageMap.MergePages, PageMap.FreePageAdd;
      var page: nat := first;
      var order := pageMap[page].order;
      while order < PAGE_MAX_ORDER - 1
        invariant page < pageMap.Length
        invariant PageMap.MergeFreePage(State(), page, order)
               == PageMap.MergeFreePage(old(State()), first, old(pageMap[first].order))
      {
        ghost var m := State();
        var buddy := PageBuddy(page, pageMap[page].order);
        if !(0 <= buddy < pageMap.Length && pageMap[buddy].free) {
          Freeing.LoopStops(m, page, order);
          return;
        }
        Freeing.TurnUnfolds(m, page, buddy, order);
        ghost var was := page;
        page := MergePages(page, buddy);
        if pageMap[page].order < freeArea.Length {
          FreePageAdd(page, pageMap[page].order);
        }
        assert (State(), page) == Freeing.Turned(m, was, buddy);
        order := order + 1;
      }
      Freeing.LoopStops(State(), page, order);
    }

    /** `free_page`: keeps the allocator valid, and lists only pages that were free or freed,
        exactly when the merge loop stops at a page that is not FREE. */
    method FreePage(page: nat)
      requires Valid() && page < |owner| && owner[page].Live? && owner[page].head == page
      modifies this, pageMap, freeArea
      ensures |pageMap[..]| == |owner| == |old(owner)| && freeArea.Length == PAGE_MAX_ORDER
      ensures var D, k := old(owner), old(owner)[page].order;
        && Aligned(page, k)
        && (UnsafeFree.ListsOnlyFree(State(), SetBlock(D, page, k, Free(page, k)))
            <==> Freeing.MergeStops(old(State()), page, k))
        && (Freeing.MergeStops(old(State()), page, k) ==>
             && Valid() && Sys() == Runs.Step(old(Sys()), Runs.Release(page))
             && (HeadsFound(old(State()), D) ==> HeadsFound(State(), owner))
             && forall x :: 0 <= x < |owner| ==>
                  && (owner[x].Free? <==> D[x].Free? || InBlock(page, k, x))
                  && (!owner[x].Free? ==> owner[x] == D[x]))
    {
      ghost var m, D, k := State(), owner, owner[page].order;
      UnsafeFree.FreeIsSafeExactlyWhen(m, D, page, k);
      FreePageAdd(page, pageMap[page].order);
      pageMap[page] := pageMap[page].(free := true);
      assert State() == Freeing.Returned(m, page);
      MergeFreePage(page);
      assert State() == FreePages(m, page);
      if Freeing.MergeStops(m, page, k) {
        Freeing.SafeFree(m, D, page, k);
        owner := Freeing.Freed(D, page, k);
      }
    }
  }
}
