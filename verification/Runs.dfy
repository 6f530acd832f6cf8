/** Whole runs of the page allocator: what every run keeps, that an allocation is undone by its
    free, and states in which the code as written loses pages. */
module Runs {
  import opened Wrappers
  import opened Dyadic
  import opened PageMap
  import opened Partition
  import opened CanonicalForm
  import opened Freeing
  import opened Allocating

  datatype Op = Alloc(order: nat) | Release(page: nat)

  /** The allocator and, beside it, who owns each page. */
  datatype Sys = Sys(m: Mem, D: seq<Owner>)

  ghost predicate Inv(s: Sys) {
    Represents(s.m, s.D) && Partitioned(s.D) && Canonical(s.D)
  }

  /** A caller may free the first page of a live block when the merge loop stops safely. */
  ghost predicate Allowed(s: Sys, op: Op)
    requires Inv(s)
  {
    match op
    case Alloc(_) => true
    case Release(p) =>
      p < |s.D| && s.D[p].Live? && s.D[p].head == p && Aligned(p, s.D[p].order)
      && MergeStops(s.m, p, s.D[p].order)
  }

  ghost function Step(s: Sys, op: Op): (t: Sys)
    requires Inv(s) && Allowed(s, op)
    ensures Inv(t)
  {
    match op
    case Alloc(order) =>
      RepresentsWellListed(s.m, s.D);
      var (m, r) := AllocPages(s.m, order);
      if r.Some? then
        AllocSound(s.m, s.D, order);
        Sys(m, Taken(s.D, r.value, FirstOrder(s.m, order), order))
      else s
    case Release(p) =>
      ReturnedFacts(s.m, s.D, p, s.D[p].order);
      SafeFree(s.m, s.D, p, s.D[p].order);
      Sys(FreePages(s.m, p), Freed(s.D, p, s.D[p].order))
  }

  ghost predicate AllAllowed(s: Sys, ops: seq<Op>)
    requires Inv(s)
    decreases |ops|
  {
    ops == [] || (Allowed(s, ops[0]) && AllAllowed(Step(s, ops[0]), ops[1..]))
  }

  ghost function Run(s: Sys, ops: seq<Op>): (t: Sys)
    requires Inv(s) && AllAllowed(s, ops)
    ensures Inv(t)
    decreases |ops|
  {
    if ops == [] then s else Run(Step(s, ops[0]), ops[1..])
  }

  /** Every run keeps the set of managed pages: free pages and live pages only change places. */
  lemma {:induction false} RunConserves(s: Sys, ops: seq<Op>)
    requires Inv(s) && AllAllowed(s, ops)
    ensures var t := Run(s, ops);
      |t.D| == |s.D| && forall x :: 0 <= x < |s.D| ==> (t.D[x].Unmanaged? <==> s.D[x].Unmanaged?)
    decreases |ops|
  {
    if ops != [] {
      StepConserves(s, ops[0]);
      RunConserves(Step(s, ops[0]), ops[1..]);
    }
  }

  lemma StepConserves(s: Sys, op: Op)
    requires Inv(s) && Allowed(s, op)
    ensures var t := Step(s, op);
      |t.D| == |s.D| && forall x :: 0 <= x < |s.D| ==> (t.D[x].Unmanaged? <==> s.D[x].Unmanaged?)
  {
    match op
    case Alloc(order) =>
      RepresentsWellListed(s.m, s.D);
      if AllocPages(s.m, order).1.Some? { AllocSound(s.m, s.D, order); }
    case Release(p) =>
      ReturnedFacts(s.m, s.D, p, s.D[p].order);
      SafeFree(s.m, s.D, p, s.D[p].order);
      HeadOwns(s.D, p);
  }

  /** Two runs, from the same or from different states, that end with the same free pages end
      with the same free lists. */
  lemma HistoryIndependence(s: Sys, ops: seq<Op>, s': Sys, ops': seq<Op>, k: nat)
    requires Inv(s) && AllAllowed(s, ops) && Inv(s') && AllAllowed(s', ops')
    requires SameFreePages(Run(s, ops).D, Run(s', ops').D) && k < PAGE_MAX_ORDER
    ensures multiset(Run(s, ops).m.area[k].list) == multiset(Run(s', ops').m.area[k].list)
    ensures Run(s, ops).m.area[k].nrFree == Run(s', ops').m.area[k].nrFree
  {
    var t, t' := Run(s, ops), Run(s', ops');
    SameFreePagesSameLists(t.m, t.D, t'.m, t'.D, k);
  }

  // --- an allocation and its free --------------------------------------------------

  lemma {:induction false} FixStaysInside(m: Mem, p: nat, k: nat, order: nat)
    requires |m.area| == PAGE_MAX_ORDER && k < PAGE_MAX_ORDER && Aligned(p, k)
    ensures var r := FreePageFix(m, p, k, order);
      forall x :: 0 <= x < |m.pages| && !InBlock(p, k, x) ==> r.pages[x] == m.pages[x]
    decreases k
  {
    if k > order {
      var j := k - 1;
      AlignedStep(p, j);
      PageBuddyIsBuddy(p, j);
      var b := p + Pow2(j);
      if b < |m.pages| {
        FixStaysInside(FreePageAdd(SetFlags(SetOrder(m, b, j), b, true), b, j), p, j, order);
      } else {
        FixStaysInside(m, p, j, order);
      }
    }
  }

  lemma {:induction false} SplitHalves(D: seq<Owner>, p: nat, k: nat, order: nat, j: nat)
    requires Partitioned(D) && LiveHead(D, p, k) && order <= j < k
    ensures var b := p + Pow2(j); FreeHead(Split(D, p, k, order), b, j)
    decreases k
  {
    HalvedPartitioned(D, p, k - 1);
    if j < k - 1 {
      SplitHalves(Halved(D, p, k - 1), p, k - 1, order, j);
    } else {
      SplitKeeps(Halved(D, p, k - 1), p, k - 1, order);
    }
  }

  /** The upper halves of the orders from j to k - 1 are free blocks of the page map. */
  predicate HalvesFree(m: Mem, p: nat, j: nat, k: nat) {
    forall i :: j <= i < k ==>
      var b := p + Pow2(i);
      b < |m.pages| && m.pages[b].free && m.pages[b].order == i
  }

  lemma {:induction false} StopsThroughHalves(m: Mem, p: nat, j: nat, k: nat)
    requires j <= k <= TOP && Aligned(p, k) && Aligned(p, j) && HalvesFree(m, p, j, k)
    ensures MergeStops(m, p, j) <==> MergeStops(m, p, k)
    decreases k - j
  {
    if j < k {
      AlignedDown(p, k, j + 1);
      assert Buddy(p, j) == p + Pow2(j) && Parent(p, j) == p;
      StopsThroughHalves(m, p, j + 1, k);
    }
  }

  /** After `alloc_pages(order)` took block (p, k), freeing it again is safe exactly when freeing
      the whole block (p, k) would have been. */
  lemma AllocThenFreeIsSafeWhen(m: Mem, D: seq<Owner>, order: nat)
    requires Represents(m, D) && Partitioned(D) && Canonical(D) && WellListed(m)
    requires AllocPages(m, order).1.Some?
    ensures var (m', r) := AllocPages(m, order);
      var k := FirstOrder(m, order);
      && Aligned(r.value, k) && Aligned(r.value, order)
      && (MergeStops(m', r.value, order) <==> MergeStops(m, r.value, k))
  {
    var k, p := AllocIsTake(m, order);
    hide Represents, Canonical, Partitioned, TakeFrom, MergeStops, Taken, HeadAfter, AllocPages;
    hide WellListed, FreeHead, LiveHead;
    TakeRepresents(m, D, k, order);
    FreeHeadAligned(D, p, k);
    TakeKeepsStops(m, D, k, order, p);
  }

  lemma FreeHeadAligned(D: seq<Owner>, p: nat, k: nat)
    requires Partitioned(D) && FreeHead(D, p, k)
    ensures Aligned(p, k) && k <= TOP
  {
    HeadOwns(D, p);
  }

  lemma TakeKeepsStops(m: Mem, D: seq<Owner>, k: nat, order: nat, p: nat)
    requires Represents(m, D) && Partitioned(D) && Canonical(D) && WellListed(m)
    requires order <= k < PAGE_MAX_ORDER && m.area[k].list != [] && p == m.area[k].list[0]
    requires Aligned(p, k) && Aligned(p, order)
    ensures MergeStops(TakeFrom(m, k, order), p, order) <==> MergeStops(m, p, k)
  {
    hide Represents, Canonical, Partitioned, TakeFrom, MergeStops, HalvesFree;
    var m' := TakeFrom(m, k, order);
    HalvesAreFree(m, D, k, order, m');
    hide WellListed;
    StopsThroughHalves(m', p, order, k);
    TakeStaysInside(m, D, k, order);
    StopsOutside(m, m', p, k);
  }

  lemma AllocIsTake(m: Mem, order: nat) returns (k: nat, p: nat)
    requires WellListed(m) && AllocPages(m, order).1.Some?
    ensures |m.area| == PAGE_MAX_ORDER && k == FirstOrder(m, order) && order <= k < PAGE_MAX_ORDER
    ensures m.area[k].list != [] && p == m.area[k].list[0] && p < |m.pages| && m.pages[p].order < PAGE_MAX_ORDER
    ensures AllocPages(m, order) == (TakeFrom(m, k, order), Some(p))
  {
    k := FirstOrder(m, order);
    p := m.area[k].list[0];
  }

  lemma HalvesAreFree(m: Mem, D: seq<Owner>, k: nat, order: nat, m': Mem)
    requires Represents(m, D) && Partitioned(D) && Canonical(D) && WellListed(m)
    requires order <= k < PAGE_MAX_ORDER && m.area[k].list != [] && m' == TakeFrom(m, k, order)
    ensures HalvesFree(m', m.area[k].list[0], order, k)
  {
    hide TakeFrom, Represents, Partitioned, Canonical, Taken, HeadAfter, WellListed, FreeHead, LiveHead;
    hide InBlock, FreePageDel, FreePageFix;
    RepresentedLength(m, D);
    var p := m.area[k].list[0];
    TakeRepresents(m, D, k, order);
    forall i | order <= i < k
      ensures var b := p + Pow2(i); b < |m'.pages| && m'.pages[b].free && m'.pages[b].order == i
    {
      HalfIsFree(m', D, p, k, order, i);
    }
  }

  lemma HalfIsFree(m: Mem, D: seq<Owner>, p: nat, k: nat, order: nat, i: nat)
    requires Partitioned(D) && FreeHead(D, p, k) && Represents(m, Taken(D, p, k, order)) && order <= i < k
    ensures var b := p + Pow2(i); b < |m.pages| && m.pages[b].free && m.pages[b].order == i
  {
    HeadOwns(D, p);
    SetBlockPartitioned(D, p, k, Live(p, k));
    hide Represents, Partitioned, Taken, SetBlock;
    TakenIsSplit(D, p, k, order);
    SplitHalves(SetBlock(D, p, k, Live(p, k)), p, k, order, i);
    FreeHeadFlags(m, Taken(D, p, k, order), p + Pow2(i), i);
  }

  lemma TakenIsSplit(D: seq<Owner>, p: nat, k: nat, order: nat)
    ensures Taken(D, p, k, order) == Split(SetBlock(D, p, k, Live(p, k)), p, k, order)
  {
  }

  lemma FreeHeadFlags(m: Mem, D: seq<Owner>, b: nat, i: nat)
    requires Represents(m, D) && FreeHead(D, b, i)
    ensures b < |m.pages| && m.pages[b].free && m.pages[b].order == i
  {
    assert PageAgrees(m, D, b);
  }

  lemma TakeStaysInside(m: Mem, D: seq<Owner>, k: nat, order: nat)
    requires Represents(m, D) && Partitioned(D) && WellListed(m)
    requires order <= k < PAGE_MAX_ORDER && m.area[k].list != []
    ensures var p := m.area[k].list[0]; var m' := TakeFrom(m, k, order);
      && |m'.pages| == |m.pages|
      && forall x :: 0 <= x < |m.pages| && !InBlock(p, k, x) ==>
        m'.pages[x].free == m.pages[x].free && m'.pages[x].order == m.pages[x].order
  {
    hide FreePageFix, PageBuddy;
    var p := m.area[k].list[0];
    assert AreaAgrees(m, D, k) && p in m.area[k].list;
    assert PageAgrees(m, D, p);
    HeadOwns(D, p);
    FixStaysInside(FreePageDel(m, p), p, k, order);
  }

  /** An allocation followed by its free restores every free list (as a multiset) and every
      counter, whenever that free is safe. */
  lemma AllocThenFreeRestores(m: Mem, D: seq<Owner>, order: nat, k: nat)
    requires Represents(m, D) && Partitioned(D) && Canonical(D) && WellListed(m)
    requires AllocPages(m, order).1.Some? && k < PAGE_MAX_ORDER
    requires var p, j := AllocPages(m, order).1.value, FirstOrder(m, order);
      Aligned(p, j) ==> MergeStops(m, p, j)
    ensures var (m', r) := AllocPages(m, order); var p := r.value;
      && p < |m'.pages| && |m'.area| == PAGE_MAX_ORDER && m'.pages[p].order == order < PAGE_MAX_ORDER
      && multiset(FreePages(m', p).area[k].list) == multiset(m.area[k].list)
      && FreePages(m', p).area[k].nrFree == m.area[k].nrFree
  {
    var (m', r) := AllocPages(m, order);
    var p, j := r.value, FirstOrder(m, order);
    AllocSound(m, D, order);
    AllocThenFreeIsSafeWhen(m, D, order);
    var D' := Taken(D, p, j, order);
    ReturnedFacts(m', D', p, order);
    SafeFree(m', D', p, order);
    SameFreePagesSameLists(m, D, FreePages(m', p), Freed(D', p, order), k);
  }
}
