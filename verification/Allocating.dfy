/** Allocating a block: `alloc_pages` takes the first block of the smallest sufficient order
    and hands the upper halves back.  It fails only when no aligned run is free, and it keeps
    every compound head right if and only if the buddy range holds no foreign live page. */
module Allocating {
  import opened Wrappers
  import opened Dyadic
  import opened PageMap
  import opened Partition
  import opened CanonicalForm
  import opened Freeing

  /** Listed pages are pages of the map with orders of the table. */
  predicate WellListed(m: Mem) {
    |m.area| == PAGE_MAX_ORDER
    && forall k, i :: 0 <= k < PAGE_MAX_ORDER && 0 <= i < |m.area[k].list| ==>
         m.area[k].list[i] < |m.pages| && m.pages[m.area[k].list[i]].order < PAGE_MAX_ORDER
  }

  /** `alloc_pages`: the new state and the page, or None for NULL. */
  function AllocPages(m: Mem, order: nat): (r: (Mem, Option<nat>))
    requires WellListed(m)
  {
    var k := FirstOrder(m, order);
    if k < PAGE_MAX_ORDER then (TakeFrom(m, k, order), Some(m.area[k].list[0])) else (m, None)
  }

  /** Block (p, k + 1) in hand becomes block (p, k) in hand and its upper half free. */
  function Halved(D: seq<Owner>, p: nat, k: nat): (r: seq<Owner>)
    ensures |r| == |D|
    ensures forall x :: 0 <= x < |D| ==>
      r[x] == if InBlock(p, k, x) then Live(p, k)
              else if InBlock(p + Pow2(k), k, x) then Free(p + Pow2(k), k) else D[x]
  {
    SetBlock(SetBlock(D, p, k, Live(p, k)), p + Pow2(k), k, Free(p + Pow2(k), k))
  }

  /** The block in hand (p, k) is split down to `order`. */
  function Split(D: seq<Owner>, p: nat, k: nat, order: nat): (r: seq<Owner>)
    ensures |r| == |D|
    decreases k
  {
    if k <= order then D else Split(Halved(D, p, k - 1), p, k - 1, order)
  }

  /** Representation with the flags and the order of page p left open. */
  ghost predicate RepresentsBut(m: Mem, D: seq<Owner>, p: nat) {
    && |m.area| == PAGE_MAX_ORDER && |m.pages| == |D|
    && (forall x :: 0 <= x < |D| && x != p ==> PageAgrees(m, D, x))
    && (forall k :: 0 <= k < PAGE_MAX_ORDER ==> AreaAgrees(m, D, k))
  }

  lemma RepresentsWellListed(m: Mem, D: seq<Owner>)
    requires Represents(m, D) && Partitioned(D)
    ensures WellListed(m)
  {
    forall k, i | 0 <= k < PAGE_MAX_ORDER && 0 <= i < |m.area[k].list|
      ensures m.area[k].list[i] < |m.pages| && m.pages[m.area[k].list[i]].order < PAGE_MAX_ORDER
    {
      var p := m.area[k].list[i];
      assert AreaAgrees(m, D, k) && p in m.area[k].list;
      assert PageAgrees(m, D, p);
    }
  }

  /** A block in hand: its pages are Live(p, k) although the map may still flag p as free. */
  lemma Unlisted(m: Mem, D: seq<Owner>, p: nat, k: nat)
    requires Represents(m, D) && Partitioned(D) && Canonical(D) && FreeHead(D, p, k)
    ensures k <= TOP && m.pages[p].order == k
    ensures var D1 := SetBlock(D, p, k, Live(p, k));
      RepresentsBut(FreePageDel(m, p), D1, p) && Partitioned(D1) && Canonical(D1) && LiveHead(D1, p, k)
  {
    HeadOwns(D, p);
    assert PageAgrees(m, D, p) && AreaAgrees(m, D, k);
    var D1 := SetBlock(D, p, k, Live(p, k));
    SetBlockPartitioned(D, p, k, Live(p, k));
    DelFacts(m, p);
    var m1 := FreePageDel(m, p);
    forall x | 0 <= x < |D1| && x != p ensures PageAgrees(m1, D1, x) {
      assert PageAgrees(m, D, x);
    }
    forall j | 0 <= j < PAGE_MAX_ORDER ensures AreaAgrees(m1, D1, j) {
      assert AreaAgrees(m, D, j);
      assert forall x: nat :: FreeHead(D1, x, j) <==> FreeHead(D, x, j) && !(x == p && j == k);
    }
    FewerFreeHeads(D, D1);
  }

  lemma FewerFreeHeads(D: seq<Owner>, E: seq<Owner>)
    requires Canonical(D)
    requires forall p: nat, k: nat :: FreeHead(E, p, k) ==> FreeHead(D, p, k)
    ensures Canonical(E)
  {
  }

  lemma HalvedPartitioned(D: seq<Owner>, p: nat, k: nat)
    requires Partitioned(D) && LiveHead(D, p, k + 1)
    ensures Partitioned(Halved(D, p, k))
    ensures k < TOP && Aligned(p, k) && Aligned(p + Pow2(k), k) && Buddy(p, k) == p + Pow2(k)
    ensures p + Pow2(k + 1) <= |D| && forall x :: InBlock(p, k + 1, x) ==> D[x] == Live(p, k + 1)
  {
    HeadOwns(D, p);
    var b, D' := p + Pow2(k), Halved(D, p, k);
    AlignedStep(p, k);
    assert Fits(D', p, k) && Fits(D', b, k);
    forall x | 0 <= x < |D'| ensures GoodAt(D', x) {
      if InBlock(p, k, x) {
        assert forall y :: p <= y < p + Pow2(k) ==> D'[y] == Live(p, k);
      } else if InBlock(b, k, x) {
        assert forall y :: b <= y < b + Pow2(k) ==> D'[y] == Free(b, k);
      } else if !D[x].Unmanaged? {
        OutsideUntouched(D, p, k, x);
      }
    }
  }

  lemma OutsideUntouched(D: seq<Owner>, p: nat, k: nat, x: nat)
    requires Partitioned(D) && LiveHead(D, p, k + 1) && x < |D| && !D[x].Unmanaged? && !InBlock(p, k + 1, x)
    ensures GoodAt(Halved(D, p, k), x)
  {
    HeadOwns(D, p);
    assert GoodAt(D, x);
    var h, j := D[x].head, D[x].order;
    forall y | h <= y < h + Pow2(j) ensures Halved(D, p, k)[y] == D[x] {
      assert D[y] == D[x];
      assert InBlock(p, k + 1, y) ==> D[y] == D[p];
    }
  }

  /** One turn of `free_page_fix`. */
  lemma FixTurn(m: Mem, D: seq<Owner>, p: nat, k: nat, m': Mem)
    requires RepresentsBut(m, D, p) && Partitioned(D) && Canonical(D) && LiveHead(D, p, k + 1)
    requires p + Pow2(k) < |m.pages| && k < |m.area|
    requires var b := p + Pow2(k); m' == FreePageAdd(SetFlags(SetOrder(m, b, k), b, true), b, k)
    ensures RepresentsBut(m', Halved(D, p, k), p) && Partitioned(Halved(D, p, k))
    ensures Canonical(Halved(D, p, k)) && LiveHead(Halved(D, p, k), p, k)
  {
    HalvedPartitioned(D, p, k);
    HalvedCanonical(D, p, k);
    FixTurnAreas(m, D, p, k, m');
    FixTurnPages(m, D, p, k, m');
    hide Partitioned, Canonical, AreaAgrees, PageAgrees;
  }

  lemma FixTurnPages(m: Mem, D: seq<Owner>, p: nat, k: nat, m': Mem)
    requires RepresentsBut(m, D, p) && Partitioned(D) && LiveHead(D, p, k + 1)
    requires p + Pow2(k) < |m.pages| && k < |m.area|
    requires var b := p + Pow2(k); m' == FreePageAdd(SetFlags(SetOrder(m, b, k), b, true), b, k)
    ensures |m'.pages| == |D| && forall x :: 0 <= x < |D| && x != p ==> PageAgrees(m', Halved(D, p, k), x)
  {
    hide Partitioned, AreaAgrees;
    var D' := Halved(D, p, k);
    forall x | 0 <= x < |D'| && x != p ensures PageAgrees(m', D', x) {
      assert PageAgrees(m, D, x);
    }
  }

  lemma FixTurnAreas(m: Mem, D: seq<Owner>, p: nat, k: nat, m': Mem)
    requires RepresentsBut(m, D, p) && Partitioned(D) && LiveHead(D, p, k + 1)
    requires p + Pow2(k) < |m.pages| && k < |m.area|
    requires var b := p + Pow2(k); m' == FreePageAdd(SetFlags(SetOrder(m, b, k), b, true), b, k)
    ensures |m'.area| == PAGE_MAX_ORDER && forall j :: 0 <= j < PAGE_MAX_ORDER ==> AreaAgrees(m', Halved(D, p, k), j)
  {
    var b, D' := p + Pow2(k), Halved(D, p, k);
    HalvedPartitioned(D, p, k);
    hide Partitioned, PageAgrees;
    assert forall x: nat, j: nat :: FreeHead(D', x, j) <==> FreeHead(D, x, j) || (x == b && j == k);
    assert AreaAgrees(m, D, k);
    AddFacts(SetFlags(SetOrder(m, b, k), b, true), b, k);
    forall j | 0 <= j < PAGE_MAX_ORDER ensures AreaAgrees(m', D', j) {
      assert AreaAgrees(m, D, j);
    }
  }

  lemma HalvedCanonical(D: seq<Owner>, p: nat, k: nat)
    requires Partitioned(D) && Canonical(D) && LiveHead(D, p, k + 1)
    ensures Canonical(Halved(D, p, k))
  {
    var b, D' := p + Pow2(k), Halved(D, p, k);
    HalvedPartitioned(D, p, k);
    BuddyFacts(p, k);
    forall x: nat, j: nat | j < TOP && FreeHead(D', x, j) && Aligned(x, j)
      ensures !FreeHead(D', Buddy(x, j), j)
    {
      BuddyFacts(x, j);
    }
  }

  /** `free_page_fix` splits the block in hand down to `order`. */
  lemma {:induction false} FixSplits(m: Mem, D: seq<Owner>, p: nat, k: nat, order: nat)
    requires RepresentsBut(m, D, p) && Partitioned(D) && Canonical(D) && LiveHead(D, p, k)
    requires order <= k <= TOP
    ensures var m', D' := FreePageFix(m, p, k, order), Split(D, p, k, order);
      RepresentsBut(m', D', p) && Partitioned(D') && Canonical(D') && LiveHead(D', p, order)
    decreases k
  {
    hide RepresentsBut, Partitioned, Canonical, Halved;
    if k > order {
      var b := p + Pow2(k - 1);
      HalvedPartitioned(D, p, k - 1);
      PageBuddyIsBuddy(p, k - 1);
      SameLengths(m, D, p);
      var m1 := FreePageAdd(SetFlags(SetOrder(m, b, k - 1), b, true), b, k - 1);
      FixTurn(m, D, p, k - 1, m1);
      FixSplits(m1, Halved(D, p, k - 1), p, k - 1, order);
    }
  }

  lemma SameLengths(m: Mem, D: seq<Owner>, p: nat)
    requires RepresentsBut(m, D, p)
    ensures |m.pages| == |D| && |m.area| == PAGE_MAX_ORDER
  {
  }

  /** Splitting keeps the pages of the block in hand with it or frees them, and moves no other page. */
  lemma {:induction false} SplitKeeps(D: seq<Owner>, p: nat, k: nat, order: nat)
    requires Partitioned(D) && LiveHead(D, p, k) && order <= k
    ensures var D' := Split(D, p, k, order);
      forall x :: 0 <= x < |D| ==>
        && (InBlock(p, order, x) ==> D'[x] == Live(p, order))
        && (InBlock(p, k, x) && !InBlock(p, order, x) ==> D'[x].Free?)
        && (!InBlock(p, k, x) ==> D'[x] == D[x])
    decreases k
  {
    HeadOwns(D, p);
    if k > order {
      HalvedPartitioned(D, p, k - 1);
      SplitKeeps(Halved(D, p, k - 1), p, k - 1, order);
    }
  }

  /** Compound heads are not part of what the lists represent. */
  lemma HeadsDoNotMatter(m: Mem, n: Mem, D: seq<Owner>)
    requires Represents(m, D) && n.area == m.area && |n.pages| == |m.pages|
    requires forall x :: 0 <= x < |m.pages| ==>
      n.pages[x].free == m.pages[x].free && n.pages[x].order == m.pages[x].order
    ensures Represents(n, D)
  {
    forall x | 0 <= x < |D| ensures PageAgrees(n, D, x) {
      assert PageAgrees(m, D, x);
    }
    forall k | 0 <= k < PAGE_MAX_ORDER ensures AreaAgrees(n, D, k) {
      assert AreaAgrees(m, D, k);
    }
  }

  lemma Handed(m: Mem, D: seq<Owner>, p: nat, order: nat, n: Mem)
    requires RepresentsBut(m, D, p) && LiveHead(D, p, order)
    requires n == SetOrder(SetFlags(m, p, false), p, order)
    ensures Represents(n, D)
  {
    forall x | 0 <= x < |D| ensures PageAgrees(n, D, x) {
      assert x != p ==> PageAgrees(m, D, x);
    }
    forall k | 0 <= k < PAGE_MAX_ORDER ensures AreaAgrees(n, D, k) {
      assert AreaAgrees(m, D, k);
    }
  }

  lemma {:induction false} FixKeepsHeads(m: Mem, p: nat, porder: nat, order: nat)
    requires |m.area| == PAGE_MAX_ORDER && porder < PAGE_MAX_ORDER
    ensures var r := FreePageFix(m, p, porder, order);
      forall x :: 0 <= x < |m.pages| ==> r.pages[x].head == m.pages[x].head
    decreases porder
  {
    if porder > order {
      var k := porder - 1;
      var b := PageBuddy(p, k);
      if 0 <= b < |m.pages| {
        FixKeepsHeads(FreePageAdd(SetFlags(SetOrder(m, b, k), b, true), b, k), p, k, order);
      } else {
        FixKeepsHeads(m, p, k, order);
      }
    }
  }

  /** The partition after the free block (p, k) has been taken for an allocation of `order`. */
  function Taken(D: seq<Owner>, p: nat, k: nat, order: nat): (r: seq<Owner>)
    ensures |r| == |D|
  {
    Split(SetBlock(D, p, k, Live(p, k)), p, k, order)
  }

  /** The compound head of page x after block (p, order) has been handed out: the buddy range is
      overwritten as well. */
  function HeadAfter(m: Mem, p: nat, order: nat, x: nat): nat
    requires Aligned(p, order) && x < |m.pages|
  {
    if InBlock(Buddy(p, order), order, x) then Buddy(p, order)
    else if InBlock(p, order, x) then p
    else m.pages[x].head
  }

  lemma PageBuddyIsBuddyIfAligned(p: nat, order: nat)
    ensures Aligned(p, order) ==> PageBuddy(p, order) == Buddy(p, order)
  {
    if Aligned(p, order) { PageBuddyIsBuddy(p, order); }
  }

  lemma FirstIsHead(m: Mem, D: seq<Owner>, k: nat, p: nat)
    requires Represents(m, D) && k < PAGE_MAX_ORDER && m.area[k].list != [] && p == m.area[k].list[0]
    ensures FreeHead(D, p, k) && p < |m.pages| && m.pages[p].order == k
  {
    assert AreaAgrees(m, D, k) && p in m.area[k].list;
    assert PageAgrees(m, D, p);
  }

  /** Off its list, split, and marked as taken: block (p, k) becomes live pages and free halves. */
  lemma TakenRight(m: Mem, D: seq<Owner>, p: nat, k: nat, order: nat, m1: Mem, m2: Mem, m3: Mem)
    requires Represents(m, D) && Partitioned(D) && Canonical(D) && FreeHead(D, p, k) && order <= k < PAGE_MAX_ORDER
    requires p < |m.pages| && |m.area| == PAGE_MAX_ORDER && m.pages[p].order < PAGE_MAX_ORDER
    requires m1 == FreePageDel(m, p) && m2 == FreePageFix(m1, p, k, order)
    requires m3 == SetOrder(SetFlags(m2, p, false), p, order)
    ensures var D' := Taken(D, p, k, order);
      Represents(m3, D') && Partitioned(D') && Canonical(D') && LiveHead(D', p, order)
  {
    hide Represents, RepresentsBut, Partitioned, Canonical, Split, FreePageFix, FreePageDel;
    Unlisted(m, D, p, k);
    var D1 := SetBlock(D, p, k, Live(p, k));
    FixSplits(m1, D1, p, k, order);
    Handed(m2, Split(D1, p, k, order), p, order, m3);
  }

  /** What the whole of taking does beyond that: two ranges get a compound head. */
  lemma TakeUnfolds(m: Mem, k: nat, order: nat, p: nat, m1: Mem, m2: Mem, m3: Mem)
    requires |m.area| == PAGE_MAX_ORDER && order <= k < PAGE_MAX_ORDER && m.area[k].list != []
    requires p == m.area[k].list[0] && p < |m.pages| && m.pages[p].order == k && Aligned(p, order)
    requires m1 == FreePageDel(m, p) && m2 == FreePageFix(m1, p, k, order)
    requires m3 == SetOrder(SetFlags(m2, p, false), p, order)
    ensures var t := TakeFrom(m, k, order);
      && t.area == m3.area && |t.pages| == |m3.pages| == |m.pages|
      && forall x :: 0 <= x < |m.pages| ==>
           && t.pages[x].free == m3.pages[x].free && t.pages[x].order == m3.pages[x].order
           && t.pages[x].head == HeadAfter(m, p, order, x)
  {
    hide FreePageFix, PageBuddy;
    PageBuddyIsBuddyIfAligned(p, order);
    FixKeepsHeads(m1, p, k, order);
  }

  lemma TakeRepresents(m: Mem, D: seq<Owner>, k: nat, order: nat)
    requires Represents(m, D) && Partitioned(D) && Canonical(D) && WellListed(m)
    requires order <= k < PAGE_MAX_ORDER && m.area[k].list != []
    ensures var p := m.area[k].list[0]; var m', D' := TakeFrom(m, k, order), Taken(D, p, k, order);
      && FreeHead(D, p, k) && Aligned(p, order) && |m'.pages| == |m.pages|
      && Represents(m', D') && Partitioned(D') && Canonical(D') && LiveHead(D', p, order)
      && forall x :: 0 <= x < |D| ==> m'.pages[x].head == HeadAfter(m, p, order, x)
  {
    var p := m.area[k].list[0];
    FirstIsHead(m, D, k, p);
    HeadOwns(D, p);
    RepresentedLength(m, D);
    hide Represents, Partitioned, Canonical, Taken, TakeFrom, HeadAfter, FreePageDel, FreePageFix;
    AlignedDown(p, k, order);
    var m1 := FreePageDel(m, p);
    var m2 := FreePageFix(m1, p, k, order);
    var m3 := SetOrder(SetFlags(m2, p, false), p, order);
    TakenRight(m, D, p, k, order, m1, m2, m3);
    TakeUnfolds(m, k, order, p, m1, m2, m3);
    HeadsDoNotMatter(m3, TakeFrom(m, k, order), Taken(D, p, k, order));
  }

  lemma RepresentedLength(m: Mem, D: seq<Owner>)
    requires Represents(m, D)
    ensures |m.pages| == |D| && |m.area| == PAGE_MAX_ORDER
  {
  }

  /** What a successful allocation does: it hands out an aligned block of pages that were all
      free, nothing else changes hands, and the lists stay canonical. */
  lemma AllocSound(m: Mem, D: seq<Owner>, order: nat)
    requires Represents(m, D) && Partitioned(D) && Canonical(D) && WellListed(m)
    requires AllocPages(m, order).1.Some?
    ensures var (m', r) := AllocPages(m, order);
      var p, D' := r.value, Taken(D, r.value, FirstOrder(m, order), order);
      && order <= TOP && Fits(D, p, order) && AllFree(D, p, order)
      && Represents(m', D') && Partitioned(D') && Canonical(D') && LiveHead(D', p, order)
      && forall x :: 0 <= x < |D| ==>
           && (InBlock(p, order, x) ==> D'[x] == Live(p, order))
           && (D'[x].Free? <==> D[x].Free? && !InBlock(p, order, x))
           && (!D[x].Free? ==> D'[x] == D[x])
  {
    hide Represents, Canonical;
    var k := FirstOrder(m, order);
    var p := m.area[k].list[0];
    TakeRepresents(m, D, k, order);
    HeadOwns(D, p);
    var D1 := SetBlock(D, p, k, Live(p, k));
    SetBlockPartitioned(D, p, k, Live(p, k));
    SplitKeeps(D1, p, k, order);
    Pow2Monotone(order, k);
  }

  /** No false failure: `alloc_pages` returns NULL exactly when no aligned run of 2^order pages
      is entirely free (orders beyond the table always fail). */
  lemma AllocFailsExactlyWhen(m: Mem, D: seq<Owner>, order: nat)
    requires Represents(m, D) && Partitioned(D) && Canonical(D) && WellListed(m)
    ensures AllocPages(m, order).1 == None <==> !exists p: nat :: Fits(D, p, order) && AllFree(D, p, order)
    ensures AllocPages(m, order).1 == None ==> AllocPages(m, order).0 == m
  {
    hide TakeFrom;
    if AllocPages(m, order).1.Some? {
      AllocSound(m, D, order);
    }
    forall p: nat | Fits(D, p, order) && AllFree(D, p, order)
      ensures exists j :: order <= j < PAGE_MAX_ORDER && m.area[j].list != []
    {
      FreeRunIsListed(m, D, p, order);
    }
  }

  /** Best fit: the block handed out is cut from the first listed block of an order that no smaller
      sufficient free block has. */
  lemma AllocTakesSmallest(m: Mem, D: seq<Owner>, order: nat)
    requires Represents(m, D) && Partitioned(D) && Canonical(D) && WellListed(m)
    requires AllocPages(m, order).1.Some?
    ensures var k, p := FirstOrder(m, order), AllocPages(m, order).1.value;
      && order <= k <= TOP && FreeHead(D, p, k) && m.area[k].list != [] && p == m.area[k].list[0]
      && forall q: nat, j: nat :: order <= j < k ==> !FreeHead(D, q, j)
  {
    hide TakeFrom, Canonical;
    var k := FirstOrder(m, order);
    NoneBefore(m, order);
    FirstIsHead(m, D, k, m.area[k].list[0]);
    forall q: nat, j: nat | order <= j < k
      ensures !FreeHead(D, q, j)
    {
      assert AreaAgrees(m, D, j);
    }
  }

  /** Last freed, first handed out: after a safe free the next allocation of the order of the block that the
      page has come to lie in gets that block. */
  lemma FreedIsNext(m: Mem, D: seq<Owner>, p: nat, k: nat) returns (h: nat, j: nat)
    requires Represents(m, D) && Partitioned(D) && Canonical(D) && LiveHead(D, p, k)
    requires k <= TOP && Aligned(p, k) && m.pages[p].order == k && MergeStops(m, p, k)
    ensures k <= j <= TOP && InBlock(h, j, p) && FreeHead(Freed(D, p, k), h, j)
    ensures WellListed(FreePages(m, p)) && AllocPages(FreePages(m, p), j).1 == Some(h)
  {
    h, j := FreedIsFirst(m, D, p, k);
    SafeFree(m, D, p, k);
    RepresentsWellListed(FreePages(m, p), Freed(D, p, k));
    hide FreePages, TakeFrom, Freed;
    assert FirstOrder(FreePages(m, p), j) == j;
  }

  lemma FreeRunIsListed(m: Mem, D: seq<Owner>, p: nat, order: nat)
    requires Represents(m, D) && Partitioned(D) && Canonical(D) && Fits(D, p, order) && AllFree(D, p, order)
    ensures exists j :: order <= j < PAGE_MAX_ORDER && m.area[j].list != []
  {
    AllFreeRun(D, p, order);
    HeadOwns(D, p);
    var h, j := D[p].head, D[p].order;
    assert FreeHead(D, h, j);
    assert AreaAgrees(m, D, j);
    assert m.area[j].list != [];
  }

  /** Every live page of the buddy range belongs to the block that starts there. */
  ghost predicate BuddyRangeClear(m: Mem, D: seq<Owner>, p: nat, order: nat)
    requires Aligned(p, order) && |m.pages| == |D|
  {
    forall x :: 0 <= x < |D| && InBlock(Buddy(p, order), order, x) && D[x].Live? ==>
      m.pages[x].head == Buddy(p, order)
  }

  /** The exact condition for compound heads: an allocation keeps the head of every live page
      right if and only if the buddy range holds no live page with another head. */
  lemma AllocKeepsHeadsExactlyWhen(m: Mem, D: seq<Owner>, order: nat)
    requires Represents(m, D) && Partitioned(D) && Canonical(D) && WellListed(m) && HeadsFound(m, D)
    requires AllocPages(m, order).1.Some?
    ensures var (m', r) := AllocPages(m, order);
      && Aligned(r.value, order) && |m'.pages| == |D|
      && (HeadsFound(m', Taken(D, r.value, FirstOrder(m, order), order))
          <==> BuddyRangeClear(m, D, r.value, order))
  {
    assert |m.pages| == |D|;
    hide Represents, Canonical, Taken;
    var k := FirstOrder(m, order);
    var p := m.area[k].list[0];
    AllocSound(m, D, order);
    TakeRepresents(m, D, k, order);
    BuddyFacts(p, order);
    var D' := Taken(D, p, k, order);
    forall x | 0 <= x < |D|
      ensures D'[x].Live? && !InBlock(p, order, x) <==> D[x].Live?
    {
    }
  }

  /** The map of one megabyte: the heads written for the buddy stay inside it exactly for the orders
      below the largest one.  The block of all 256 pages has a buddy behind the map. */
  lemma BuddyInsideExactlyWhen(D: seq<Owner>, p: nat, k: nat)
    requires |D| == Pow2(TOP) && Fits(D, p, k)
    ensures 0 <= PageBuddy(p, k)
    ensures PageBuddy(p, k) + Pow2(k) <= |D| <==> k < TOP
  {
    PageBuddyIsBuddy(p, k);
    BuddyFacts(p, k);
    if k < TOP {
      Pow2IsAligned(TOP);
      BuddyInRange(D, p, k);
    }
  }

  lemma {:induction false} Pow2IsAligned(k: nat)
    ensures Aligned(Pow2(k), k)
  {
    if k > 0 {
      Pow2IsAligned(k - 1);
      assert Pow2(k) / 2 == Pow2(k - 1);
    }
  }
}
