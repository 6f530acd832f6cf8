/** Freeing a block: `free_page` coalesces exactly as it should if and only if the merge
    loop stops at a page that is not FREE (or at the top order). */
module Freeing {
  import opened Dyadic
  import opened PageMap
  import opened Partition

  /** What coalescing does to the partition: join with the buddy while the buddy is a free
      block of the same order. */
  function Coalesce(D: seq<Owner>, p: nat, k: nat): (r: seq<Owner>)
    requires Aligned(p, k)
    ensures |r| == |D|
    decreases TOP - k
  {
    if k < TOP && FreeHead(D, Buddy(p, k), k)
    then Coalesce(Joined(D, p, k), Parent(p, k), k + 1)
    else D
  }

  /** Block (p, k) and its buddy become one free block. */
  function Joined(D: seq<Owner>, p: nat, k: nat): (r: seq<Owner>)
    requires Aligned(p, k)
    ensures |r| == |D|
  {
    SetBlock(D, Parent(p, k), k + 1, Free(Parent(p, k), k + 1))
  }

  ghost predicate Mergeable(D: seq<Owner>, p: nat, k: nat) {
    k < TOP && Aligned(p, k) && FreeHead(D, p, k) && FreeHead(D, Buddy(p, k), k)
  }

  /** Walking up from block (p, k), the first buddy that is not a free block of the same
      order is not FREE-flagged at all.  A caller can evaluate this on the page map before
      the call; it fails exactly where line 205 of page_alloc.c merges without comparing orders. */
  predicate MergeStops(m: Mem, p: nat, k: nat)
    requires Aligned(p, k)
    decreases TOP - k
  {
    k < TOP ==>
      var b := Buddy(p, k);
      b < |m.pages| && m.pages[b].free ==>
        m.pages[b].order == k && MergeStops(m, Parent(p, k), k + 1)
  }

  /** Deleting a listed block head from its area keeps every other list as it is. */
  lemma DelFacts(m: Mem, p: nat)
    requires |m.area| == PAGE_MAX_ORDER && p < |m.pages| && m.pages[p].order < PAGE_MAX_ORDER
    requires var a := m.area[m.pages[p].order]; NoDup(a.list) && a.nrFree == |a.list| && p in a.list
    ensures var k, r := m.pages[p].order, FreePageDel(m, p);
      && r.pages == m.pages && |r.area| == |m.area|
      && (forall j :: 0 <= j < PAGE_MAX_ORDER && j != k ==> r.area[j] == m.area[j])
      && NoDup(r.area[k].list) && r.area[k].nrFree == |r.area[k].list|
      && (forall x :: x in r.area[k].list <==> x in m.area[k].list && x != p)
  {
    WithoutFacts(m.area[m.pages[p].order].list, p);
  }

  lemma AddFacts(m: Mem, p: nat, k: nat)
    requires |m.area| == PAGE_MAX_ORDER && k < PAGE_MAX_ORDER
    requires NoDup(m.area[k].list) && m.area[k].nrFree == |m.area[k].list| && p !in m.area[k].list
    ensures var r := FreePageAdd(m, p, k);
      && r.pages == m.pages && |r.area| == |m.area|
      && (forall j :: 0 <= j < PAGE_MAX_ORDER && j != k ==> r.area[j] == m.area[j])
      && NoDup(r.area[k].list) && r.area[k].nrFree == |r.area[k].list|
      && (forall x :: x in r.area[k].list <==> x in m.area[k].list || x == p)
  {
  }

  lemma JoinedPages(D: seq<Owner>, p: nat, k: nat)
    requires Partitioned(D) && Mergeable(D, p, k)
    ensures var b, q := Buddy(p, k), Parent(p, k);
      && Fits(D, q, k + 1)
      && (forall x :: InBlock(q, k + 1, x) <==> InBlock(p, k, x) || InBlock(b, k, x))
      && (forall x :: InBlock(p, k, x) ==> D[x] == Free(p, k))
      && (forall x :: InBlock(b, k, x) ==> D[x] == Free(b, k))
  {
    BuddyFacts(p, k);
    HeadOwns(D, p);
    BuddyInRange(D, p, k);
    HeadOwns(D, Buddy(p, k));
  }

  lemma JoinedPartitioned(D: seq<Owner>, p: nat, k: nat)
    requires Partitioned(D) && Mergeable(D, p, k)
    ensures Partitioned(Joined(D, p, k))
  {
    JoinedPages(D, p, k);
    SetBlockPartitioned(D, Parent(p, k), k + 1, Free(Parent(p, k), k + 1));
  }

  lemma JoinedHeads(D: seq<Owner>, p: nat, k: nat, j: nat)
    requires Partitioned(D) && Mergeable(D, p, k)
    ensures var b, q := Buddy(p, k), Parent(p, k);
      forall x: nat :: FreeHead(Joined(D, p, k), x, j) <==>
        (FreeHead(D, x, j) && !(j == k && (x == p || x == b))) || (j == k + 1 && x == q)
  {
    JoinedPages(D, p, k);
    BuddyFacts(p, k);
  }

  /** What `merge_pages` followed by `free_page_add` does to the page map. */
  lemma MergeEffect(m: Mem, p: nat, b: nat)
    requires |m.area| == PAGE_MAX_ORDER && p < |m.pages| && b < |m.pages| && p != b
    ensures var (r, left) := MergePages(m, p, b);
      && r.area == FreePageDel(FreePageDel(m, p), b).area && |r.pages| == |m.pages|
      && forall x :: 0 <= x < |m.pages| ==>
           && r.pages[x].free == m.pages[x].free
           && r.pages[x].order == m.pages[x].order + (if x == p || x == b then 1 else 0)
           && r.pages[x].head == (if InBlock(left, m.pages[left].order + 1, x) then left else m.pages[x].head)
  {
  }

  lemma JoinedAreas(m: Mem, D: seq<Owner>, p: nat, k: nat, m1: Mem, m2: Mem)
    requires Represents(m, D) && Partitioned(D) && Mergeable(D, p, k)
    requires |m1.area| == PAGE_MAX_ORDER && |m1.pages| == |m.pages|
    requires m1.area == FreePageDel(FreePageDel(m, p), Buddy(p, k)).area
    requires m2 == FreePageAdd(m1, Parent(p, k), k + 1)
    ensures forall j :: 0 <= j < PAGE_MAX_ORDER ==> AreaAgrees(m2, Joined(D, p, k), j)
  {
    var b, q, d1 := Buddy(p, k), Parent(p, k), FreePageDel(m, p);
    BuddyFacts(p, k);
    assert PageAgrees(m, D, p) && PageAgrees(m, D, b) && AreaAgrees(m, D, k) && AreaAgrees(m, D, k + 1);
    DelFacts(m, p);
    DelFacts(d1, b);
    JoinedPages(D, p, k);
    assert q !in m1.area[k + 1].list;
    AddFacts(m1, q, k + 1);
    forall j | 0 <= j < PAGE_MAX_ORDER ensures AreaAgrees(m2, Joined(D, p, k), j) {
      assert AreaAgrees(m, D, j);
      JoinedHeads(D, p, k, j);
    }
  }

  lemma JoinedFlags(m: Mem, D: seq<Owner>, p: nat, k: nat, m2: Mem)
    requires Represents(m, D) && Partitioned(D) && Mergeable(D, p, k)
    requires |m2.pages| == |m.pages|
    requires forall x :: 0 <= x < |m.pages| ==>
      && m2.pages[x].free == m.pages[x].free
      && m2.pages[x].order == m.pages[x].order + (if x == p || x == Buddy(p, k) then 1 else 0)
      && (!InBlock(Parent(p, k), k + 1, x) ==> m2.pages[x].head == m.pages[x].head)
    ensures forall x :: 0 <= x < |D| ==> PageAgrees(m2, Joined(D, p, k), x)
    ensures HeadsFound(m, D) ==> HeadsFound(m2, Joined(D, p, k))
  {
    BuddyFacts(p, k);
    JoinedPages(D, p, k);
    assert PageAgrees(m, D, p) && PageAgrees(m, D, Buddy(p, k));
    forall x | 0 <= x < |D| ensures PageAgrees(m2, Joined(D, p, k), x) {
      assert PageAgrees(m, D, x);
    }
  }

  /** One turn of the merge loop, buddy free and of the same order: the two halves become
      their parent, in the lists and in the partition. */
  lemma MergeStep(m: Mem, D: seq<Owner>, p: nat, k: nat, m1: Mem, left: nat, m2: Mem)
    requires Represents(m, D) && Partitioned(D) && Mergeable(D, p, k)
    requires (m1, left) == MergePages(m, p, Buddy(p, k))
    requires m2 == FreePageAdd(m1, left, k + 1)
    ensures left == Parent(p, k) && m1.pages[left].order == k + 1 && m.pages[p].order == k
    ensures Represents(m2, Joined(D, p, k)) && Partitioned(Joined(D, p, k))
    ensures HeadsFound(m, D) ==> HeadsFound(m2, Joined(D, p, k))
  {
    var b := Buddy(p, k);
    BuddyFacts(p, k);
    assert PageAgrees(m, D, p) && PageAgrees(m, D, b);
    MergeEffect(m, p, b);
    JoinedPartitioned(D, p, k);
    JoinedAreas(m, D, p, k, m1, m2);
    JoinedFlags(m, D, p, k, m2);
  }

  /** The same turn keeps the rest of the partition canonical. */
  lemma JoinedCanonical(D: seq<Owner>, p: nat, k: nat)
    requires Partitioned(D) && CanonicalBut(D, p) && Mergeable(D, p, k)
    ensures CanonicalBut(Joined(D, p, k), Parent(p, k))
  {
    var q, D' := Parent(p, k), Joined(D, p, k);
    BuddyFacts(p, k);
    forall x: nat, j: nat | j < TOP && FreeHead(D', x, j) && Aligned(x, j) && x != q && Buddy(x, j) != q
      ensures !FreeHead(D', Buddy(x, j), j)
    {
      JoinedHeads(D, p, k, j);
      assert FreeHead(D, x, j);
      if Buddy(x, j) != p { assert !FreeHead(D, Buddy(x, j), j); }
    }
  }

  lemma NowCanonical(D: seq<Owner>, p: nat, k: nat)
    requires CanonicalBut(D, p) && Aligned(p, k) && FreeHead(D, p, k)
    requires k < TOP ==> !FreeHead(D, Buddy(p, k), k)
    ensures Canonical(D)
  {
    forall x: nat, j: nat | j < TOP && FreeHead(D, x, j) && Aligned(x, j)
      ensures !FreeHead(D, Buddy(x, j), j)
    {
      BuddyFacts(x, j);
    }
  }

  /** The state after one turn of the merge loop. */
  function Turned(m: Mem, p: nat, b: nat): (r: (Mem, nat))
    requires |m.area| == PAGE_MAX_ORDER && p < |m.pages| && b < |m.pages|
    ensures |r.0.area| == |m.area| && |r.0.pages| == |m.pages| && r.1 == (if p < b then p else b)
  {
    var (m1, left) := MergePages(m, p, b);
    var k := m1.pages[left].order;
    (if k < |m1.area| then FreePageAdd(m1, left, k) else m1, left)
  }

  lemma MergeTurn(m: Mem, D: seq<Owner>, p: nat, k: nat)
    requires Represents(m, D) && Partitioned(D) && CanonicalBut(D, p) && Mergeable(D, p, k)
    ensures var (m2, left) := Turned(m, p, Buddy(p, k));
      && left == Parent(p, k)
      && Represents(m2, Joined(D, p, k)) && Partitioned(Joined(D, p, k)) && CanonicalBut(Joined(D, p, k), left)
      && FreeHead(Joined(D, p, k), left, k + 1)
      && (HeadsFound(m, D) ==> HeadsFound(m2, Joined(D, p, k)))
      && (MergeStops(m, left, k + 1) <==> MergeStops(m2, left, k + 1))
  {
    MergeableLengths(m, D, p, k);
    hide Represents, Partitioned, CanonicalBut, MergePages, FreePageAdd, Joined, MergeStops, HeadsFound;
    var b := Buddy(p, k);
    var (m1, left) := MergePages(m, p, b);
    var m2 := FreePageAdd(m1, left, k + 1);
    MergeStep(m, D, p, k, m1, left, m2);
    JoinedCanonical(D, p, k);
    JoinedHead(D, p, k);
    TurnStops(m, D, p, k, m1, left, m2);
  }

  lemma MergeableLengths(m: Mem, D: seq<Owner>, p: nat, k: nat)
    requires Represents(m, D) && Partitioned(D) && Mergeable(D, p, k)
    ensures |m.area| == PAGE_MAX_ORDER && p < |m.pages| && Buddy(p, k) < |m.pages| && Aligned(Parent(p, k), k + 1)
  {
    BuddyFacts(p, k);
  }

  lemma JoinedHead(D: seq<Owner>, p: nat, k: nat)
    requires Partitioned(D) && Mergeable(D, p, k)
    ensures FreeHead(Joined(D, p, k), Parent(p, k), k + 1)
  {
    JoinedPages(D, p, k);
  }

  /** The turn leaves everything outside the joined block as it was. */
  lemma TurnStops(m: Mem, D: seq<Owner>, p: nat, k: nat, m1: Mem, left: nat, m2: Mem)
    requires Represents(m, D) && Partitioned(D) && Mergeable(D, p, k)
    requires p < |m.pages| && Buddy(p, k) < |m.pages| && (m1, left) == MergePages(m, p, Buddy(p, k))
    requires |m1.area| == PAGE_MAX_ORDER && m2 == FreePageAdd(m1, left, k + 1) && left == Parent(p, k)
    requires Aligned(left, k + 1)
    ensures MergeStops(m, left, k + 1) <==> MergeStops(m2, left, k + 1)
  {
    hide MergeStops, MergePages;
    BuddyFacts(p, k);
    MergeEffect(m, p, Buddy(p, k));
    JoinedPages(D, p, k);
    StopsOutside(m, m2, left, k + 1);
  }

  lemma TurnUnfolds(m: Mem, p: nat, b: nat, order: nat)
    requires |m.area| == PAGE_MAX_ORDER && p < |m.pages| && b < |m.pages| && order < TOP
    requires b == PageBuddy(p, m.pages[p].order) && m.pages[b].free
    ensures var (m2, left) := Turned(m, p, b); MergeFreePage(m, p, order) == MergeFreePage(m2, left, order + 1)
  {
  }

  lemma LoopStops(m: Mem, p: nat, order: nat)
    requires |m.area| == PAGE_MAX_ORDER && p < |m.pages|
    requires order < TOP ==>
      var b := PageBuddy(p, m.pages[p].order); !(0 <= b < |m.pages| && m.pages[b].free)
    ensures MergeFreePage(m, p, order) == m
  {
  }

  /** The merge loop computes Coalesce, and leaves a canonical partition, when it stops safely. */
  lemma {:induction false} MergeLoopCoalesces(m: Mem, D: seq<Owner>, p: nat, k: nat)
    requires Represents(m, D) && Partitioned(D) && CanonicalBut(D, p)
    requires k <= TOP && Aligned(p, k) && FreeHead(D, p, k)
    requires MergeStops(m, p, k)
    ensures var D' := Coalesce(D, p, k);
      Represents(MergeFreePage(m, p, k), D') && Partitioned(D') && Canonical(D')
    decreases TOP - k
  {
    hide MergeFreePage, Turned, Joined, Partitioned, CanonicalBut, Canonical;
    if k < TOP { LoopGuard(m, D, p, k); }
    if k < TOP && FreeHead(D, Buddy(p, k), k) {
      var b := Buddy(p, k);
      MergeTurn(m, D, p, k);
      TurnUnfolds(m, p, b, k);
      MergeLoopCoalesces(Turned(m, p, b).0, Joined(D, p, k), Parent(p, k), k + 1);
    } else {
      LoopStops(m, p, k);
      NowCanonical(D, p, k);
    }
  }

  /** Nor does it lose the head of any live page. */
  lemma {:induction false} MergeLoopKeepsHeads(m: Mem, D: seq<Owner>, p: nat, k: nat)
    requires Represents(m, D) && Partitioned(D) && CanonicalBut(D, p)
    requires k <= TOP && Aligned(p, k) && FreeHead(D, p, k)
    requires MergeStops(m, p, k) && HeadsFound(m, D)
    ensures HeadsFound(MergeFreePage(m, p, k), Coalesce(D, p, k))
    decreases TOP - k
  {
    hide MergeFreePage, Turned, Joined, Partitioned, CanonicalBut, HeadsFound;
    if k < TOP { LoopGuard(m, D, p, k); }
    if k < TOP && FreeHead(D, Buddy(p, k), k) {
      var b := Buddy(p, k);
      MergeTurn(m, D, p, k);
      TurnUnfolds(m, p, b, k);
      MergeLoopKeepsHeads(Turned(m, p, b).0, Joined(D, p, k), Parent(p, k), k + 1);
    } else {
      LoopStops(m, p, k);
    }
  }

  /** Page p heads the first block on the list of order k. */
  predicate First(m: Mem, p: nat, k: nat) {
    k < |m.area| && m.area[k].list != [] && m.area[k].list[0] == p
  }

  lemma TurnIsFirst(m: Mem, D: seq<Owner>, p: nat, k: nat)
    requires Represents(m, D) && Partitioned(D) && Mergeable(D, p, k)
    ensures |m.area| == PAGE_MAX_ORDER && p < |m.pages| && Buddy(p, k) < |m.pages|
    ensures First(Turned(m, p, Buddy(p, k)).0, Parent(p, k), k + 1)
    ensures forall x :: InBlock(p, k, x) ==> InBlock(Parent(p, k), k + 1, x)
  {
    MergeableLengths(m, D, p, k);
    JoinedPages(D, p, k);
    var (m1, left) := MergePages(m, p, Buddy(p, k));
    MergeStep(m, D, p, k, m1, left, FreePageAdd(m1, left, k + 1));
  }

  /** The block that the merge loop ends with is the first on its list. */
  lemma {:induction false} MergedIsFirst(m: Mem, D: seq<Owner>, p: nat, k: nat, x: nat) returns (h: nat, j: nat)
    requires Represents(m, D) && Partitioned(D) && CanonicalBut(D, p)
    requires k <= TOP && Aligned(p, k) && FreeHead(D, p, k) && First(m, p, k) && InBlock(p, k, x)
    requires MergeStops(m, p, k)
    ensures k <= j <= TOP && InBlock(h, j, x) && FreeHead(Coalesce(D, p, k), h, j)
    ensures |m.area| == PAGE_MAX_ORDER && p < |m.pages| && First(MergeFreePage(m, p, k), h, j)
    decreases TOP - k
  {
    hide MergeFreePage, Turned, Joined, Partitioned, CanonicalBut, First, InBlock;
    if k < TOP { LoopGuard(m, D, p, k); }
    if k < TOP && FreeHead(D, Buddy(p, k), k) {
      var b := Buddy(p, k);
      MergeTurn(m, D, p, k);
      TurnIsFirst(m, D, p, k);
      TurnUnfolds(m, p, b, k);
      h, j := MergedIsFirst(Turned(m, p, b).0, Joined(D, p, k), Parent(p, k), k + 1, x);
    } else {
      LoopStops(m, p, k);
      h, j := p, k;
    }
  }

  /** What the guard of the merge loop sees. */
  lemma LoopGuard(m: Mem, D: seq<Owner>, p: nat, k: nat)
    requires Represents(m, D) && Partitioned(D)
    requires k < TOP && Aligned(p, k) && FreeHead(D, p, k)
    ensures var b := Buddy(p, k);
      && m.pages[p].order == k && PageBuddy(p, k) == b && b < |D|
      && (m.pages[b].free ==> FreeHead(D, b, m.pages[b].order) && m.pages[b].order <= k)
      && (FreeHead(D, b, k) ==> m.pages[b].free && m.pages[b].order == k)
  {
    assert PageAgrees(m, D, p);
    HeadOwns(D, p);
    PageBuddyIsBuddy(p, k);
    BuddyIsHead(D, p, k);
    assert PageAgrees(m, D, Buddy(p, k));
  }

  /** MergeStops looks only at pages outside the block. */
  lemma {:induction false} StopsOutside(m: Mem, m': Mem, p: nat, k: nat)
    requires Aligned(p, k) && |m.pages| == |m'.pages|
    requires forall x :: 0 <= x < |m.pages| && !InBlock(p, k, x) ==>
      m.pages[x].free == m'.pages[x].free && m.pages[x].order == m'.pages[x].order
    ensures MergeStops(m, p, k) == MergeStops(m', p, k)
    decreases TOP - k
  {
    if k < TOP {
      BuddyFacts(p, k);
      StopsOutside(m, m', Parent(p, k), k + 1);
    }
  }

  /** Coalescing moves block boundaries among free pages and nothing else. */
  lemma {:induction false} CoalesceKeeps(D: seq<Owner>, p: nat, k: nat)
    requires Partitioned(D) && Fits(D, p, k) && FreeHead(D, p, k)
    ensures var D' := Coalesce(D, p, k);
      forall x :: 0 <= x < |D| ==> (D[x].Free? <==> D'[x].Free?) && (!D[x].Free? ==> D'[x] == D[x])
    decreases TOP - k
  {
    if k < TOP && FreeHead(D, Buddy(p, k), k) {
      JoinedPages(D, p, k);
      JoinedPartitioned(D, p, k);
      CoalesceKeeps(Joined(D, p, k), Parent(p, k), k + 1);
    }
  }

  /** The partition after block (p, k) has been freed. */
  function Freed(D: seq<Owner>, p: nat, k: nat): seq<Owner>
    requires Aligned(p, k)
  {
    Coalesce(SetBlock(D, p, k, Free(p, k)), p, k)
  }

  /** The state handed to the merge loop. */
  function Returned(m: Mem, p: nat): (r: Mem)
    requires |m.area| == PAGE_MAX_ORDER && p < |m.pages| && m.pages[p].order < PAGE_MAX_ORDER
  {
    SetFlags(FreePageAdd(m, p, m.pages[p].order), p, true)
  }

  lemma ReturnedFacts(m: Mem, D: seq<Owner>, p: nat, k: nat)
    requires Represents(m, D) && Partitioned(D) && Canonical(D) && LiveHead(D, p, k)
    ensures k <= TOP && Aligned(p, k) && m.pages[p].order == k
    ensures var D1 := SetBlock(D, p, k, Free(p, k));
      && Represents(Returned(m, p), D1) && Partitioned(D1) && CanonicalBut(D1, p)
      && FreeHead(D1, p, k) && Fits(D1, p, k)
      && (HeadsFound(m, D) ==> HeadsFound(Returned(m, p), D1))
      && (MergeStops(m, p, k) <==> MergeStops(Returned(m, p), p, k))
  {
    HeadOwns(D, p);
    assert PageAgrees(m, D, p) && AreaAgrees(m, D, k);
    var D1 := SetBlock(D, p, k, Free(p, k));
    SetBlockPartitioned(D, p, k, Free(p, k));
    var m1 := FreePageAdd(m, p, k);
    AddFacts(m, p, k);
    var m2 := SetFlags(m1, p, true);
    forall x | 0 <= x < |D1| ensures PageAgrees(m2, D1, x) {
      assert PageAgrees(m, D, x);
    }
    forall j | 0 <= j < PAGE_MAX_ORDER ensures AreaAgrees(m2, D1, j) {
      assert AreaAgrees(m, D, j);
      forall x: nat ensures x in m2.area[j].list <==> FreeHead(D1, x, j) {
        if InBlock(p, k, x) { assert D[x] == D[p]; }
      }
    }
    forall x: nat, j: nat | j < TOP && FreeHead(D1, x, j) && Aligned(x, j) && x != p && Buddy(x, j) != p
      ensures !FreeHead(D1, Buddy(x, j), j)
    {
      assert FreeHead(D, x, j);
      assert FreeHead(D1, Buddy(x, j), j) ==> FreeHead(D, Buddy(x, j), j);
    }
    StopsOutside(m, m2, p, k);
  }

  /** A safe free turns the live block into free pages, keeps everyone else's pages, and
      leaves the lists canonical. */
  lemma SafeFree(m: Mem, D: seq<Owner>, p: nat, k: nat)
    requires Represents(m, D) && Partitioned(D) && Canonical(D) && LiveHead(D, p, k)
    requires k <= TOP && Aligned(p, k) && m.pages[p].order == k
    requires MergeStops(m, p, k)
    ensures var m', D' := FreePages(m, p), Freed(D, p, k);
      && Represents(m', D') && Partitioned(D') && Canonical(D')
      && (HeadsFound(m, D) ==> HeadsFound(m', D'))
      && forall x :: 0 <= x < |D| ==>
           (D'[x].Free? <==> D[x].Free? || InBlock(p, k, x))
           && (!D'[x].Free? ==> D'[x] == D[x])
  {
    ReturnedFacts(m, D, p, k);
    var D1 := SetBlock(D, p, k, Free(p, k));
    MergeLoopCoalesces(Returned(m, p), D1, p, k);
    if HeadsFound(m, D) { MergeLoopKeepsHeads(Returned(m, p), D1, p, k); }
    CoalesceKeeps(D1, p, k);
    HeadOwns(D, p);
  }

  /** After a safe free the block that holds the page is the first on its list. */
  lemma FreedIsFirst(m: Mem, D: seq<Owner>, p: nat, k: nat) returns (h: nat, j: nat)
    requires Represents(m, D) && Partitioned(D) && Canonical(D) && LiveHead(D, p, k)
    requires k <= TOP && Aligned(p, k) && m.pages[p].order == k
    requires MergeStops(m, p, k)
    ensures k <= j <= TOP && InBlock(h, j, p) && FreeHead(Freed(D, p, k), h, j) && First(FreePages(m, p), h, j)
  {
    ReturnedFacts(m, D, p, k);
    BlockHasFirst(p, k);
    hide Represents, Partitioned, Canonical, MergeFreePage, CanonicalBut, MergeStops;
    h, j := MergedIsFirst(Returned(m, p), SetBlock(D, p, k, Free(p, k)), p, k, p);
  }

  lemma BlockHasFirst(p: nat, k: nat)
    ensures InBlock(p, k, p)
  {
  }
}
