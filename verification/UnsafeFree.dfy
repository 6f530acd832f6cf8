/** The other half of the condition on `free_page`: when the merge loop meets a FREE-flagged
    buddy of a smaller order, the allocator ends up listing a block that holds a page which is
    neither free nor being freed. */
module UnsafeFree {
  import opened Dyadic
  import opened PageMap
  import opened Partition
  import opened Freeing
  import opened CanonicalForm

  ghost predicate NotFree(D: seq<Owner>, x: nat) {
    x < |D| ==> !D[x].Free?
  }

  /** The block (q, j) holds a page that is not free in D. */
  ghost predicate Spills(D: seq<Owner>, q: nat, j: nat) {
    exists x: nat :: InBlock(q, j, x) && NotFree(D, x)
  }

  /** Every listed block consists of free pages of D. */
  ghost predicate ListsOnlyFree(m: Mem, D: seq<Owner>)
    requires |m.area| == PAGE_MAX_ORDER
  {
    forall j, q :: 0 <= j < PAGE_MAX_ORDER && q in m.area[j].list ==> !Spills(D, q, j)
  }

  /** After a wrong merge: the block (p, t) in hand spills; every other listed block is a block
      of D with its own order; blocks of D below p have not been touched. */
  ghost predicate Astray(m: Mem, D: seq<Owner>, p: nat, t: nat, order: nat) {
    && |m.area| == PAGE_MAX_ORDER && |m.pages| == |D| && p < |D|
    && t <= order <= TOP && m.pages[p].order == t && Aligned(p, t) && p + Pow2(t) <= |D|
    && D[p].Free? && D[p].head == p && D[p].order < t
    && p in m.area[t].list && Spills(D, p, t)
    && (forall j :: 0 <= j < PAGE_MAX_ORDER ==> NoDup(m.area[j].list))
    && (forall j: nat, q: nat :: j < PAGE_MAX_ORDER && q in m.area[j].list && (q != p || j != t)
          ==> FreeHead(D, q, j))
    && (forall q: nat, u: nat :: q < p && FreeHead(D, q, u) && u < PAGE_MAX_ORDER ==>
          q in m.area[u].list && m.pages[q].order == u)
    && (forall x: nat :: x < |D| && m.pages[x].free ==> D[x].Free? || D[x].Live?)
    && (forall x: nat :: x < |D| && D[x].Live? && D[x].head == x ==> !m.pages[x].free)
  }

  lemma SpillsGrow(D: seq<Owner>, p: nat, t: nat, q: nat, u: nat)
    requires Spills(D, p, t) && q <= p && p + Pow2(t) <= q + Pow2(u)
    ensures Spills(D, q, u)
  {
    var x: nat :| InBlock(p, t, x) && NotFree(D, x);
    assert InBlock(q, u, x);
  }

  /** The parent of a canonical free block spills. */
  lemma ParentSpills(D: seq<Owner>, b: nat, u: nat)
    requires Partitioned(D) && Canonical(D) && FreeHead(D, b, u) && u < TOP && Aligned(b, u)
    ensures Spills(D, Parent(b, u), u + 1)
  {
    HeadOwns(D, b);
    BuddyInRange(D, b, u);
    FreeBlocksAreMaximal(D, b, u);
    var q := Parent(b, u);
    var x :| q <= x < q + Pow2(u + 1) && !D[x].Free?;
    assert InBlock(q, u + 1, x) && NotFree(D, x);
  }

  /** The buddy that the loop inspects while astray. */
  lemma AstrayGuard(m: Mem, D: seq<Owner>, p: nat, t: nat, order: nat)
    requires Partitioned(D) && Astray(m, D, p, t, order) && order < TOP
    ensures var b := Buddy(p, t);
      && PageBuddy(p, t) == b && b + Pow2(t) <= |D| && b != p
      && (m.pages[b].free ==> D[b].Free? && D[b].head == b && D[b].order <= t)
  {
    PageBuddyIsBuddy(p, t);
    BuddyIsHead(D, p, t);
    BuddyFacts(p, t);
  }

  /** The block that the loop lists after merging (p, t) with a free buddy of order u spills. */
  lemma MergedSpills(D: seq<Owner>, p: nat, t: nat, u: nat)
    requires Partitioned(D) && Canonical(D) && t < TOP && Fits(D, p, t) && FreeHead(D, Buddy(p, t), u)
    requires (u <= t && Spills(D, p, t)) || (u < t && FreeHead(D, p, t))
    ensures var left := Parent(p, t);
      var k := if left == p then t + 1 else u + 1;
      Fits(D, left, k) && Spills(D, left, k)
  {
    var b, q := Buddy(p, t), Parent(p, t);
    BuddyFacts(p, t);
    BuddyInRange(D, p, t);
    AlignedDown(q, t + 1, u + 1);
    Pow2Monotone(u + 1, t + 1);
    if q == p {
      if FreeHead(D, p, t) { ParentSpills(D, p, t); } else { SpillsGrow(D, p, t, p, t + 1); }
    } else if u < t {
      AlignedDown(b, t, u);
      ParentSpills(D, b, u);
    } else {
      SpillsGrow(D, p, t, b, t + 1);
    }
  }

  /** One more turn keeps going astray. */
  lemma AstrayTurn(m: Mem, D: seq<Owner>, p: nat, t: nat, order: nat)
    requires Partitioned(D) && Canonical(D) && Astray(m, D, p, t, order) && order < TOP
    requires var b := Buddy(p, t); b < |D| && m.pages[b].free
    ensures var (m2, left) := Turned(m, p, Buddy(p, t));
      Astray(m2, D, left, m2.pages[left].order, order + 1)
  {
    hide Turned, Spills, Canonical;
    var b := Buddy(p, t);
    AstrayGuard(m, D, p, t, order);
    BuddyFacts(p, t);
    MergedSpills(D, p, t, D[b].order);
    if b < p { assert FreeHead(D, b, D[b].order); }
    hide Partitioned;
    TurnEffect(m, p, b);
  }

  /** `free_page_del` takes a page off the list of its order, if it is there. */
  lemma DelEffect(m: Mem, p: nat)
    requires |m.area| == PAGE_MAX_ORDER && p < |m.pages|
    requires forall j :: 0 <= j < PAGE_MAX_ORDER ==> NoDup(m.area[j].list)
    ensures var r := FreePageDel(m, p);
      && r.pages == m.pages && |r.area| == |m.area|
      && (forall j :: 0 <= j < PAGE_MAX_ORDER ==> NoDup(r.area[j].list))
      && (forall j, q :: 0 <= j < PAGE_MAX_ORDER ==>
           (q in r.area[j].list <==> q in m.area[j].list && !(q == p && j == m.pages[p].order)))
  {
    var k := m.pages[p].order;
    if k < PAGE_MAX_ORDER { WithoutFacts(m.area[k].list, p); }
  }

  /** What one turn does to the lists and to the page map, whatever state it starts from. */
  lemma TurnEffect(m: Mem, p: nat, b: nat)
    requires |m.area| == PAGE_MAX_ORDER && p < |m.pages| && b < |m.pages| && p != b
    requires forall j :: 0 <= j < PAGE_MAX_ORDER ==> NoDup(m.area[j].list)
    requires var left := if p < b then p else b;
      m.pages[p].order < PAGE_MAX_ORDER && m.pages[left].order < TOP
      && left !in m.area[m.pages[left].order + 1].list
    ensures var (r, left) := Turned(m, p, b);
      && (forall x :: 0 <= x < |m.pages| ==>
           && r.pages[x].free == m.pages[x].free
           && r.pages[x].order == m.pages[x].order + (if x == p || x == b then 1 else 0))
      && (forall j :: 0 <= j < PAGE_MAX_ORDER ==> NoDup(r.area[j].list))
      && (forall j, q :: 0 <= j < PAGE_MAX_ORDER ==>
           (q in r.area[j].list <==>
             (q == left && j == r.pages[left].order)
             || (q in m.area[j].list && !(q == p && j == m.pages[p].order) && !(q == b && j == m.pages[b].order))))
  {
    hide FreePageDel, MergePages;
    MergeEffect(m, p, b);
    DelEffect(m, p);
    DelEffect(FreePageDel(m, p), b);
  }

  /** The loop never comes back from astray: a block that spills stays listed. */
  lemma {:induction false} AstrayStays(m: Mem, D: seq<Owner>, p: nat, t: nat, order: nat)
    requires Partitioned(D) && Canonical(D) && Astray(m, D, p, t, order)
    ensures !ListsOnlyFree(MergeFreePage(m, p, order), D)
    decreases TOP - order
  {
    hide MergeFreePage, Turned;
    if order < TOP { AstrayGuard(m, D, p, t, order); }
    if order < TOP && m.pages[Buddy(p, t)].free {
      var b := Buddy(p, t);
      AstrayTurn(m, D, p, t, order);
      TurnUnfolds(m, p, b, order);
      var (m2, left) := Turned(m, p, b);
      AstrayStays(m2, D, left, m2.pages[left].order, order + 1);
    } else {
      LoopStops(m, p, order);
    }
  }

  /** The first wrong merge. */
  lemma FirstWrongMerge(m: Mem, D: seq<Owner>, p: nat, k: nat)
    requires Represents(m, D) && Partitioned(D) && Canonical(D) && k < TOP && Aligned(p, k) && FreeHead(D, p, k)
    requires var b := Buddy(p, k); b < |D| && m.pages[b].free && !FreeHead(D, b, k)
    ensures var (m2, left) := Turned(m, p, Buddy(p, k));
      Astray(m2, D, left, m2.pages[left].order, k + 1)
  {
    hide Turned, Canonical, Spills;
    var b := Buddy(p, k);
    LoopGuard(m, D, p, k);
    BuddyFacts(p, k);
    HeadOwns(D, p);
    MergedSpills(D, p, k, D[b].order);
    FlagsAndLists(m, D);
    hide Represents, Partitioned;
    TurnEffect(m, p, b);
  }

  lemma FlagsAndLists(m: Mem, D: seq<Owner>)
    requires Represents(m, D)
    ensures forall j: nat, q: nat :: j < PAGE_MAX_ORDER ==> (q in m.area[j].list <==> FreeHead(D, q, j))
    ensures forall j :: 0 <= j < PAGE_MAX_ORDER ==> NoDup(m.area[j].list)
    ensures forall q: nat, j: nat :: FreeHead(D, q, j) ==> m.pages[q].order == j
    ensures forall x: nat :: x < |D| && m.pages[x].free ==> D[x].Free? || D[x].Live?
    ensures forall x: nat :: x < |D| && D[x].Live? && D[x].head == x ==> !m.pages[x].free
  {
    forall j: nat, q: nat | j < PAGE_MAX_ORDER
      ensures NoDup(m.area[j].list) && (q in m.area[j].list <==> FreeHead(D, q, j))
    {
      assert AreaAgrees(m, D, j);
    }
    forall j | 0 <= j < PAGE_MAX_ORDER ensures NoDup(m.area[j].list) {
      assert AreaAgrees(m, D, j);
    }
    forall q: nat, j: nat | FreeHead(D, q, j) ensures m.pages[q].order == j {
      assert PageAgrees(m, D, q);
    }
    forall x: nat | x < |D|
      ensures m.pages[x].free ==> D[x].Free? || D[x].Live?
      ensures D[x].Live? && D[x].head == x ==> !m.pages[x].free
    {
      assert PageAgrees(m, D, x);
    }
  }

  /** If the walk up does not stop safely, the merge loop goes astray. */
  lemma {:induction false} UnsafeLoop(m: Mem, D: seq<Owner>, p: nat, k: nat)
    requires Represents(m, D) && Partitioned(D) && CanonicalBut(D, p)
    requires k <= TOP && Aligned(p, k) && FreeHead(D, p, k)
    requires !MergeStops(m, p, k)
    ensures !ListsOnlyFree(MergeFreePage(m, p, k), D)
    decreases TOP - k
  {
    hide MergeFreePage, Turned, Partitioned, CanonicalBut, Canonical, ListsOnlyFree, Joined;
    var b := Buddy(p, k);
    LoopGuard(m, D, p, k);
    TurnUnfolds(m, p, b, k);
    var (m2, left) := Turned(m, p, b);
    if FreeHead(D, b, k) {
      MergeTurn(m, D, p, k);
      var E := Joined(D, p, k);
      UnsafeLoop(m2, E, left, k + 1);
      JoinedSameFree(D, p, k);
      SameSpills(MergeFreePage(m2, left, k + 1), D, E);
    } else {
      NowCanonical(D, p, k);
      FirstWrongMerge(m, D, p, k);
      AstrayStays(m2, D, left, m2.pages[left].order, k + 1);
    }
  }

  lemma JoinedSameFree(D: seq<Owner>, p: nat, k: nat)
    requires Partitioned(D) && Mergeable(D, p, k)
    ensures SameFreePages(D, Joined(D, p, k))
  {
    JoinedPages(D, p, k);
  }

  lemma SameSpills(m: Mem, D: seq<Owner>, E: seq<Owner>)
    requires |m.area| == PAGE_MAX_ORDER && SameFreePages(D, E)
    ensures ListsOnlyFree(m, D) <==> ListsOnlyFree(m, E)
  {
    assert forall x :: NotFree(D, x) <==> NotFree(E, x);
    assert forall q, j :: Spills(D, q, j) <==> Spills(E, q, j);
  }

  lemma RepresentedListsOnlyFree(m: Mem, D: seq<Owner>)
    requires Represents(m, D) && Partitioned(D)
    ensures ListsOnlyFree(m, D)
  {
    forall j, q | 0 <= j < PAGE_MAX_ORDER && q in m.area[j].list ensures !Spills(D, q, j) {
      assert AreaAgrees(m, D, j);
      HeadOwns(D, q);
    }
  }

  /** The exact condition: freeing a live block lists only pages that were free or belong to
      that block if and only if the merge loop stops at a page that is not FREE. */
  lemma FreeIsSafeExactlyWhen(m: Mem, D: seq<Owner>, p: nat, k: nat)
    requires Represents(m, D) && Partitioned(D) && Canonical(D) && LiveHead(D, p, k)
    ensures k <= TOP && Aligned(p, k) && m.pages[p].order == k
    ensures ListsOnlyFree(FreePages(m, p), SetBlock(D, p, k, Free(p, k))) <==> MergeStops(m, p, k)
  {
    ReturnedFacts(m, D, p, k);
    var D1 := SetBlock(D, p, k, Free(p, k));
    if MergeStops(m, p, k) {
      SafeFree(m, D, p, k);
      CoalesceKeeps(D1, p, k);
      RepresentedListsOnlyFree(FreePages(m, p), Freed(D, p, k));
      SameSpills(FreePages(m, p), D1, Freed(D, p, k));
    } else {
      UnsafeLoop(Returned(m, p), D1, p, k);
    }
  }
}
