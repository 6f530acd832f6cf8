/** A canonical partition is determined by its set of free pages: its free blocks are exactly
    the maximal dyadic blocks of free pages.  Hence the free lists do not remember history, and
    an aligned free run is never overlooked. */
module CanonicalForm {
  import opened Dyadic
  import opened PageMap
  import opened Partition

  ghost predicate AllFree(D: seq<Owner>, p: nat, k: nat) {
    p + Pow2(k) <= |D| && forall x :: p <= x < p + Pow2(k) ==> D[x].Free?
  }

  /** (p, k) is a dyadic block of free pages whose parent is not. */
  ghost predicate MaximalFree(D: seq<Owner>, p: nat, k: nat) {
    k <= TOP && Aligned(p, k) && AllFree(D, p, k) && (k < TOP ==> !AllFree(D, Parent(p, k), k + 1))
  }

  /** An owner of at least the block's order owns the whole aligned block. */
  lemma BlockInside(D: seq<Owner>, p: nat, k: nat, x: nat)
    requires Partitioned(D) && Fits(D, p, k) && InBlock(p, k, x) && D[x].Free? && D[x].order >= k
    ensures forall y :: p <= y < p + Pow2(k) ==> D[y] == D[x]
  {
    HeadOwns(D, x);
    Laminar(p, k, D[x].head, D[x].order, x);
  }

  lemma HeadOfOrder(D: seq<Owner>, p: nat, k: nat)
    requires Partitioned(D) && Fits(D, p, k) && D[p].Free? && D[p].order == k
    ensures FreeHead(D, p, k)
  {
    HeadOwns(D, p);
    Laminar(D[p].head, k, p, k, p);
  }

  /** Two free halves of an aligned block are never two blocks of their own. */
  lemma HalvesJoin(D: seq<Owner>, p: nat, k: nat)
    requires Partitioned(D) && Canonical(D) && Fits(D, p, k + 1) && Fits(D, p, k) && Fits(D, p + Pow2(k), k)
    requires D[p].Free? && D[p].order >= k && D[p + Pow2(k)].Free? && D[p + Pow2(k)].order >= k
    ensures D[p].order > k
  {
    var b := p + Pow2(k);
    if D[b].order > k {
      BlockInside(D, p, k + 1, b);
    } else {
      HeadOfOrder(D, b, k);
      assert Buddy(p, k) == b;
      if D[p].order == k { HeadOfOrder(D, p, k); }
    }
  }

  /** An aligned run of 2^k free pages lies inside one free block. */
  lemma {:induction false} AllFreeRun(D: seq<Owner>, p: nat, k: nat)
    requires Partitioned(D) && Canonical(D) && Fits(D, p, k) && AllFree(D, p, k)
    ensures D[p].order >= k
    ensures forall x :: p <= x < p + Pow2(k) ==> D[x] == D[p]
    decreases k
  {
    hide Partitioned, Canonical, Aligned;
    if k > 0 {
      var b := p + Pow2(k - 1);
      AlignedStep(p, k - 1);
      AllFreeRun(D, p, k - 1);
      AllFreeRun(D, b, k - 1);
      HalvesJoin(D, p, k - 1);
    }
    BlockInside(D, p, k, p);
  }

  /** The free blocks of a canonical partition are the maximal free dyadic blocks. */
  lemma FreeBlocksAreMaximal(D: seq<Owner>, p: nat, k: nat)
    requires Partitioned(D) && Canonical(D)
    ensures FreeHead(D, p, k) <==> MaximalFree(D, p, k)
  {
    if FreeHead(D, p, k) {
      HeadOwns(D, p);
      if k < TOP && AllFree(D, Parent(p, k), k + 1) {
        BuddyFacts(p, k);
        AllFreeRun(D, Parent(p, k), k + 1);
      }
    }
    if MaximalFree(D, p, k) {
      AllFreeRun(D, p, k);
      HeadOwns(D, p);
      var h, j := D[p].head, D[p].order;
      if j > k {
        BuddyFacts(p, k);
        Laminar(Parent(p, k), k + 1, h, j, p);
      } else {
        Laminar(p, k, h, j, p);
      }
    }
  }

  ghost predicate SameFreePages(D: seq<Owner>, E: seq<Owner>) {
    |D| == |E| && forall x :: 0 <= x < |D| ==> (D[x].Free? <==> E[x].Free?)
  }

  /** History independence: two states with the same free pages have the same free lists, as
      sets, and the same counters, whatever runs led to them. */
  lemma SameFreePagesSameLists(m: Mem, D: seq<Owner>, n: Mem, E: seq<Owner>, k: nat)
    requires Represents(m, D) && Partitioned(D) && Canonical(D)
    requires Represents(n, E) && Partitioned(E) && Canonical(E)
    requires SameFreePages(D, E) && k < PAGE_MAX_ORDER
    ensures multiset(m.area[k].list) == multiset(n.area[k].list)
    ensures m.area[k].nrFree == n.area[k].nrFree
  {
    assert AreaAgrees(m, D, k) && AreaAgrees(n, E, k);
    forall p: nat ensures p in m.area[k].list <==> p in n.area[k].list {
      FreeBlocksAreMaximal(D, p, k);
      FreeBlocksAreMaximal(E, p, k);
      assert MaximalFree(D, p, k) <==> MaximalFree(E, p, k);
    }
    SameMembers(m.area[k].list, n.area[k].list);
  }

  lemma {:induction false} SameMembers(l: seq<nat>, r: seq<nat>)
    requires NoDup(l) && NoDup(r)
    requires forall p :: p in l <==> p in r
    ensures multiset(l) == multiset(r) && |l| == |r|
  {
    MultiplicityOne(l);
    MultiplicityOne(r);
    assert multiset(l) == multiset(r);
    assert |multiset(l)| == |l| && |multiset(r)| == |r|;
  }

  lemma {:induction false} MultiplicityOne(l: seq<nat>)
    requires NoDup(l)
    ensures forall p :: multiset(l)[p] == if p in l then 1 else 0
  {
    if l != [] {
      MultiplicityOne(l[1..]);
      assert l == [l[0]] + l[1..];
    }
  }
}
