/** Who owns each page: the partition of the page map into unmanaged pages, free blocks and
    live blocks, and what it means for the page map and the free lists to represent it. */
module Partition {
  import opened Dyadic
  import opened PageMap

  datatype Owner = Unmanaged | Free(head: nat, order: nat) | Live(head: nat, order: nat)

  ghost predicate Fits(D: seq<Owner>, h: nat, k: nat) {
    k <= TOP && Aligned(h, k) && h + Pow2(k) <= |D|
  }

  /** Page x belongs to one aligned block, and every page of that block says so. */
  ghost predicate GoodAt(D: seq<Owner>, x: nat)
    requires x < |D|
  {
    !D[x].Unmanaged? ==>
      var h, k := D[x].head, D[x].order;
      Fits(D, h, k) && InBlock(h, k, x) && forall y :: h <= y < h + Pow2(k) ==> D[y] == D[x]
  }

  ghost predicate Partitioned(D: seq<Owner>) {
    Aligned(|D|, TOP) && forall x :: 0 <= x < |D| ==> GoodAt(D, x)
  }

  predicate FreeHead(D: seq<Owner>, p: nat, k: nat) {
    p < |D| && D[p] == Free(p, k)
  }

  predicate LiveHead(D: seq<Owner>, p: nat, k: nat) {
    p < |D| && D[p] == Live(p, k)
  }

  /** No two free buddies of equal order below the top order. */
  ghost predicate Canonical(D: seq<Owner>) {
    forall p: nat, k: nat :: k < TOP && FreeHead(D, p, k) && Aligned(p, k) ==> !FreeHead(D, Buddy(p, k), k)
  }

  /** The same, except that the block that starts at h may still be mergeable. */
  ghost predicate CanonicalBut(D: seq<Owner>, h: nat) {
    forall p: nat, k: nat :: k < TOP && FreeHead(D, p, k) && Aligned(p, k) && p != h && Buddy(p, k) != h
      ==> !FreeHead(D, Buddy(p, k), k)
  }

  ghost predicate PageAgrees(m: Mem, D: seq<Owner>, x: nat)
    requires |m.pages| == |D| && x < |D|
  {
    && (D[x].Unmanaged? ==> !m.pages[x].free)
    && (D[x].Free? && D[x].head == x ==> m.pages[x].free && m.pages[x].order == D[x].order)
    && (D[x].Live? && D[x].head == x ==> !m.pages[x].free && m.pages[x].order == D[x].order)
  }

  ghost predicate AreaAgrees(m: Mem, D: seq<Owner>, k: nat)
    requires |m.area| == PAGE_MAX_ORDER && k < PAGE_MAX_ORDER
  {
    && NoDup(m.area[k].list)
    && m.area[k].nrFree == |m.area[k].list|
    && forall p :: p in m.area[k].list <==> FreeHead(D, p, k)
  }

  /** The page map and the free lists hold exactly the partition D.  Flags and orders of
      pages inside a block are unconstrained: they may be stale. */
  ghost predicate Represents(m: Mem, D: seq<Owner>) {
    && |m.area| == PAGE_MAX_ORDER && |m.pages| == |D|
    && (forall x :: 0 <= x < |D| ==> PageAgrees(m, D, x))
    && (forall k :: 0 <= k < PAGE_MAX_ORDER ==> AreaAgrees(m, D, k))
  }

  ghost predicate PageDescribed(m: Mem, D: seq<Owner>, x: nat)
    requires |m.pages| == |D| && x < |D|
  {
    && (D[x].Free? && D[x].head == x ==> m.pages[x].free && m.pages[x].order == D[x].order)
    && (D[x].Live? && D[x].head == x ==> !m.pages[x].free && m.pages[x].order == D[x].order)
  }

  /** As `Represents`, but whatever flags the pages that nobody manages have. */
  ghost predicate Describes(m: Mem, D: seq<Owner>) {
    && |m.area| == PAGE_MAX_ORDER && |m.pages| == |D|
    && (forall x :: 0 <= x < |D| ==> PageDescribed(m, D, x))
    && (forall k :: 0 <= k < PAGE_MAX_ORDER ==> AreaAgrees(m, D, k))
  }

  /** No page that nobody manages is flagged FREE. */
  ghost predicate Clean(m: Mem, D: seq<Owner>) {
    |m.pages| == |D| && forall x :: 0 <= x < |D| && D[x].Unmanaged? ==> !m.pages[x].free
  }

  lemma CleanDescription(m: Mem, D: seq<Owner>)
    ensures Represents(m, D) <==> Describes(m, D) && Clean(m, D)
  {
    if |m.pages| == |D| {
      forall x: nat | x < |D|
        ensures PageAgrees(m, D, x) <==> PageDescribed(m, D, x) && (D[x].Unmanaged? ==> !m.pages[x].free)
      {
      }
    }
    hide PageAgrees, PageDescribed, AreaAgrees;
  }

  /** Every page of a live block leads to the head of that block. */
  ghost predicate HeadsFound(m: Mem, D: seq<Owner>)
    requires |m.pages| == |D|
  {
    forall x :: 0 <= x < |D| && D[x].Live? ==> m.pages[x].head == D[x].head
  }

  function SetBlock(D: seq<Owner>, p: nat, k: nat, o: Owner): (r: seq<Owner>)
    ensures |r| == |D|
    ensures forall x :: 0 <= x < |D| ==> r[x] == if InBlock(p, k, x) then o else D[x]
  {
    seq(|D|, x requires 0 <= x < |D| => if InBlock(p, k, x) then o else D[x])
  }

  /** A block that is a union of whole blocks and unmanaged pages may be given one owner. */
  lemma SetBlockPartitioned(D: seq<Owner>, p: nat, k: nat, o: Owner)
    requires Partitioned(D) && Fits(D, p, k)
    requires o == Free(p, k) || o == Live(p, k)
    requires forall x :: InBlock(p, k, x) && !D[x].Unmanaged? ==> D[x].order <= k
    ensures Partitioned(SetBlock(D, p, k, o))
  {
    var D' := SetBlock(D, p, k, o);
    forall x | 0 <= x < |D'| ensures GoodAt(D', x) {
      if !InBlock(p, k, x) && !D[x].Unmanaged? {
        assert GoodAt(D, x);
        var h, j := D[x].head, D[x].order;
        forall y | h <= y < h + Pow2(j) ensures D'[y] == D[x] {
          assert D[y] == D[x];
          if InBlock(p, k, y) {
            Laminar(h, j, p, k, y);
          }
        }
      }
    }
  }

  lemma HeadOwns(D: seq<Owner>, p: nat)
    requires Partitioned(D) && p < |D| && !D[p].Unmanaged?
    ensures var h, k := D[p].head, D[p].order;
      Fits(D, h, k) && InBlock(h, k, p) && D[h] == D[p] && forall y :: h <= y < h + Pow2(k) ==> D[y] == D[p]
  {
    assert GoodAt(D, p);
  }

  /** The first page of a buddy is never in the middle of a block: it is unmanaged or heads a
      block no larger than the buddy.  This is why stale flags of inner pages are never read. */
  lemma BuddyIsHead(D: seq<Owner>, p: nat, k: nat)
    requires Partitioned(D) && k < TOP && Fits(D, p, k)
    requires !D[p].Unmanaged? && D[p].order <= k && D[p].head == p
    ensures var b := Buddy(p, k);
      b + Pow2(k) <= |D| && (D[b].Unmanaged? || (D[b].head == b && D[b].order <= k))
  {
    BuddyInRange(D, p, k);
    var b := Buddy(p, k);
    if !D[b].Unmanaged? {
      HeadOwns(D, b);
      HeadOwns(D, p);
      var h, j := D[b].head, D[b].order;
      if InBlock(h, j, p) {
        assert D[p] == D[b];
        Pow2Monotone(j, k);
        BuddyFacts(p, k);
      } else {
        HeadInBuddy(p, k, h, j);
      }
    }
  }

  lemma BuddyInRange(D: seq<Owner>, p: nat, k: nat)
    requires Aligned(|D|, TOP) && k < TOP && Fits(D, p, k)
    ensures var b, q := Buddy(p, k), Parent(p, k);
      b + Pow2(k) <= |D| && q + Pow2(k + 1) <= |D|
  {
    BuddyFacts(p, k);
    var q := Parent(p, k);
    AlignedDown(|D|, TOP, k + 1);
    AlignedGap(q, |D|, k + 1);
  }
}
