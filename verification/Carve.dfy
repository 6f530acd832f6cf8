/** Carving boot memory into free blocks (`__page_map_free_bootmem`): the largest block that the
    rest of the region and the alignment of the address allow, over and over. */
module Carve {
  import opened Arithmetic
  import opened Dyadic
  import opened PageMap
  import opened Partition

  /** `fls`: one more than the index of the highest set bit; 0 for 0. */
  function Fls(v: nat): nat {
    if v == 0 then 0 else 1 + Fls(v / 2)
  }

  function RoundDownPow2(v: nat): nat
    requires v > 0
  {
    Pow2(Fls(v) - 1)
  }

  function Log2(v: nat): int {
    Fls(v) - 1
  }

  lemma {:induction false} FlsBounds(v: nat)
    requires v > 0
    ensures Fls(v) > 0 && Pow2(Fls(v) - 1) <= v < Pow2(Fls(v))
  {
    if v > 1 { FlsBounds(v / 2); } else { assert Fls(1) == 1 + Fls(0); }
  }

  lemma {:induction false} FlsOfPow2(k: nat)
    ensures Fls(Pow2(k)) == k + 1
  {
    if k > 0 {
      FlsOfPow2(k - 1);
      assert Pow2(k) / 2 == Pow2(k - 1);
    }
  }

  /** Block (p, k) is the largest dyadic block of order at most TOP that starts at p and ends by `end`. */
  ghost predicate Greedy(p: nat, k: nat, end: nat) {
    && k <= TOP && Aligned(p, k) && p + Pow2(k) <= end
    && (k < TOP && Aligned(p, k + 1) ==> p + Pow2(k + 1) > end)
  }

  /** Addresses are aligned for an order exactly when their page numbers are. */
  lemma PageAligned(p: nat, k: nat)
    ensures (p * PAGE_SIZE) % (PAGE_SIZE * Pow2(k)) == 0 <==> Aligned(p, k)
  {
    AlignedMeansMultiple(p, k);
    var m := Pow2(k);
    var d, r := p / m, p % m;
    assert p == m * d + r;
    assert p * PAGE_SIZE == (PAGE_SIZE * m) * d + PAGE_SIZE * r by {
      assert p * PAGE_SIZE == (m * d) * PAGE_SIZE + r * PAGE_SIZE;
      assert (PAGE_SIZE * m) * d == PAGE_SIZE * (m * d);
    }
    QuotientUnique(p * PAGE_SIZE, PAGE_SIZE * m, d, PAGE_SIZE * r);
  }

  /** The order the source starts from: the highest order that fits into the rest, capped. */
  lemma {:induction false} StartOrder(rest: nat, align: nat)
    requires rest > 0
    requires align == (if RoundDownPow2(rest * PAGE_SIZE) > Pow2(TOP) * PAGE_SIZE
                       then Pow2(TOP) * PAGE_SIZE else RoundDownPow2(rest * PAGE_SIZE))
    ensures var order := Log2(align) - PAGE_SHIFT;
      0 <= order <= TOP && Pow2(order) <= rest && (order < TOP ==> rest < Pow2(order + 1))
  {
    var v := rest * PAGE_SIZE;
    FlsBounds(v);
    var t := Fls(v) - 1;
    PageSizeIsPow2();
    Pow2Sum(TOP, PAGE_SHIFT);
    if t < PAGE_SHIFT { Pow2Monotone(t + 1, PAGE_SHIFT); }
    Pow2Sum(t - PAGE_SHIFT, PAGE_SHIFT);
    Pow2Sum(t - PAGE_SHIFT + 1, PAGE_SHIFT);
    if Pow2(t) > Pow2(TOP + PAGE_SHIFT) {
      if t < TOP + PAGE_SHIFT { Pow2Monotone(t, TOP + PAGE_SHIFT); }
      Pow2Monotone(TOP + PAGE_SHIFT, t);
      FlsOfPow2(TOP + PAGE_SHIFT);
    } else {
      if t > TOP + PAGE_SHIFT { Pow2Monotone(TOP + PAGE_SHIFT, t); }
      FlsOfPow2(t);
    }
  }

  /** `compound_page_init` on the pages of block (p, k). */
  function CompoundPageInit(m: Mem, p: nat, k: nat): (r: Mem)
    ensures |r.pages| == |m.pages| && r.area == m.area
  {
    m.(pages := seq(|m.pages|, x requires 0 <= x < |m.pages| =>
      if InBlock(p, k, x) then Page(true, k, p) else m.pages[x]))
  }

  /** The pages that nobody manages are as they were. */
  ghost predicate LeavesAlone(m: Mem, m': Mem, D: seq<Owner>) {
    && |m'.pages| == |m.pages| == |D|
    && forall x :: 0 <= x < |D| && D[x].Unmanaged? ==> m'.pages[x] == m.pages[x]
  }

  /** So nothing comes to be flagged FREE that was not. */
  lemma StaysClean(m: Mem, D: seq<Owner>, m': Mem, D': seq<Owner>)
    requires Describes(m', D') && LeavesAlone(m, m', D') && |D| == |D'|
    requires forall x :: 0 <= x < |D| && D'[x].Unmanaged? ==> D[x].Unmanaged?
    ensures Represents(m, D) ==> Represents(m', D')
    ensures Represents(m', D') <==> forall x :: 0 <= x < |D'| && D'[x].Unmanaged? ==> !m.pages[x].free
  {
    CleanDescription(m, D);
    CleanDescription(m', D');
    hide Describes, Represents;
  }

  /** One more block leaves alone what it may. */
  lemma LeavesMoreAlone(m: Mem, m1: Mem, D1: seq<Owner>, m2: Mem, D2: seq<Owner>)
    requires LeavesAlone(m, m1, D1) && LeavesAlone(m1, m2, D2)
    requires forall x :: 0 <= x < |D2| && D2[x].Unmanaged? ==> x < |D1| && D1[x].Unmanaged?
    ensures LeavesAlone(m, m2, D2)
  {
  }

  /** A block of unmanaged pages becomes a listed free block, whatever its pages looked like. */
  lemma CarveStep(m: Mem, D: seq<Owner>, p: nat, k: nat, m': Mem)
    requires Describes(m, D) && Partitioned(D) && Fits(D, p, k)
    requires forall x :: p <= x < p + Pow2(k) ==> D[x].Unmanaged?
    requires m' == FreePageAppend(CompoundPageInit(m, p, k), p, k)
    ensures var D' := SetBlock(D, p, k, Free(p, k));
      && Describes(m', D') && Partitioned(D')
      && LeavesAlone(m, m', D')
  {
    var D' := SetBlock(D, p, k, Free(p, k));
    SetBlockPartitioned(D, p, k, Free(p, k));
    forall x | 0 <= x < |D'|
      ensures PageDescribed(m', D', x)
    {
      assert PageDescribed(m, D, x);
    }
    assert AreaAgrees(m, D, k);
    AppendKeepsNoDup(m.area[k].list, p);
    forall j | 0 <= j < PAGE_MAX_ORDER
      ensures AreaAgrees(m', D', j)
    {
      assert AreaAgrees(m, D, j);
    }
  }

  /** Every list is in order of address. */
  ghost predicate Ascending(m: Mem) {
    forall k, i, j :: 0 <= k < |m.area| && 0 <= i < j < |m.area[k].list| ==> m.area[k].list[i] < m.area[k].list[j]
  }

  ghost predicate NoneFreeFrom(D: seq<Owner>, p: nat) {
    forall x :: p <= x < |D| ==> !D[x].Free?
  }

  /** Carving upwards leaves the lists in order of address, so that the lowest block is handed out
      first. */
  lemma CarveAscends(m: Mem, D: seq<Owner>, p: nat, k: nat, m': Mem)
    requires Describes(m, D) && Ascending(m) && NoneFreeFrom(D, p) && k < PAGE_MAX_ORDER
    requires m' == FreePageAppend(CompoundPageInit(m, p, k), p, k)
    ensures Ascending(m')
  {
    assert AreaAgrees(m, D, k);
    assert forall i :: 0 <= i < |m.area[k].list| ==> m.area[k].list[i] in m.area[k].list;
    assert m'.area == m.area[k := FreeArea(m.area[k].nrFree + 1, m.area[k].list + [p])];
  }

  lemma NothingListed(m: Mem, D: seq<Owner>)
    requires Describes(m, D) && NoneFreeFrom(D, 0)
    ensures Ascending(m)
  {
    forall k | 0 <= k < PAGE_MAX_ORDER
      ensures m.area[k].list == []
    {
      assert AreaAgrees(m, D, k);
      NoEntries(m.area[k].list);
    }
  }

  lemma AppendKeepsNoDup(l: seq<nat>, p: nat)
    requires NoDup(l) && p !in l
    ensures NoDup(l + [p]) && forall x :: x in l + [p] <==> x in l || x == p
  {
  }

  /** The free blocks of pages [first, end) are greedy. */
  ghost predicate GreedyFrom(D: seq<Owner>, first: nat, last: nat, end: nat) {
    forall p: nat, k: nat :: first <= p < last && FreeHead(D, p, k) ==> Greedy(p, k, end)
  }

  /** A greedy block next to greedy blocks of the same region never has a free buddy. */
  lemma CarveCanonical(D: seq<Owner>, first: nat, p: nat, k: nat, end: nat)
    requires Partitioned(D) && Canonical(D) && Fits(D, p, k) && first <= p && end <= |D|
    requires first > 0 ==> !D[first - 1].Free?
    requires end < |D| ==> !D[end].Free?
    requires forall x :: p <= x < end ==> D[x].Unmanaged?
    requires Greedy(p, k, end) && GreedyFrom(D, first, p, end)
    ensures Canonical(SetBlock(D, p, k, Free(p, k)))
  {
    var D' := SetBlock(D, p, k, Free(p, k));
    if k < TOP {
      var b := Buddy(p, k);
      BuddyFacts(p, k);
      BuddyInRange(D, p, k);
      if b < first {
        assert InBlock(b, k, first - 1);
        if FreeHead(D, b, k) { HeadOwns(D, b); }
      } else if b < p {
        assert !Greedy(b, k, end);
      }
      assert !FreeHead(D, b, k);
    }
    forall x: nat, j: nat | j < TOP && FreeHead(D', x, j) && Aligned(x, j)
      ensures !FreeHead(D', Buddy(x, j), j)
    {
      BuddyFacts(x, j);
    }
  }

  lemma GreedyGrows(D: seq<Owner>, first: nat, p: nat, k: nat, end: nat)
    requires GreedyFrom(D, first, p, end) && Greedy(p, k, end) && first <= p
    ensures GreedyFrom(SetBlock(D, p, k, Free(p, k)), first, p + Pow2(k), end)
  {
  }
}
