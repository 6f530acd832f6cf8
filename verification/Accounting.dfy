/** The counters of the free areas count pages: the sum of nr_free * 2^order over all areas is
    the number of free pages, so that free pages plus live pages is the constant number of
    managed pages. */
module Accounting {
  import opened Dyadic
  import opened PageMap
  import opened Partition
  import opened Runs

  function FreeTotal(area: seq<FreeArea>, k: nat): nat
    requires k <= |area|
  {
    if k == 0 then 0 else FreeTotal(area, k - 1) + PagesIn(area[k - 1], k - 1)
  }

  function PagesIn(a: FreeArea, order: nat): nat {
    a.nrFree * Pow2(order)
  }

  function FreePagesOf(D: seq<Owner>): set<nat> {
    set x: nat | x < |D| && D[x].Free?
  }

  function LivePagesOf(D: seq<Owner>): set<nat> {
    set x: nat | x < |D| && D[x].Live?
  }

  function ManagedPagesOf(D: seq<Owner>): set<nat> {
    set x: nat | x < |D| && !D[x].Unmanaged?
  }

  function Interval(p: nat, n: nat): (s: set<nat>)
    ensures forall x :: x in s <==> p <= x < p + n
    ensures |s| == n
  {
    if n == 0 then {} else Interval(p, n - 1) + {p + n - 1}
  }

  ghost predicate InSome(l: seq<nat>, k: nat, x: nat) {
    exists p :: p in l && InBlock(p, k, x)
  }

  function Covered(l: seq<nat>, k: nat): (s: set<nat>)
  {
    if l == [] then {} else Interval(l[0], Pow2(k)) + Covered(l[1..], k)
  }

  lemma {:induction false} CoveredMembers(l: seq<nat>, k: nat)
    ensures forall x :: x in Covered(l, k) <==> InSome(l, k, x)
  {
    if l != [] {
      CoveredMembers(l[1..], k);
      assert l == [l[0]] + l[1..];
      forall x: nat ensures x in Covered(l, k) <==> InSome(l, k, x) {
        assert InBlock(l[0], k, x) <==> x in Interval(l[0], Pow2(k));
        if InSome(l, k, x) {
          var p :| p in l && InBlock(p, k, x);
          assert p == l[0] || p in l[1..];
        }
        if InSome(l[1..], k, x) {
          var p :| p in l[1..] && InBlock(p, k, x);
          assert p in l;
        }
      }
    }
  }

  lemma FirstApart(l: seq<nat>, k: nat)
    requires l != [] && NoDup(l) && forall p :: p in l ==> Aligned(p, k)
    ensures Interval(l[0], Pow2(k)) !! Covered(l[1..], k)
  {
    CoveredMembers(l[1..], k);
    forall x | x in Interval(l[0], Pow2(k)) ensures !InSome(l[1..], k, x) {
      if InSome(l[1..], k, x) {
        var i :| 0 <= i < |l[1..]| && InBlock(l[1..][i], k, x);
        Laminar(l[0], k, l[i + 1], k, x);
      }
    }
  }

  lemma OneMore(n: nat, c: nat)
    ensures (n + 1) * c == c + n * c
  {
  }

  lemma {:induction false} CoveredSize(l: seq<nat>, k: nat)
    requires NoDup(l) && forall p :: p in l ==> Aligned(p, k)
    ensures |Covered(l, k)| == |l| * Pow2(k)
  {
    hide Aligned, Pow2;
    if l != [] {
      assert forall p :: p in l[1..] ==> p in l;
      CoveredSize(l[1..], k);
      FirstApart(l, k);
      OneMore(|l[1..]|, Pow2(k));
    }
  }

  function FreeBelow(D: seq<Owner>, k: nat): (s: set<nat>)
    ensures forall x: nat :: x in s <==> x < |D| && D[x].Free? && D[x].order < k
  {
    set x: nat | x < |D| && D[x].Free? && D[x].order < k
  }

  lemma ListCovers(m: Mem, D: seq<Owner>, k: nat)
    requires Represents(m, D) && Partitioned(D) && k < PAGE_MAX_ORDER
    ensures var c := Covered(m.area[k].list, k);
      && |c| == PagesIn(m.area[k], k)
      && forall x: nat :: x in c <==> x < |D| && D[x].Free? && D[x].order == k
  {
    var l := m.area[k].list;
    assert AreaAgrees(m, D, k);
    forall p | p in l ensures Aligned(p, k) { HeadOwns(D, p); }
    CoveredSize(l, k);
    CoveredMembers(l, k);
    forall x: nat ensures InSome(l, k, x) <==> x < |D| && D[x].Free? && D[x].order == k {
      if InSome(l, k, x) {
        var p :| p in l && InBlock(p, k, x);
        HeadOwns(D, p);
      }
      if x < |D| && D[x].Free? && D[x].order == k {
        HeadOwns(D, x);
        assert FreeHead(D, D[x].head, k);
      }
    }
  }

  lemma FreeBelowStep(D: seq<Owner>, k: nat, c: set<nat>)
    requires forall x: nat :: x in c <==> x < |D| && D[x].Free? && D[x].order == k
    ensures |FreeBelow(D, k + 1)| == |FreeBelow(D, k)| + |c|
  {
    assert FreeBelow(D, k + 1) == FreeBelow(D, k) + c;
    assert FreeBelow(D, k) !! c;
  }

  lemma NoneBelowZero(D: seq<Owner>)
    ensures |FreeBelow(D, 0)| == 0
  {
    assert FreeBelow(D, 0) == {};
  }

  lemma AreaStep(m: Mem, D: seq<Owner>, k: nat)
    requires Represents(m, D) && Partitioned(D) && k < PAGE_MAX_ORDER
    ensures |FreeBelow(D, k + 1)| == |FreeBelow(D, k)| + PagesIn(m.area[k], k)
  {
    ListCovers(m, D, k);
    FreeBelowStep(D, k, Covered(m.area[k].list, k));
  }

  lemma {:induction false} FreeTotalCounts(m: Mem, D: seq<Owner>, k: nat)
    requires |m.area| == PAGE_MAX_ORDER && Represents(m, D) && Partitioned(D) && k <= PAGE_MAX_ORDER
    ensures FreeTotal(m.area, k) == |FreeBelow(D, k)|
  {
    hide Represents, Partitioned, PagesIn, FreeBelow;
    if k > 0 {
      FreeTotalCounts(m, D, k - 1);
      AreaStep(m, D, k - 1);
    } else {
      NoneBelowZero(D);
    }
  }

  /** The counters add up to the number of free pages. */
  lemma CountersCountFreePages(m: Mem, D: seq<Owner>)
    requires Represents(m, D) && Partitioned(D)
    ensures FreeTotal(m.area, PAGE_MAX_ORDER) == |FreePagesOf(D)|
  {
    FreeTotalCounts(m, D, PAGE_MAX_ORDER);
    forall x: nat | x < |D| && D[x].Free? ensures D[x].order < PAGE_MAX_ORDER { HeadOwns(D, x); }
    assert FreeBelow(D, PAGE_MAX_ORDER) == FreePagesOf(D);
  }

  /** Conservation over every run: what the counters report plus the live pages is constant. */
  lemma RunConservesPages(s: Sys, ops: seq<Op>)
    requires Inv(s) && AllAllowed(s, ops)
    ensures var t := Run(s, ops);
      FreeTotal(t.m.area, PAGE_MAX_ORDER) + |LivePagesOf(t.D)|
      == FreeTotal(s.m.area, PAGE_MAX_ORDER) + |LivePagesOf(s.D)|
  {
    var t := Run(s, ops);
    RunConserves(s, ops);
    CountersCountFreePages(s.m, s.D);
    CountersCountFreePages(t.m, t.D);
    Managed(s.D);
    Managed(t.D);
    assert ManagedPagesOf(s.D) == ManagedPagesOf(t.D);
  }

  lemma Managed(D: seq<Owner>)
    ensures |FreePagesOf(D)| + |LivePagesOf(D)| == |ManagedPagesOf(D)|
  {
    assert FreePagesOf(D) + LivePagesOf(D) == ManagedPagesOf(D);
    assert FreePagesOf(D) !! LivePagesOf(D);
  }
}
