/** Concrete states.  Every partition is held by some memory, so the theorems about represented
    states are about something; and a few show what goes wrong where the exact
    conditions fail. */
module Witnesses {
  import opened Wrappers
  import opened Dyadic
  import opened PageMap
  import opened Partition
  import opened Freeing
  import opened UnsafeFree
  import opened Allocating
  import opened Runs

  function HeadsOf(D: seq<Owner>, k: nat, n: nat): (l: seq<nat>)
    requires n <= |D|
    ensures forall p :: p in l ==> p < n
  {
    if n == 0 then []
    else if D[n - 1] == Free(n - 1, k) then HeadsOf(D, k, n - 1) + [n - 1]
    else HeadsOf(D, k, n - 1)
  }

  lemma {:induction false} HeadsOfFacts(D: seq<Owner>, k: nat, n: nat)
    requires n <= |D|
    ensures NoDup(HeadsOf(D, k, n))
    ensures forall p: nat :: p in HeadsOf(D, k, n) <==> p < n && D[p] == Free(p, k)
  {
    if n > 0 { HeadsOfFacts(D, k, n - 1); }
  }

  /** A memory that holds the partition D. */
  function StateOf(D: seq<Owner>): Mem {
    Mem(seq(|D|, x requires 0 <= x < |D| =>
          if D[x].Unmanaged? then Page(false, 0, 0)
          else Page(D[x].Free? && D[x].head == x, D[x].order, D[x].head)),
        seq(PAGE_MAX_ORDER, k requires 0 <= k < PAGE_MAX_ORDER =>
          FreeArea(|HeadsOf(D, k, |D|)|, HeadsOf(D, k, |D|))))
  }

  lemma EveryPartitionIsHeld(D: seq<Owner>)
    ensures Represents(StateOf(D), D) && HeadsFound(StateOf(D), D)
  {
    var m := StateOf(D);
    forall k | 0 <= k < PAGE_MAX_ORDER ensures AreaAgrees(m, D, k) {
      HeadsOfFacts(D, k, |D|);
    }
    forall x | 0 <= x < |D| ensures PageAgrees(m, D, x) {
    }
  }

  /** 256 pages of which four, from page 16 on, are given. */
  function Around16(a: Owner, b: Owner, c: Owner, d: Owner, e: Owner): (D: seq<Owner>)
    ensures |D| == 256
    ensures D[16] == a && D[17] == b && D[18] == c && D[19] == d && D[20] == e
    ensures forall x :: 0 <= x < 256 && !(16 <= x <= 20) ==> D[x] == Unmanaged
  {
    seq(256, x => if x == 16 then a else if x == 17 then b else if x == 18 then c else if x == 19 then d
                  else if x == 20 then e else Unmanaged)
  }

  lemma Orders()
    ensures Pow2(0) == 1 && Pow2(1) == 2 && Pow2(2) == 4
    ensures Aligned(16, 3) && Aligned(16, 2) && Aligned(16, 1) && Aligned(18, 1) && !Aligned(18, 2)
    ensures Aligned(20, 2) && !Aligned(17, 1) && !Aligned(19, 1) && !Aligned(20, 3)
    ensures Aligned(256, TOP)
  {
    assert Aligned(2, 0) && Aligned(4, 1) && Aligned(8, 2);
    assert Aligned(128, 7) by { assert Aligned(16, 4); assert Aligned(64, 6) by { assert Aligned(32, 5); } }
  }

  /** Pages 16 and 18 free, 17 and 19 live: freeing 17 lists the live page 19. */
  lemma SwallowsALivePage()
    ensures var D := Around16(Free(16, 0), Live(17, 0), Free(18, 0), Live(19, 0), Unmanaged);
      var m := StateOf(D);
      && Represents(m, D) && Partitioned(D) && Canonical(D) && LiveHead(D, 17, 0)
      && m.pages[17].order == 0
      && !ListsOnlyFree(FreePages(m, 17), SetBlock(D, 17, 0, Free(17, 0)))
  {
    var D := Around16(Free(16, 0), Live(17, 0), Free(18, 0), Live(19, 0), Unmanaged);
    var m := StateOf(D);
    Orders();
    EveryPartitionIsHeld(D);
    AlternatePages(D);
    assert PageAgrees(m, D, 16) && PageAgrees(m, D, 18);
    hide Around16, StateOf, Partitioned, Canonical, Represents;
    assert Parent(17, 0) == 16 && Buddy(17, 0) == 16 && Buddy(16, 1) == 18;
    assert !MergeStops(m, 16, 1);
    FreeIsSafeExactlyWhen(m, D, 17, 0);
  }

  lemma AlternatePages(D: seq<Owner>)
    requires D == Around16(Free(16, 0), Live(17, 0), Free(18, 0), Live(19, 0), Unmanaged)
    ensures Partitioned(D) && Canonical(D) && LiveHead(D, 17, 0)
  {
    Orders();
    assert Buddy(16, 0) == 17 && Buddy(18, 0) == 19;
  }

  /** A region of five pages carved into blocks of four and of one: once the block of four has
      been handed out, freeing it lists a block of eight, three pages of which nobody manages. */
  lemma SwallowsUnmanagedPages()
    ensures var D := Around16(Live(16, 2), Live(16, 2), Live(16, 2), Live(16, 2), Free(20, 0));
      var m := StateOf(D);
      && Represents(m, D) && Partitioned(D) && Canonical(D) && LiveHead(D, 16, 2)
      && m.pages[16].order == 2
      && !ListsOnlyFree(FreePages(m, 16), SetBlock(D, 16, 2, Free(16, 2)))
  {
    var D := Around16(Live(16, 2), Live(16, 2), Live(16, 2), Live(16, 2), Free(20, 0));
    var m := StateOf(D);
    Orders();
    EveryPartitionIsHeld(D);
    FourAndOne(D);
    assert PageAgrees(m, D, 20);
    hide Around16, StateOf, Partitioned, Canonical, Represents;
    assert Buddy(16, 2) == 20;
    assert !MergeStops(m, 16, 2);
    FreeIsSafeExactlyWhen(m, D, 16, 2);
  }

  lemma FourAndOne(D: seq<Owner>)
    requires D == Around16(Live(16, 2), Live(16, 2), Live(16, 2), Live(16, 2), Free(20, 0))
    ensures Partitioned(D) && Canonical(D) && LiveHead(D, 16, 2)
  {
    Orders();
    assert Buddy(20, 0) == 21;
  }

  /** Pages 16 and 17 live on their own, block 18 of order 1 free: allocating order 1 makes page
      17 lead to page 16. */
  lemma MisleadsALivePage()
    ensures var D := Around16(Live(16, 0), Live(17, 0), Free(18, 1), Free(18, 1), Unmanaged);
      var m := StateOf(D);
      && Represents(m, D) && Partitioned(D) && Canonical(D) && WellListed(m) && HeadsFound(m, D)
      && var (m', r) := AllocPages(m, 1);
         r == Some(18) && |m'.pages| == |D| && m'.pages[17].head == 16 && LiveHead(D, 17, 0)
  {
    var D := Around16(Live(16, 0), Live(17, 0), Free(18, 1), Free(18, 1), Unmanaged);
    var m := StateOf(D);
    Orders();
    EveryPartitionIsHeld(D);
    TwoAndPair(D);
    RepresentsWellListed(m, D);
    assert AreaAgrees(m, D, 0) && AreaAgrees(m, D, 1) && FreeHead(D, 18, 1);
    assert m.area[1].list != [] && m.area[1].list[0] in m.area[1].list;
    hide Around16, StateOf, Partitioned, Canonical, Represents, HeadsFound;
    assert FirstOrder(m, 1) == 1;
    TakeRepresents(m, D, 1, 1);
  }

  lemma TwoAndPair(D: seq<Owner>)
    requires D == Around16(Live(16, 0), Live(17, 0), Free(18, 1), Free(18, 1), Unmanaged)
    ensures Partitioned(D) && Canonical(D) && LiveHead(D, 17, 0) && Buddy(18, 1) == 16
    ensures forall p: nat, k: nat :: FreeHead(D, p, k) ==> p == 18 && k == 1
  {
    Orders();
    assert Buddy(18, 1) == 16;
  }

  /** A page that nobody manages, flagged FREE since nobody cleared its record, next to a live page
      on its own: freeing that page lists both. */
  lemma StaleFlagIsSwallowed()
    ensures var D := Around16(Live(16, 0), Unmanaged, Unmanaged, Unmanaged, Unmanaged);
      var m := WithStaleFlag(StateOf(D));
      && Describes(m, D) && Partitioned(D) && Canonical(D) && LiveHead(D, 16, 0) && !Clean(m, D)
      && m.pages[16].order == 0
      && !ListsOnlyFree(FreePages(m, 16), SetBlock(D, 16, 0, Free(16, 0)))
  {
    var D := Around16(Live(16, 0), Unmanaged, Unmanaged, Unmanaged, Unmanaged);
    Orders();
    EveryPartitionIsHeld(D);
    CleanDescription(StateOf(D), D);
    var m := WithStaleFlag(StateOf(D));
    StaleIsDescribed(StateOf(D), D);
    assert forall p: nat, k: nat :: !FreeHead(D, p, k);
    MergesStale(m, D);
    assert m.pages[17].free && D[17].Unmanaged?;
    assert InBlock(16, 1, 17) && SetBlock(D, 16, 0, Free(16, 0))[17] == Unmanaged;
  }

  function WithStaleFlag(m: Mem): (r: Mem)
    requires |m.pages| > 17
  {
    m.(pages := m.pages[17 := Page(true, 0, 0)])
  }

  lemma StaleIsDescribed(m: Mem, D: seq<Owner>)
    requires Describes(m, D) && |m.pages| > 17 && D[17].Unmanaged?
    ensures Describes(WithStaleFlag(m), D)
  {
    var r := WithStaleFlag(m);
    forall x | 0 <= x < |D|
      ensures PageDescribed(r, D, x)
    {
      assert PageDescribed(m, D, x);
    }
    forall k | 0 <= k < PAGE_MAX_ORDER
      ensures AreaAgrees(r, D, k)
    {
      assert AreaAgrees(m, D, k);
    }
  }

  lemma ReturnedToEmpty(m: Mem, D: seq<Owner>, p: nat)
    requires Describes(m, D) && p < |m.pages| && m.pages[p].order == 0
    requires forall q: nat, k: nat :: !FreeHead(D, q, k)
    ensures var r := Returned(m, p);
      && r.pages == m.pages[p := m.pages[p].(free := true)] && |r.area| == PAGE_MAX_ORDER
      && (forall j :: 0 <= j < PAGE_MAX_ORDER ==> NoDup(r.area[j].list)) && p !in r.area[1].list
  {
    forall k | 0 <= k < PAGE_MAX_ORDER
      ensures NoDup(m.area[k].list) && m.area[k].nrFree == |m.area[k].list| && p !in m.area[k].list
    {
      assert AreaAgrees(m, D, k);
    }
    AddFacts(m, p, 0);
    hide FreePageAdd;
  }

  lemma MergesStale(m: Mem, D: seq<Owner>)
    requires Describes(m, D) && |m.pages| > 18 && m.pages[16].order == 0 && m.pages[17].free && !m.pages[18].free
    requires forall p: nat, k: nat :: !FreeHead(D, p, k)
    ensures 16 in FreePages(m, 16).area[1].list
  {
    Orders();
    PageBuddyIsBuddy(16, 0);
    PageBuddyIsBuddy(16, 1);
    ReturnedToEmpty(m, D, 16);
    var m1 := Returned(m, 16);
    assert FreePages(m, 16) == MergeFreePage(m1, 16, 0);
    hide Describes, MergeFreePage, Turned, PageBuddy, FreePages, Returned;
    TurnUnfolds(m1, 16, 17, 0);
    TurnEffect(m1, 16, 17);
    LoopStops(Turned(m1, 16, 17).0, 16, 1);
  }

  /** Every state in which four live pages fill an aligned block of four leads there: two safe
      frees, and the third free is unsafe. */
  lemma ThirdFreeIsUnsafe(s: Sys, p: nat)
    requires Inv(s) && Aligned(p, 2)
    requires LiveHead(s.D, p, 0) && LiveHead(s.D, p + 1, 0) && LiveHead(s.D, p + 2, 0) && LiveHead(s.D, p + 3, 0)
    ensures AllAllowed(s, [Release(p + 2), Release(p)])
    ensures var t := Run(s, [Release(p + 2), Release(p)]);
      && LiveHead(t.D, p + 1, 0) && LiveHead(t.D, p + 3, 0) && !Allowed(t, Release(p + 1))
  {
    QuadBuddies(p);
    hide Represents, Partitioned, Canonical, MergeStops, Freed, FreePages, Buddy, Parent, Aligned;
    var ops := [Release(p + 2), Release(p)];
    LoneFree(s, p + 2, p + 3);
    var s1 := Step(s, ops[0]);
    LoneFree(s1, p, p + 1);
    var s2 := Step(s1, Release(p));
    TwoSteps(s, ops[0], ops[1]);
    SplitPairIsUnsafe(s2, p);
  }

  lemma TwoSteps(s: Sys, a: Op, b: Op)
    requires Inv(s) && Allowed(s, a) && Allowed(Step(s, a), b)
    ensures AllAllowed(s, [a, b]) && Run(s, [a, b]) == Step(Step(s, a), b)
  {
    hide Inv, Step, Allowed;
    var s1 := Step(s, a);
    assert [a, b][1..] == [b] && [b][1..] == [];
    assert AllAllowed(Step(s1, b), []);
    assert AllAllowed(s1, [b]) && Run(s1, [b]) == Step(s1, b);
  }

  lemma QuadBuddies(p: nat)
    requires Aligned(p, 2)
    ensures Aligned(p, 0) && Aligned(p, 1) && Aligned(p + 1, 0) && Aligned(p + 2, 0)
    ensures Buddy(p, 0) == p + 1 && Buddy(p + 2, 0) == p + 3 && Buddy(p + 1, 0) == p
    ensures Parent(p + 1, 0) == p && Buddy(p, 1) == p + 2
  {
    AlignedStep(p, 1);
    AlignedStep(p, 0);
    AlignedStep(p + 2, 0);
    assert Pow2(1) == 2 && Pow2(0) == 1;
  }

  lemma SplitPairIsUnsafe(s: Sys, p: nat)
    requires Inv(s) && Aligned(p, 2) && FreeHead(s.D, p, 0) && FreeHead(s.D, p + 2, 0) && LiveHead(s.D, p + 1, 0)
    ensures !Allowed(s, Release(p + 1))
  {
    QuadBuddies(p);
    assert PageAgrees(s.m, s.D, p) && PageAgrees(s.m, s.D, p + 2);
    assert !MergeStops(s.m, p, 1);
  }

  /** A page whose buddy is a live page comes back as a free block of its own. */
  lemma LoneFree(s: Sys, p: nat, b: nat)
    requires Inv(s) && LiveHead(s.D, p, 0) && LiveHead(s.D, b, 0) && Aligned(p, 0) && Buddy(p, 0) == b
    ensures Allowed(s, Release(p)) && Step(s, Release(p)).D == s.D[p := Free(p, 0)]
  {
    assert PageAgrees(s.m, s.D, b);
    assert MergeStops(s.m, p, 0);
    var D1 := SetBlock(s.D, p, 0, Free(p, 0));
    BuddyFacts(p, 0);
    assert Coalesce(D1, p, 0) == D1;
    assert D1 == s.D[p := Free(p, 0)];
  }
}
