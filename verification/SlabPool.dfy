/** What every state of the object caches satisfies, and how attaching and detaching one slab
    keeps it. */
module SlabPool {
  import opened Arithmetic
  import opened Dyadic
  import opened PageMap
  import opened Partition
  import opened Slabs

  function SlotAddr(g: Geometry, p: nat, i: nat): nat {
    p * PAGE_SIZE + g.size * i
  }

  ghost predicate IsSlot(g: Geometry, p: nat, a: nat) {
    exists i: nat :: i < g.nums && a == SlotAddr(g, p, i)
  }

  /** Slots are large enough for a list node and fill the block exactly. */
  ghost predicate GoodGeometry(g: Geometry) {
    && KMALLOC_MIN_SIZE <= g.size && g.nums > 0 && g.order <= TOP
    && g.nums * g.size == Pow2(g.order) * PAGE_SIZE
  }

  /** A slab: a live block of the cache's order whose free list holds distinct slots, the other
      slots being in use. */
  ghost predicate GoodSlab(g: Geometry, c: nat, sl: Slab, D: seq<Owner>, p: nat) {
    && LiveHead(D, p, g.order) && sl.cache == c
    && NoDup(sl.freelist) && (forall a :: a in sl.freelist ==> IsSlot(g, p, a))
    && 0 < sl.inuse && sl.inuse + |sl.freelist| == g.nums
  }

  function SumFree(slabs: seq<Slab>, l: seq<nat>): nat
    requires forall p :: p in l ==> p < |slabs|
  {
    if l == [] then 0
    else
      assert l[0] in l && forall p :: p in l[1..] ==> p in l;
      |slabs[l[0]].freelist| + SumFree(slabs, l[1..])
  }

  /** The lists and counters of one cache: partial slabs have free and used slots, full slabs have
      no free slot, no slab is kept empty, and `free_objs` counts the free slots. */
  ghost predicate GoodLists(s: Pool, D: seq<Owner>, c: nat)
    requires c < |s.caches|
  {
    var ca := s.caches[c];
    && GoodGeometry(ca.geo) && NoDup(ca.partial) && NoDup(ca.full) && ca.free == [] && ca.freeSlabs == 0
    && (forall p :: p in ca.partial ==>
          p < |s.slabs| && GoodSlab(ca.geo, c, s.slabs[p], D, p) && s.slabs[p].freelist != [])
    && (forall p :: p in ca.full ==>
          p < |s.slabs| && GoodSlab(ca.geo, c, s.slabs[p], D, p) && s.slabs[p].freelist == [])
    && ca.freeObjs == SumFree(s.slabs, ca.partial)
  }

  ghost predicate PoolOk(s: Pool, D: seq<Owner>) {
    |s.slabs| == |D| && forall c :: 0 <= c < |s.caches| ==> GoodLists(s, D, c)
  }

  predicate HasSlab(s: Pool, c: nat, p: nat) {
    c < |s.caches| && (p in s.caches[c].partial || p in s.caches[c].full)
  }

  /** The object at address a is in use: a slot of a listed slab that is not on its free list. */
  ghost predicate InUse(s: Pool, c: nat, p: nat, a: nat) {
    HasSlab(s, c, p) && p < |s.slabs| && IsSlot(s.caches[c].geo, p, a) && a !in s.slabs[p].freelist
  }

  // --- slots ---------------------------------------------------------------------------

  /** The pages of an object belong to the block of its slab. */
  lemma ObjectInBlock(g: Geometry, p: nat, a: nat, b: nat)
    requires GoodGeometry(g) && IsSlot(g, p, a) && a <= b < a + g.size
    ensures InBlock(p, g.order, b / PAGE_SIZE)
  {
    hide Pow2;
    var i: nat :| i < g.nums && a == SlotAddr(g, p, i);
    SlotEnds(g.size, g.nums, i);
  }

  lemma SlotEnds(size: nat, nums: nat, i: nat)
    requires i < nums
    ensures 0 <= size * i && size * i + size <= nums * size
  {
    MulMonotone(i + 1, nums, size);
    assert size * i + size == (i + 1) * size;
  }

  /** Two different slots of a slab share no byte. */
  lemma SlotsApart(g: Geometry, p: nat, a: nat, a': nat)
    requires GoodGeometry(g) && IsSlot(g, p, a) && IsSlot(g, p, a') && a != a'
    ensures a + g.size <= a' || a' + g.size <= a
  {
    var i: nat :| i < g.nums && a == SlotAddr(g, p, i);
    var j: nat :| j < g.nums && a' == SlotAddr(g, p, j);
    if i < j { MulMonotone(i + 1, j, g.size); } else { MulMonotone(j + 1, i, g.size); }
    assert g.size * i + g.size == (i + 1) * g.size && g.size * j + g.size == (j + 1) * g.size;
    assert i == j ==> a == a';
  }

  lemma SlabOf(s: Pool, D: seq<Owner>, c: nat, p: nat)
    requires PoolOk(s, D) && HasSlab(s, c, p)
    ensures p < |D| && GoodGeometry(s.caches[c].geo) && GoodSlab(s.caches[c].geo, c, s.slabs[p], D, p)
  {
    assert GoodLists(s, D, c);
  }

  /** Objects in use, of whatever caches, share no byte. */
  lemma ObjectsDisjoint(s: Pool, D: seq<Owner>, c: nat, p: nat, a: nat, c': nat, p': nat, a': nat)
    requires PoolOk(s, D) && Partitioned(D) && InUse(s, c, p, a) && InUse(s, c', p', a') && a != a'
    ensures a + s.caches[c].geo.size <= a' || a' + s.caches[c'].geo.size <= a
  {
    SlabOf(s, D, c, p);
    SlabOf(s, D, c', p');
    if p == p' {
      SlotsApart(s.caches[c].geo, p, a, a');
    } else if a < a' < a + s.caches[c].geo.size {
      ObjectInBlock(s.caches[c].geo, p, a, a');
      ObjectInBlock(s.caches[c'].geo, p', a', a');
      HeadOwns(D, p);
      HeadOwns(D, p');
    } else if a' < a < a' + s.caches[c'].geo.size {
      ObjectInBlock(s.caches[c].geo, p, a, a);
      ObjectInBlock(s.caches[c'].geo, p', a', a);
      HeadOwns(D, p);
      HeadOwns(D, p');
    }
  }

  /** `bfree` finds its slab: address to page to compound head leads to the slab of the object. */
  lemma ObjectLeadsHome(s: Pool, D: seq<Owner>, m: Mem, c: nat, p: nat, a: nat)
    requires PoolOk(s, D) && Partitioned(D) && |m.pages| == |D| && HeadsFound(m, D) && InUse(s, c, p, a)
    ensures var x := a / PAGE_SIZE;
      x < |D| && m.pages[x].head == p && p < |s.slabs| && s.slabs[p].cache == c
  {
    SlabOf(s, D, c, p);
    ObjectInBlock(s.caches[c].geo, p, a, a);
    HeadOwns(D, p);
  }

  // --- sums ----------------------------------------------------------------------------

  lemma {:induction false} SumSame(slabs: seq<Slab>, slabs': seq<Slab>, l: seq<nat>)
    requires forall p :: p in l ==> p < |slabs| && p < |slabs'| && slabs[p].freelist == slabs'[p].freelist
    ensures SumFree(slabs, l) == SumFree(slabs', l)
  {
    if l != [] {
      assert l[0] in l && forall p :: p in l[1..] ==> p in l;
      SumSame(slabs, slabs', l[1..]);
    }
  }

  lemma {:induction false} SumWithout(slabs: seq<Slab>, l: seq<nat>, p: nat)
    requires forall q :: q in l ==> q < |slabs|
    ensures SumFree(slabs, Without(l, p)) == SumFree(slabs, l) - (if p in l then |slabs[p].freelist| else 0)
  {
    if l != [] && l[0] != p {
      assert forall q :: q in l[1..] ==> q in l;
      SumWithout(slabs, l[1..], p);
      assert Without(l, p)[1..] == Without(l[1..], p);
    }
  }

  // --- detaching and attaching a slab ---------------------------------------------------

  /** The pool without slab p of cache c. */
  function Detach(s: Pool, c: nat, p: nat): Pool
    requires c < |s.caches| && p < |s.slabs|
  {
    var ca := s.caches[c];
    var n := |s.slabs[p].freelist|;
    s.(caches := s.caches[c := ca.(partial := Without(ca.partial, p), full := Without(ca.full, p),
                                   freeObjs := if n <= ca.freeObjs then ca.freeObjs - n else 0)])
  }

  /** Slab p with contents sl joins the list of cache c where it belongs, in front. */
  function Attach(s: Pool, c: nat, p: nat, sl: Slab): Pool
    requires c < |s.caches| && p < |s.slabs|
  {
    var ca := s.caches[c];
    var ca' := if sl.freelist == [] then ca.(full := [p] + ca.full)
               else ca.(partial := [p] + ca.partial, freeObjs := ca.freeObjs + |sl.freelist|);
    Pool(s.caches[c := ca'], s.slabs[p := sl])
  }

  ghost predicate Unlisted(s: Pool, p: nat) {
    forall c :: 0 <= c < |s.caches| ==> !HasSlab(s, c, p)
  }

  lemma DetachOk(s: Pool, D: seq<Owner>, c: nat, p: nat)
    requires PoolOk(s, D) && HasSlab(s, c, p)
    ensures p < |s.slabs| && PoolOk(Detach(s, c, p), D) && Unlisted(Detach(s, c, p), p)
    ensures |s.slabs[p].freelist| <= s.caches[c].freeObjs
  {
    var ca := s.caches[c];
    assert GoodLists(s, D, c);
    WithoutFacts(ca.partial, p);
    WithoutFacts(ca.full, p);
    SumWithout(s.slabs, ca.partial, p);
    var t := Detach(s, c, p);
    forall d | 0 <= d < |t.caches| ensures GoodLists(t, D, d) && !HasSlab(t, d, p) {
      assert GoodLists(s, D, d);
    }
  }

  lemma AttachOk(s: Pool, D: seq<Owner>, c: nat, p: nat, sl: Slab)
    requires PoolOk(s, D) && c < |s.caches| && p < |s.slabs| && Unlisted(s, p)
    requires GoodSlab(s.caches[c].geo, c, sl, D, p)
    ensures PoolOk(Attach(s, c, p, sl), D) && HasSlab(Attach(s, c, p, sl), c, p)
  {
    var t := Attach(s, c, p, sl);
    forall d | 0 <= d < |t.caches|
      ensures GoodLists(t, D, d)
    {
      assert GoodLists(s, D, d) && !HasSlab(s, d, p);
      if d == c { AttachedHere(s, D, c, p, sl); } else { AttachedElsewhere(s, D, c, p, sl, d); }
    }
  }

  lemma AttachedHere(s: Pool, D: seq<Owner>, c: nat, p: nat, sl: Slab)
    requires c < |s.caches| && p < |s.slabs| && GoodLists(s, D, c) && !HasSlab(s, c, p)
    requires GoodSlab(s.caches[c].geo, c, sl, D, p)
    ensures GoodLists(Attach(s, c, p, sl), D, c)
  {
    hide GoodSlab, GoodGeometry;
    SumSame(s.slabs, Attach(s, c, p, sl).slabs, s.caches[c].partial);
  }

  lemma AttachedElsewhere(s: Pool, D: seq<Owner>, c: nat, p: nat, sl: Slab, d: nat)
    requires c < |s.caches| && p < |s.slabs| && d < |s.caches| && d != c
    requires GoodLists(s, D, d) && !HasSlab(s, d, p)
    ensures GoodLists(Attach(s, c, p, sl), D, d)
  {
    hide GoodSlab, GoodGeometry;
    SumSame(s.slabs, Attach(s, c, p, sl).slabs, s.caches[d].partial);
  }

  /** Which objects are in use after slab p of cache c has been exchanged for sl. */
  lemma ExchangeInUse(s: Pool, D: seq<Owner>, c: nat, p: nat, sl: Slab, d: nat, q: nat, a: nat)
    requires PoolOk(s, D) && HasSlab(s, c, p) && p < |s.slabs|
    ensures var t := Attach(Detach(s, c, p), c, p, sl);
      InUse(t, d, q, a) <==>
        if q == p then d == c && IsSlot(s.caches[c].geo, p, a) && a !in sl.freelist else InUse(s, d, q, a)
  {
    DetachOk(s, D, c, p);
    assert GoodLists(s, D, c);
    WithoutFacts(s.caches[c].partial, p);
    WithoutFacts(s.caches[c].full, p);
    if d < |s.caches| {
      assert !HasSlab(Detach(s, c, p), d, p);
      assert Attach(Detach(s, c, p), c, p, sl).caches[d].geo == s.caches[d].geo;
    }
  }

  // --- the steps of the source -------------------------------------------------------------

  /** `bmem_cache_setup`: the slots of a fresh slab in order. */
  function SlotList(g: Geometry, p: nat, n: nat): (l: seq<nat>)
    ensures |l| == n && forall i :: 0 <= i < n ==> l[i] == SlotAddr(g, p, i)
  {
    seq(n, i requires 0 <= i < n => SlotAddr(g, p, i))
  }

  /** `bmem_cache_grow` after `alloc_pages` has returned page p. */
  function Grown(s: Pool, c: nat, p: nat): Pool
    requires c < |s.caches| && p < |s.slabs|
  {
    var ca := s.caches[c];
    Pool(s.caches[c := ca.(totalSlabs := ca.totalSlabs + 1, free := [p] + ca.free,
                           freeObjs := ca.freeObjs + ca.geo.nums)],
         s.slabs[p := Slab(c, 0, SlotList(ca.geo, p, ca.geo.nums))])
  }

  /** `list_del` of the slab, whichever list of the cache it is on. */
  function OffLists(ca: Cache, p: nat): Cache {
    ca.(free := Without(ca.free, p), partial := Without(ca.partial, p), full := Without(ca.full, p))
  }

  /** `bmem_cache_fixup`. */
  function Fixup(ca: Cache, sl: Slab, p: nat): Cache {
    var off := OffLists(ca, p);
    if sl.inuse == ca.geo.nums then off.(full := [p] + off.full) else off.(partial := [p] + off.partial)
  }

  /** `bmem_cache_alloc_object` on a slab with a free slot. */
  function Given(s: Pool, c: nat, p: nat): Pool
    requires c < |s.caches| && p < |s.slabs| && s.slabs[p].freelist != []
  {
    var sl := s.slabs[p];
    var sl' := sl.(freelist := sl.freelist[1..], inuse := sl.inuse + 1);
    var ca := s.caches[c].(freeObjs := Decrement(s.caches[c].freeObjs));
    Pool(s.caches[c := Fixup(ca, sl', p)], s.slabs[p := sl'])
  }

  /** A 32-bit counter less n. */
  function Less(counter: nat, n: nat): nat {
    if counter >= n then counter - n else (counter - n) % B32
  }

  /** `__bfree`; whether the slab is empty now and goes back to the page allocator. */
  function TakenBack(s: Pool, c: nat, p: nat, a: nat): (Pool, bool)
    requires c < |s.caches| && p < |s.slabs|
  {
    var sl := s.slabs[p];
    var sl' := sl.(freelist := sl.freelist + [a], inuse := Decrement(sl.inuse));
    var ca := s.caches[c].(freeObjs := s.caches[c].freeObjs + 1);
    var off := OffLists(ca, p);
    if sl'.inuse == 0 then
      (Pool(s.caches[c := off.(freeObjs := Less(off.freeObjs, off.geo.nums))], s.slabs[p := sl']), true)
    else
      (Pool(s.caches[c := off.(partial := [p] + off.partial)], s.slabs[p := sl']), false)
  }

  lemma SlotListFacts(g: Geometry, p: nat)
    requires GoodGeometry(g)
    ensures var l := SlotList(g, p, g.nums);
      NoDup(l) && l != [] && (forall a :: a in l <==> IsSlot(g, p, a))
  {
    var l := SlotList(g, p, g.nums);
    forall i, j | 0 <= i < j < |l| ensures l[i] != l[j] {
      MulMonotone(i + 1, j, g.size);
      assert g.size * i + g.size == (i + 1) * g.size;
    }
    forall a | IsSlot(g, p, a) ensures a in l {
      var i: nat :| i < g.nums && a == SlotAddr(g, p, i);
      assert l[i] == a;
    }
  }

  /** Giving an object from a listed slab. */
  lemma GivenFromPartial(s: Pool, D: seq<Owner>, c: nat, p: nat)
    requires PoolOk(s, D) && c < |s.caches| && p in s.caches[c].partial
    ensures p < |s.slabs| && s.slabs[p].freelist != []
    ensures var sl := s.slabs[p];
      var sl' := sl.(freelist := sl.freelist[1..], inuse := sl.inuse + 1);
      Given(s, c, p) == Attach(Detach(s, c, p), c, p, sl') && GoodSlab(s.caches[c].geo, c, sl', D, p)
  {
    assert GoodLists(s, D, c);
    DetachOk(s, D, c, p);
    var ca := s.caches[c];
    assert p !in ca.full;
    assert Without(ca.free, p) == ca.free;
  }

  /** One more slab is counted; nothing else changes. */
  function Counted(s: Pool, c: nat): Pool
    requires c < |s.caches|
  {
    s.(caches := s.caches[c := s.caches[c].(totalSlabs := s.caches[c].totalSlabs + 1)])
  }

  lemma CountedOk(s: Pool, D: seq<Owner>, c: nat, p: nat)
    requires PoolOk(s, D) && c < |s.caches| && Unlisted(s, p)
    ensures PoolOk(Counted(s, c), D) && Unlisted(Counted(s, c), p)
  {
    var t := Counted(s, c);
    forall d | 0 <= d < |t.caches| ensures GoodLists(t, D, d) && !HasSlab(t, d, p) {
      assert GoodLists(s, D, d) && !HasSlab(s, d, p);
    }
  }

  lemma FreshSlab(s: Pool, D: seq<Owner>, c: nat, p: nat)
    requires PoolOk(s, D) && c < |s.caches| && LiveHead(D, p, s.caches[c].geo.order)
    ensures var g := s.caches[c].geo;
      g.nums > 0 && GoodSlab(g, c, Slab(c, 1, SlotList(g, p, g.nums)[1..]), D, p)
  {
    assert GoodLists(s, D, c);
    var g := s.caches[c].geo;
    SlotListFacts(g, p);
    var l := SlotList(g, p, g.nums);
    assert forall a :: a in l[1..] ==> a in l;
  }

  /** Giving the first object of a fresh slab. */
  lemma GivenFromGrown(s: Pool, D: seq<Owner>, c: nat, p: nat)
    requires PoolOk(s, D) && c < |s.caches| && p < |s.slabs| && Unlisted(s, p)
    requires LiveHead(D, p, s.caches[c].geo.order)
    ensures s.caches[c].geo.nums > 0
    ensures var g := s.caches[c].geo;
      var sl := Slab(c, 1, SlotList(g, p, g.nums)[1..]);
      && Given(Grown(s, c, p), c, p) == Attach(Counted(s, c), c, p, sl) && GoodSlab(g, c, sl, D, p)
      && PoolOk(Counted(s, c), D) && Unlisted(Counted(s, c), p)
  {
    CountedOk(s, D, c, p);
    FreshSlab(s, D, c, p);
    assert GoodLists(s, D, c) && !HasSlab(s, c, p);
    hide PoolOk, Unlisted, GoodSlab, GoodLists;
    NotListed(s.caches[c].partial, p);
    NotListed(s.caches[c].full, p);
    NothingFree(s, D, c, p);
  }

  lemma NothingFree(s: Pool, D: seq<Owner>, c: nat, p: nat)
    requires PoolOk(s, D) && c < |s.caches|
    ensures [p] + s.caches[c].free == [p]
  {
    assert GoodLists(s, D, c);
  }

  lemma {:induction false} NotListed(l: seq<nat>, p: nat)
    requires p !in l
    ensures Without(l, p) == l
  {
    if l != [] { NotListed(l[1..], p); }
  }

  /** Taking an object back. */
  lemma TakenBackOk(s: Pool, D: seq<Owner>, c: nat, p: nat, a: nat)
    requires PoolOk(s, D) && InUse(s, c, p, a)
    ensures var sl := s.slabs[p];
      var sl' := sl.(freelist := sl.freelist + [a], inuse := Decrement(sl.inuse));
      var (t, empty) := TakenBack(s, c, p, a);
      && (empty <==> sl.inuse == 1)
      && (!empty ==> t == Attach(Detach(s, c, p), c, p, sl') && GoodSlab(s.caches[c].geo, c, sl', D, p))
      && (empty ==> t == Detach(s, c, p).(slabs := s.slabs[p := sl']))
  {
    SlabOf(s, D, c, p);
    DetachOk(s, D, c, p);
    assert GoodLists(s, D, c);
    assert Without(s.caches[c].free, p) == [];
  }

  /** The pool does not depend on blocks that are not listed slabs. */
  lemma PoolFrame(s: Pool, D: seq<Owner>, D': seq<Owner>, slabs: seq<Slab>)
    requires PoolOk(s, D) && |D'| == |D| && |slabs| == |s.slabs|
    requires forall c: nat, p: nat :: HasSlab(s, c, p) ==> p < |D| && D'[p] == D[p] && slabs[p] == s.slabs[p]
    ensures PoolOk(s.(slabs := slabs), D')
  {
    var t := s.(slabs := slabs);
    forall c | 0 <= c < |t.caches| ensures GoodLists(t, D', c) {
      assert GoodLists(s, D, c);
      assert forall p :: p in s.caches[c].partial || p in s.caches[c].full ==> HasSlab(s, c, p);
      SumSame(s.slabs, slabs, s.caches[c].partial);
    }
  }

  function UsedSlots(s: Pool, c: nat, p: nat): set<nat>
    requires c < |s.caches| && p < |s.slabs|
  {
    set a | a in SlotList(s.caches[c].geo, p, s.caches[c].geo.nums) && a !in s.slabs[p].freelist
  }

  /** Each slab's free slots and used slots partition its slots: exactly `inuse` are in use. */
  lemma InuseCounts(s: Pool, D: seq<Owner>, c: nat, p: nat)
    requires PoolOk(s, D) && HasSlab(s, c, p)
    ensures p < |s.slabs| && |UsedSlots(s, c, p)| == s.slabs[p].inuse
    ensures forall a :: a in UsedSlots(s, c, p) <==> InUse(s, c, p, a)
  {
    SlabOf(s, D, c, p);
    var g, fl := s.caches[c].geo, s.slabs[p].freelist;
    var l := SlotList(g, p, g.nums);
    SlotListFacts(g, p);
    SetOfNoDup(l);
    SetOfNoDup(fl);
    assert Elements(fl) <= Elements(l);
    assert UsedSlots(s, c, p) == Elements(l) - Elements(fl);
  }

  function Elements(l: seq<nat>): set<nat> {
    set a | a in l
  }

  lemma {:induction false} SetOfNoDup(l: seq<nat>)
    requires NoDup(l)
    ensures |Elements(l)| == |l|
  {
    if l == [] {
      assert Elements(l) == {};
    } else {
      SetOfNoDup(l[1..]);
      assert l == [l[0]] + l[1..];
      assert l[0] !in Elements(l[1..]);
      assert Elements(l) == Elements(l[1..]) + {l[0]};
    }
  }
}
