/** The page map and the free areas of the page allocator, and what each step of
    src/mm/page_alloc.c does to them, written as functions on values.  The class in
    PageAlloc.dfy runs the same steps in place and is proved equal to these functions. */
module PageMap {
  import opened Dyadic

  const PAGE_SHIFT: nat := 12
  const PAGE_SIZE: nat := 4096
  const PAGE_MAX_ORDER: nat := 9
  const TOP: nat := PAGE_MAX_ORDER - 1
  const UINT_MAX: nat := 0xFFFF_FFFF

  /** One `struct page`: the FREE flag, the order and the compound head (as a page number). */
  datatype Page = Page(free: bool, order: nat, head: nat)

  /** One `struct free_area`: the counter and the ring of block heads, first entry first. */
  datatype FreeArea = FreeArea(nrFree: nat, list: seq<nat>)

  datatype Mem = Mem(pages: seq<Page>, area: seq<FreeArea>)

  // --- page.h --------------------------------------------------------------

  /** `page_buddy`: through physical addresses, an exclusive or, and a pointer difference. */
  function PageBuddy(page: nat, order: nat): (b: int)
  {
    var paddr := page * PAGE_SIZE;
    var ppfn := paddr / PAGE_SIZE;
    var bpfn := Xor(paddr, Pow2(order) * PAGE_SIZE) / PAGE_SIZE;
    var diff := if bpfn < ppfn then ppfn - bpfn else bpfn - ppfn;
    if ppfn < bpfn then page + diff else page - diff
  }

  lemma PageSizeIsPow2()
    ensures Pow2(PAGE_SHIFT) == PAGE_SIZE
  {
    assert Pow2(4) == 16;
    assert Pow2(8) == 16 * Pow2(4);
    assert Pow2(12) == 16 * Pow2(8);
  }

  lemma PageBuddyIsBuddy(page: nat, order: nat)
    requires Aligned(page, order)
    ensures PageBuddy(page, order) == Buddy(page, order)
  {
    var paddr, mask := page * PAGE_SIZE, Pow2(order) * PAGE_SIZE;
    var b := Buddy(page, order);
    assert Xor(paddr, mask) == b * PAGE_SIZE by {
      PageSizeIsPow2();
      XorShift(page, Pow2(order), PAGE_SHIFT);
      XorIsBuddy(page, order);
    }
    assert (b * PAGE_SIZE) / PAGE_SIZE == b;
    assert paddr / PAGE_SIZE == page;
  }

  // --- lists -----------------------------------------------------------------

  /** The ring without p; `list_del` of an entry that is on no ring leaves every ring alone. */
  function Without(l: seq<nat>, p: nat): (r: seq<nat>)
    ensures forall x :: x in r ==> x in l
  {
    if l == [] then [] else if l[0] == p then l[1..] else [l[0]] + Without(l[1..], p)
  }

  ghost predicate NoDup(l: seq<nat>) {
    forall i, j :: 0 <= i < j < |l| ==> l[i] != l[j]
  }

  lemma NoEntries(l: seq<nat>)
    ensures (forall p :: p !in l) ==> l == []
  {
    assert l == [] || l[0] in l;
  }

  /** Deleting an entry keeps the order of the others. */
  lemma {:induction false} WithoutOne(a: seq<nat>, p: nat, b: seq<nat>)
    requires p !in a
    ensures Without(a + [p] + b, p) == a + b
  {
    var l := a + [p] + b;
    if a == [] {
      assert l[1..] == b;
    } else {
      assert a[0] in a && l[1..] == a[1..] + [p] + b;
      WithoutOne(a[1..], p, b);
    }
  }

  lemma {:induction false} WithoutFacts(l: seq<nat>, p: nat)
    requires NoDup(l)
    ensures NoDup(Without(l, p)) && p !in Without(l, p)
    ensures forall x :: x != p ==> (x in Without(l, p) <==> x in l)
    ensures |Without(l, p)| == |l| - (if p in l then 1 else 0)
  {
    if l != [] {
      WithoutFacts(l[1..], p);
      var w := Without(l[1..], p);
      assert l == [l[0]] + l[1..];
      if l[0] != p {
        assert l[0] !in w;
      }
    }
  }

  // --- free areas --------------------------------------------------------------

  function Decrement(n: nat): nat {
    if n == 0 then UINT_MAX else n - 1
  }

  function FreePageAdd(m: Mem, p: nat, order: nat): Mem
    requires order < |m.area|
  {
    m.(area := m.area[order := FreeArea(m.area[order].nrFree + 1, [p] + m.area[order].list)])
  }

  function FreePageAppend(m: Mem, p: nat, order: nat): Mem
    requires order < |m.area|
  {
    m.(area := m.area[order := FreeArea(m.area[order].nrFree + 1, m.area[order].list + [p])])
  }

  /** `free_page_del`; an order outside the table would touch memory outside this state. */
  function FreePageDel(m: Mem, p: nat): Mem
    requires p < |m.pages|
  {
    var k := m.pages[p].order;
    if k < |m.area|
    then m.(area := m.area[k := FreeArea(Decrement(m.area[k].nrFree), Without(m.area[k].list, p))])
    else m
  }

  function SetFlags(m: Mem, p: nat, free: bool): Mem
    requires p < |m.pages|
  {
    m.(pages := m.pages[p := m.pages[p].(free := free)])
  }

  function SetOrder(m: Mem, p: nat, order: nat): Mem
    requires p < |m.pages|
  {
    m.(pages := m.pages[p := m.pages[p].(order := order)])
  }

  /** `page_set_compound_head`, cut off at the end of the page map. */
  function SetCompoundHead(m: Mem, p: nat, order: nat): (r: Mem)
    ensures |r.pages| == |m.pages| && r.area == m.area
  {
    m.(pages := seq(|m.pages|, x requires 0 <= x < |m.pages| =>
      if InBlock(p, order, x) then m.pages[x].(head := p) else m.pages[x]))
  }

  // --- allocation ----------------------------------------------------------------

  /** `free_page_fix`: hand the upper halves back, from order `porder` down to `order`. */
  function FreePageFix(m: Mem, p: nat, porder: nat, order: nat): (r: Mem)
    requires |m.area| == PAGE_MAX_ORDER && porder < PAGE_MAX_ORDER
    ensures |r.pages| == |m.pages| && |r.area| == |m.area|
    decreases porder
  {
    if porder <= order then m
    else
      var k := porder - 1;
      var b := PageBuddy(p, k);
      if 0 <= b < |m.pages|
      then FreePageFix(FreePageAdd(SetFlags(SetOrder(m, b, k), b, true), b, k), p, k, order)
      else FreePageFix(m, p, k, order)
  }

  /** The smallest order from `porder` up with a nonempty list, or PAGE_MAX_ORDER. */
  function FirstOrder(m: Mem, porder: nat): (k: nat)
    requires |m.area| == PAGE_MAX_ORDER
    ensures porder < PAGE_MAX_ORDER ==> porder <= k <= PAGE_MAX_ORDER
    ensures k < PAGE_MAX_ORDER <==> exists j :: porder <= j < PAGE_MAX_ORDER && m.area[j].list != []
    ensures k < PAGE_MAX_ORDER ==> m.area[k].list != []
    decreases PAGE_MAX_ORDER - porder
  {
    if porder >= PAGE_MAX_ORDER then PAGE_MAX_ORDER
    else if m.area[porder].list != [] then porder
    else FirstOrder(m, porder + 1)
  }

  /** All lists from `porder` up to the order found are empty. */
  lemma {:induction false} NoneBefore(m: Mem, porder: nat)
    requires |m.area| == PAGE_MAX_ORDER
    ensures forall j :: porder <= j < FirstOrder(m, porder) && j < PAGE_MAX_ORDER ==> m.area[j].list == []
    decreases PAGE_MAX_ORDER - porder
  {
    if porder < PAGE_MAX_ORDER && m.area[porder].list == [] { NoneBefore(m, porder + 1); }
  }

  /** `get_free_pages` once the list of order k has been found nonempty. */
  function TakeFrom(m: Mem, k: nat, order: nat): (r: Mem)
    requires |m.area| == PAGE_MAX_ORDER && k < PAGE_MAX_ORDER && m.area[k].list != []
    requires m.area[k].list[0] < |m.pages| && m.pages[m.area[k].list[0]].order < PAGE_MAX_ORDER
  {
    var p := m.area[k].list[0];
    var m1 := FreePageDel(m, p);
    var m2 := FreePageFix(m1, p, m1.pages[p].order, order);
    var m3 := SetOrder(SetFlags(m2, p, false), p, order);
    var m4 := SetCompoundHead(m3, p, order);
    var b := PageBuddy(p, order);
    if b >= 0 then SetCompoundHead(m4, b, order) else m4
  }

  // --- freeing -------------------------------------------------------------------

  /** `merge_pages`: the new state and the left page. */
  function MergePages(m: Mem, p: nat, b: nat): (r: (Mem, nat))
    requires p < |m.pages| && b < |m.pages|
    ensures |r.0.pages| == |m.pages| && |r.0.area| == |m.area| && r.1 < |m.pages|
    ensures r.1 == if p < b then p else b
  {
    var m1 := FreePageDel(FreePageDel(m, p), b);
    var m2 := SetOrder(m1, p, m1.pages[p].order + 1);
    var m3 := SetOrder(m2, b, m2.pages[b].order + 1);
    var left := if p < b then p else b;
    (SetCompoundHead(m3, left, m3.pages[left].order), left)
  }

  /** `merge_free_page`, with its own counter `order` beside the order of the page. */
  function MergeFreePage(m: Mem, p: nat, order: nat): (r: Mem)
    requires |m.area| == PAGE_MAX_ORDER && p < |m.pages|
    ensures |r.pages| == |m.pages| && |r.area| == |m.area|
    decreases PAGE_MAX_ORDER - order
  {
    if order >= PAGE_MAX_ORDER - 1 then m
    else
      var b := PageBuddy(p, m.pages[p].order);
      if !(0 <= b < |m.pages| && m.pages[b].free) then m
      else
        var (m1, left) := MergePages(m, p, b);
        var k := m1.pages[left].order;
        var m2 := if k < |m1.area| then FreePageAdd(m1, left, k) else m1;
        MergeFreePage(m2, left, order + 1)
  }

  /** `__free_pages(page, page->order)`. */
  function FreePages(m: Mem, p: nat): (r: Mem)
    requires |m.area| == PAGE_MAX_ORDER && p < |m.pages| && m.pages[p].order < PAGE_MAX_ORDER
    ensures |r.pages| == |m.pages| && |r.area| == |m.area|
  {
    var k := m.pages[p].order;
    MergeFreePage(SetFlags(FreePageAdd(m, p, k), p, true), p, k)
  }
}
