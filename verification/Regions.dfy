/** Regions of boot memory, sorted sequences of them, and how removing a range edits such a
    sequence one region at a time.  Addresses are taken below the 32-bit limit, so that sums do
    not wrap. */
module Regions {
  import opened Arithmetic
  import opened Dyadic
  import opened PageMap
  import opened Rounding

  const MEMBLOCK_INVLD: int := -1

  datatype Region = Region(base: nat, size: nat) {
    function End(): nat { base + size }
  }

  predicate Contains(r: Region, a: nat) {
    r.base <= a < r.End()
  }

  /** Address a lies in one of the regions. */
  ghost predicate Covers(regs: seq<Region>, a: nat) {
    exists i :: 0 <= i < |regs| && Contains(regs[i], a)
  }

  /** Sorted and disjoint; regions may touch or be empty. */
  ghost predicate Sorted(regs: seq<Region>) {
    forall i, j :: 0 <= i < j < |regs| ==> regs[i].End() <= regs[j].base
  }

  ghost predicate Nonempty(regs: seq<Region>) {
    forall i :: 0 <= i < |regs| ==> regs[i].size > 0
  }

  /** Sorted, and no region touches the next. */
  ghost predicate Separated(regs: seq<Region>) {
    forall i, j :: 0 <= i < j < |regs| ==> regs[i].End() < regs[j].base
  }

  ghost predicate PageAligned(regs: seq<Region>) {
    forall i :: 0 <= i < |regs| ==> regs[i].base % PAGE_SIZE == 0 && regs[i].size % PAGE_SIZE == 0
  }

  function Sum(regs: seq<Region>): nat {
    if regs == [] then 0 else regs[0].size + Sum(regs[1..])
  }

  function RoundDown(x: nat): (r: nat)
    ensures r % PAGE_SIZE == 0 && r <= x < r + PAGE_SIZE
  {
    x / PAGE_SIZE * PAGE_SIZE
  }

  function RoundUp(x: nat): (r: nat)
    ensures r % PAGE_SIZE == 0 && x <= r < x + PAGE_SIZE
  {
    (x + PAGE_SIZE - 1) / PAGE_SIZE * PAGE_SIZE
  }

  /** Every region ends below 4 GiB, so that no end wraps around. */
  ghost predicate Low(regs: seq<Region>) {
    forall i :: 0 <= i < |regs| ==> regs[i].End() < B32
  }

  function Clamp(value: nat, lower: nat, upper: nat): nat {
    var v := if value > lower then value else lower;
    if v < upper then v else upper
  }

  /** [a, a + size) starts at a multiple of `align` and lies in one region and in [start, end). */
  ghost predicate FitsIn(regs: seq<Region>, size: nat, align: nat, start: nat, end: nat, a: nat)
    requires align > 0
  {
    a % align == 0 && start <= a < end && a + size <= end
    && exists i :: 0 <= i < |regs| && regs[i].base <= a < regs[i].End() && a + size <= regs[i].End()
  }

  ghost predicate FirstFit(regs: seq<Region>, size: nat, align: nat, start: nat, end: nat, a: nat)
    requires align > 0
  {
    FitsIn(regs, size, align, start, end, a)
    && forall b: nat :: FitsIn(regs, size, align, start, end, b) ==> a <= b
  }

  /** Some region reaches from below `end` to beyond it. */
  ghost predicate Crosses(regs: seq<Region>, end: nat) {
    exists i :: 0 <= i < |regs| && regs[i].base < end < regs[i].End()
  }

  /** Some region reaches beyond [base, end) on both sides and must be split. */
  ghost predicate Splits(regs: seq<Region>, base: nat, end: nat) {
    exists i :: 0 <= i < |regs| && regs[i].base < base && end < regs[i].End()
  }

  lemma {:induction false} SumConcat(a: seq<Region>, b: seq<Region>)
    ensures Sum(a + b) == Sum(a) + Sum(b)
  {
    if a == [] {
      assert a + b == b;
    } else {
      SumConcat(a[1..], b);
      assert (a + b)[1..] == a[1..] + b;
    }
  }

  lemma SumOne(r: Region)
    ensures Sum([r]) == r.size
  {
    assert Sum([r][1..]) == 0;
  }

  lemma SumAround(a: seq<Region>, i: nat, r: Region, b: seq<Region>)
    requires i <= |a| && b == a[..i] + [r] + a[i..]
    ensures Sum(b) == Sum(a) + r.size
  {
    hide Sum;
    assert a == a[..i] + a[i..];
    SumConcat(a[..i], a[i..]);
    SumConcat(a[..i] + [r], a[i..]);
    SumConcat(a[..i], [r]);
    SumOne(r);
  }

  lemma SumInsert(a: seq<Region>, i: nat, r: Region)
    requires i <= |a|
    ensures Sum(a[..i] + [r] + a[i..]) == Sum(a) + r.size
  {
    SumAround(a, i, r, a[..i] + [r] + a[i..]);
  }

  lemma SumRemove(a: seq<Region>, i: nat)
    requires i < |a|
    ensures Sum(a[..i] + a[i + 1..]) == Sum(a) - a[i].size
  {
    hide Sum;
    var rest := a[..i] + a[i + 1..];
    assert rest[..i] == a[..i] && rest[i..] == a[i + 1..];
    SumAround(rest, i, a[i], a);
  }

  lemma SumUpdate(a: seq<Region>, i: nat, r: Region)
    requires i < |a|
    ensures Sum(a[i := r]) == Sum(a) - a[i].size + r.size
  {
    hide Sum;
    var rest := a[..i] + a[i + 1..];
    assert rest[..i] == a[..i] && rest[i..] == a[i + 1..];
    SumAround(rest, i, a[i], a);
    SumAround(rest, i, r, a[i := r]);
  }

  // --- removing a range, one region at a time -------------------------------------------

  /** R is as tidy as R0: sorted, and nonempty, low, separated and page-aligned if R0 was. */
  ghost predicate AsTidy(R0: seq<Region>, R: seq<Region>, s: nat, e: nat) {
    && Sorted(R)
    && (Nonempty(R0) ==> Nonempty(R))
    && (Low(R0) ==> Low(R))
    && (Separated(R0) && s < e ==> Separated(R))
    && (PageAligned(R0) && s % PAGE_SIZE == 0 && e % PAGE_SIZE == 0 ==> PageAligned(R))
  }

  /** R covers nothing new, and everything R0 covers outside [s, e). */
  ghost predicate SameOutside(R0: seq<Region>, R: seq<Region>, s: nat, e: nat) {
    forall a: nat :: (Covers(R, a) ==> Covers(R0, a)) && (Covers(R0, a) && !(s <= a < e) ==> Covers(R, a))
  }

  ghost predicate CoversNone(R: seq<Region>, s: nat, e: nat) {
    forall a: nat :: s <= a < e ==> !Covers(R, a)
  }

  /** R is R0 with the range [s, e) removed exactly, and it is as tidy as R0 was. */
  ghost predicate Removed(R0: seq<Region>, R: seq<Region>, s: nat, e: nat) {
    AsTidy(R0, R, s, e) && SameOutside(R0, R, s, e) && CoversNone(R, s, e)
  }

  ghost predicate SameEnds(R0: seq<Region>, R: seq<Region>, s: nat, e: nat) {
    (Crosses(R, e) <==> Crosses(R0, e)) && (Splits(R, s, e) <==> Splits(R0, s, e))
  }

  /** The loop of `memblock_del_region` stands at entry i: earlier entries have nothing in the
      range, and the range still to be removed is [b, e). */
  ghost predicate StandsAt(R: seq<Region>, s: nat, b: nat, e: nat, i: nat) {
    && i <= |R| && s <= b <= e && Sorted(R)
    && (forall j :: 0 <= j < i ==> R[j].End() <= s || R[j].size == 0)
    && (b == s || forall j :: i <= j < |R| ==> b <= R[j].base)
  }

  ghost predicate Trimming(R0: seq<Region>, R: seq<Region>, s: nat, b: nat, e: nat, i: nat) {
    StandsAt(R, s, b, e, i) && AsTidy(R0, R, s, e) && SameOutside(R0, R, s, e) && SameEnds(R0, R, s, e)
  }

  /** The region at i gives way to a part of itself. */
  lemma ShrinkTidy(R0: seq<Region>, R: seq<Region>, s: nat, e: nat, i: nat, r: Region)
    requires AsTidy(R0, R, s, e) && i < |R| && R[i].base <= r.base && r.End() <= R[i].End() && r.size > 0
    requires PageAligned(R) && s % PAGE_SIZE == 0 && e % PAGE_SIZE == 0 ==>
      r.base % PAGE_SIZE == 0 && r.size % PAGE_SIZE == 0
    ensures AsTidy(R0, R[i := r], s, e)
  {
  }

  lemma ShrinkCovers(R0: seq<Region>, R: seq<Region>, s: nat, e: nat, i: nat, r: Region)
    requires SameOutside(R0, R, s, e) && i < |R| && R[i].base <= r.base && r.End() <= R[i].End()
    requires forall a: nat :: Contains(R[i], a) && !(s <= a < e) ==> Contains(r, a)
    ensures SameOutside(R0, R[i := r], s, e)
  {
    var R' := R[i := r];
    forall a: nat
      ensures Covers(R', a) ==> Covers(R, a)
      ensures Covers(R, a) && !(s <= a < e) ==> Covers(R', a)
    {
      if Covers(R', a) {
        var j :| 0 <= j < |R'| && Contains(R'[j], a);
        assert Contains(R[j], a);
      }
      if Covers(R, a) && !(s <= a < e) {
        var j :| 0 <= j < |R| && Contains(R[j], a);
        assert Contains(R'[j], a);
      }
    }
  }

  lemma ShrinkEnds(R0: seq<Region>, R: seq<Region>, s: nat, e: nat, i: nat, r: Region)
    requires SameEnds(R0, R, s, e) && i < |R| && R[i].base <= r.base && R[i].End() <= e && r.End() <= e
    ensures SameEnds(R0, R[i := r], s, e)
  {
    var R' := R[i := r];
    assert forall j :: 0 <= j < |R| && j != i ==> R'[j] == R[j];
  }

  lemma TrimDone(R0: seq<Region>, R: seq<Region>, s: nat, b: nat, e: nat, i: nat)
    requires Trimming(R0, R, s, b, e, i) && (i < |R| ==> R[i].base >= e)
    ensures Removed(R0, R, s, e) && !Crosses(R0, e) && !Splits(R0, s, e)
  {
    assert forall j :: 0 <= j < |R| ==> R[j].End() <= s || R[j].size == 0 || R[j].base >= e;
  }

  lemma TrimSkip(R0: seq<Region>, R: seq<Region>, s: nat, b: nat, e: nat, i: nat)
    requires Trimming(R0, R, s, b, e, i) && i < |R| && R[i].End() <= b
    ensures Trimming(R0, R, s, b, e, i + 1)
  {
  }

  /** The region at i lies within the range: it goes. */
  lemma TrimDrop(R0: seq<Region>, R: seq<Region>, s: nat, b: nat, e: nat, i: nat)
    requires Trimming(R0, R, s, b, e, i) && i < |R| && b <= R[i].base && R[i].End() <= e
    ensures Trimming(R0, R[..i] + R[i + 1..], s, b, e, i)
  {
    var R' := R[..i] + R[i + 1..];
    DropTidy(R0, R, s, e, i, R');
    DropCovers(R0, R, s, e, i, R');
    DropStands(R, s, b, e, i, R');
    DropEnds(R0, R, s, e, i, R');
    hide SameOutside, AsTidy, SameEnds, StandsAt;
  }

  lemma DropTidy(R0: seq<Region>, R: seq<Region>, s: nat, e: nat, i: nat, R': seq<Region>)
    requires AsTidy(R0, R, s, e) && i < |R| && R' == R[..i] + R[i + 1..]
    ensures AsTidy(R0, R', s, e)
  {
    assert forall j :: 0 <= j < |R'| ==> R'[j] == R[if j < i then j else j + 1];
  }

  lemma DropStands(R: seq<Region>, s: nat, b: nat, e: nat, i: nat, R': seq<Region>)
    requires StandsAt(R, s, b, e, i) && i < |R| && R' == R[..i] + R[i + 1..]
    ensures StandsAt(R', s, b, e, i)
  {
    assert forall j :: 0 <= j < |R'| ==> R'[j] == R[if j < i then j else j + 1];
  }

  lemma DropEnds(R0: seq<Region>, R: seq<Region>, s: nat, e: nat, i: nat, R': seq<Region>)
    requires SameEnds(R0, R, s, e) && i < |R| && R[i].End() <= e && R' == R[..i] + R[i + 1..]
    ensures SameEnds(R0, R', s, e)
  {
    forall j | 0 <= j < |R'|
      ensures R'[j].base < e < R'[j].End() ==> Crosses(R, e)
      ensures R'[j].base < s && e < R'[j].End() ==> Splits(R, s, e)
    {
      assert R'[j] == R[if j < i then j else j + 1];
    }
    forall j | 0 <= j < |R|
      ensures R[j].base < e < R[j].End() ==> Crosses(R', e)
      ensures R[j].base < s && e < R[j].End() ==> Splits(R', s, e)
    {
      if j != i { assert R[j] == R'[if j < i then j else j - 1]; }
    }
  }

  lemma FindCover(R: seq<Region>, a: nat) returns (j: nat)
    requires Covers(R, a)
    ensures j < |R| && Contains(R[j], a)
  {
    j :| 0 <= j < |R| && Contains(R[j], a);
  }

  lemma IsCover(R: seq<Region>, j: nat, a: nat)
    requires j < |R| && Contains(R[j], a)
    ensures Covers(R, a)
  {
  }

  lemma DropCovers(R0: seq<Region>, R: seq<Region>, s: nat, e: nat, i: nat, R': seq<Region>)
    requires SameOutside(R0, R, s, e) && i < |R| && s <= R[i].base && R[i].End() <= e
    requires R' == R[..i] + R[i + 1..]
    ensures SameOutside(R0, R', s, e)
  {
    hide Covers;
    forall a: nat
      ensures Covers(R', a) ==> Covers(R, a)
      ensures Covers(R, a) && !(s <= a < e) ==> Covers(R', a)
    {
      if Covers(R', a) {
        var j := FindCover(R', a);
        IsCover(R, if j < i then j else j + 1, a);
      }
      if Covers(R, a) && !(s <= a < e) {
        var j := FindCover(R, a);
        assert j != i;
        IsCover(R', if j < i then j else j - 1, a);
      }
    }
  }

  /** The region at i begins below the range and ends inside it: its tail goes. */
  lemma TrimTail(R0: seq<Region>, R: seq<Region>, s: nat, b: nat, e: nat, i: nat)
    requires Trimming(R0, R, s, b, e, i) && i < |R| && R[i].base < b < R[i].End() <= e
    ensures Trimming(R0, R[i := Region(R[i].base, b - R[i].base)], s, R[i].End(), e, i + 1)
  {
    var r := Region(R[i].base, b - R[i].base);
    ShrinkTidy(R0, R, s, e, i, r);
    ShrinkCovers(R0, R, s, e, i, r);
    ShrinkEnds(R0, R, s, e, i, r);
    hide AsTidy, SameOutside, SameEnds;
    assert StandsAt(R[i := r], s, R[i].End(), e, i + 1);
  }

  /** The region at i begins inside the range and ends beyond it: its head goes, and nothing
      else is left to remove. */
  lemma TrimHead(R0: seq<Region>, R: seq<Region>, s: nat, b: nat, e: nat, i: nat)
    requires Trimming(R0, R, s, b, e, i) && i < |R| && b <= R[i].base < e < R[i].End()
    ensures Removed(R0, R[i := Region(e, R[i].End() - e)], s, e) && Crosses(R0, e) && !Splits(R0, s, e)
  {
    var r := Region(e, R[i].End() - e);
    var R' := R[i := r];
    ShrinkTidy(R0, R, s, e, i, r);
    ShrinkCovers(R0, R, s, e, i, r);
    assert forall j :: 0 <= j < |R'| ==> R'[j].End() <= s || R'[j].size == 0 || R'[j].base >= e;
    assert Crosses(R, e) && !Splits(R, s, e);
  }

  /** Entry j after the region at i has been split around [s, e). */
  function Piece(R: seq<Region>, s: nat, e: nat, i: nat, j: nat): Region
    requires i < |R| && j <= |R| && R[i].base < s <= e < R[i].End()
  {
    if j < i then R[j]
    else if j == i then Region(R[i].base, s - R[i].base)
    else if j == i + 1 then Region(e, R[i].End() - e)
    else R[j - 1]
  }

  ghost predicate SplitAt(R: seq<Region>, s: nat, e: nat, i: nat, R': seq<Region>) {
    && i < |R| && R[i].base < s <= e < R[i].End() && |R'| == |R| + 1
    && forall j :: 0 <= j < |R'| ==> R'[j] == Piece(R, s, e, i, j)
  }

  lemma SplitSeen(R0: seq<Region>, R: seq<Region>, s: nat, b: nat, e: nat, i: nat)
    requires Trimming(R0, R, s, b, e, i) && i < |R| && R[i].base < b && e < R[i].End()
    ensures b == s && Crosses(R0, e) && Splits(R0, s, e)
  {
    assert b == s;
    assert Crosses(R, e) && Splits(R, s, e);
  }

  /** The region at i reaches beyond the range on both sides: it is split in two. */
  lemma TrimSplit(R0: seq<Region>, R: seq<Region>, s: nat, b: nat, e: nat, i: nat, R': seq<Region>)
    requires Trimming(R0, R, s, b, e, i) && i < |R| && R[i].base < b && e < R[i].End()
    requires var cut := R[i := Region(R[i].base, b - R[i].base)];
      R' == cut[..i + 1] + [Region(e, R[i].End() - e)] + cut[i + 1..]
    ensures Removed(R0, R', s, e)
  {
    SplitSeen(R0, R, s, b, e, i);
    assert SplitAt(R, s, e, i, R');
    SplitTidy(R0, R, s, e, i, R');
    SplitCovers(R0, R, s, e, i, R');
  }

  lemma SplitSorted(R: seq<Region>, s: nat, e: nat, i: nat, R': seq<Region>)
    requires Sorted(R) && SplitAt(R, s, e, i, R')
    ensures Sorted(R')
    ensures Separated(R) && s < e ==> Separated(R')
  {
    forall j, k | 0 <= j < k < |R'|
      ensures R'[j].End() <= R'[k].base
      ensures Separated(R) && s < e ==> R'[j].End() < R'[k].base
    {
      var j', k' := if j <= i then j else j - 1, if k <= i then k else k - 1;
      assert R'[j] == Piece(R, s, e, i, j) && R'[k] == Piece(R, s, e, i, k);
      assert j' < k' ==> R[j'].End() <= R[k'].base;
      assert j' < k' && Separated(R) ==> R[j'].End() < R[k'].base;
    }
  }

  lemma SplitAligned(R: seq<Region>, s: nat, e: nat, i: nat, R': seq<Region>)
    requires PageAligned(R) && SplitAt(R, s, e, i, R') && s % PAGE_SIZE == 0 && e % PAGE_SIZE == 0
    ensures PageAligned(R')
  {
    assert R[i].base % PAGE_SIZE == 0 && R[i].size % PAGE_SIZE == 0;
    assert (s - R[i].base) % PAGE_SIZE == 0 && (R[i].End() - e) % PAGE_SIZE == 0;
  }

  lemma SplitTidy(R0: seq<Region>, R: seq<Region>, s: nat, e: nat, i: nat, R': seq<Region>)
    requires AsTidy(R0, R, s, e) && SplitAt(R, s, e, i, R')
    ensures AsTidy(R0, R', s, e)
  {
    SplitSorted(R, s, e, i, R');
    if PageAligned(R) && s % PAGE_SIZE == 0 && e % PAGE_SIZE == 0 { SplitAligned(R, s, e, i, R'); }
    assert Nonempty(R) ==> Nonempty(R');
    assert Low(R) ==> Low(R');
    hide SplitAt, Sorted, Separated, PageAligned, Nonempty, Low;
  }

  lemma TrimStart(R: seq<Region>, s: nat, e: nat)
    requires Sorted(R) && s <= e
    ensures Trimming(R, R, s, s, e, 0)
  {
  }

  lemma PieceInside(R: seq<Region>, s: nat, e: nat, i: nat, j: nat, a: nat)
    requires Sorted(R) && i < |R| && R[i].base < s <= e < R[i].End() && j <= |R| && Contains(Piece(R, s, e, i, j), a)
    ensures var k := if j <= i then j else j - 1; Contains(R[k], a) && !(s <= a < e)
  {
  }

  lemma SplitCovers(R0: seq<Region>, R: seq<Region>, s: nat, e: nat, i: nat, R': seq<Region>)
    requires Sorted(R) && SameOutside(R0, R, s, e) && SplitAt(R, s, e, i, R')
    ensures SameOutside(R0, R', s, e) && CoversNone(R', s, e)
  {
    hide Covers, Sorted;
    forall a: nat
      ensures Covers(R', a) ==> Covers(R, a) && !(s <= a < e)
      ensures Covers(R, a) && !(s <= a < e) ==> Covers(R', a)
    {
      if Covers(R', a) {
        var j := FindCover(R', a);
        PieceInside(R, s, e, i, j, a);
        IsCover(R, if j <= i then j else j - 1, a);
      }
      if Covers(R, a) && !(s <= a < e) {
        var j := FindCover(R, a);
        IsCover(R', if j < i then j else if j > i then j + 1 else if a < s then i else i + 1, a);
      }
    }
  }

  lemma FitsEarlier(R: seq<Region>, i: nat, j: nat, size: nat, align: nat, start: nat, end: nat, b: nat)
    requires j < i <= |R| && align > 0 && b % align == 0 && start <= b < end && b + size <= end
    requires R[j].base <= b < R[j].End() && b + size <= R[j].End()
    ensures FitsIn(R[..i], size, align, start, end, b)
  {
    assert R[..i][j] == R[j];
  }

  /** An address that fits into region i lies at or above its rounded start. */
  lemma AboveStart(R: seq<Region>, i: nat, size: nat, align: nat, start: nat, end: nat, b: nat, j: nat)
    requires Sorted(R) && i <= j < |R| && IsPow2(align) && 0 < start <= end
    requires b % align == 0 && start <= b < end && R[j].base <= b < R[j].End()
    ensures align > 0 && Clamp(R[i].base, start, end) > 0 && OrUp(Clamp(R[i].base, start, end), align) <= b
  {
    var k: nat :| k < 32 && align == Pow2(k);
    if i < j { assert R[i].End() <= R[j].base; }
    LeastMultiple(Clamp(R[i].base, start, end), k);
  }

  /** The candidate in region i: if it fits it is the lowest fit, given that no earlier region has
      one; if it does not fit, the first i + 1 regions have none. */
  lemma NotBelow(R: seq<Region>, R1: seq<Region>, i: nat, size: nat, align: nat, start: nat, end: nat, cand: nat)
    requires Sorted(R) && i < |R| && IsPow2(align) && 0 < start <= end && R1 == R[..i + 1]
    requires align > 0 && cand == OrUp(Clamp(R[i].base, start, end), align)
    requires forall a: nat :: !FitsIn(R[..i], size, align, start, end, a)
    ensures var rend := Clamp(R[i].End(), start, end);
      if cand < rend && rend - cand >= size then FirstFit(R, size, align, start, end, cand)
      else forall a: nat :: !FitsIn(R1, size, align, start, end, a)
  {
    hide OrUp;
    var rend := Clamp(R[i].End(), start, end);
    var k: nat :| k < 32 && align == Pow2(k);
    LeastMultiple(Clamp(R[i].base, start, end), k);
    if cand < rend && rend - cand >= size {
      forall b: nat | FitsIn(R, size, align, start, end, b) ensures cand <= b {
        var j: nat :| j < |R| && R[j].base <= b < R[j].End() && b + size <= R[j].End();
        if j < i {
          FitsEarlier(R, i, j, size, align, start, end, b);
        } else {
          AboveStart(R, i, size, align, start, end, b, j);
        }
      }
    } else {
      forall b: nat | FitsIn(R1, size, align, start, end, b)
        ensures FitsIn(R[..i], size, align, start, end, b)
      {
        var j: nat :| j <= i && R[j].base <= b < R[j].End() && b + size <= R[j].End();
        if j < i {
          FitsEarlier(R, i, j, size, align, start, end, b);
        } else {
          AboveStart(R, i, size, align, start, end, b, j);
        }
      }
    }
  }

  /** A candidate that wraps around to 0: neither this region nor a later one has a fit. */
  lemma NoneBeyond(R: seq<Region>, i: nat, size: nat, align: nat, start: nat, end: nat)
    requires Sorted(R) && i < |R| && IsPow2(align) && 0 < start <= end < B32
    requires align > 0 && OrUp(Clamp(R[i].base, start, end), align) >= B32
    requires forall a: nat :: !FitsIn(R[..i], size, align, start, end, a)
    ensures forall a: nat :: !FitsIn(R, size, align, start, end, a)
  {
    hide OrUp;
    forall b: nat | FitsIn(R, size, align, start, end, b)
      ensures FitsIn(R[..i], size, align, start, end, b)
    {
      var j: nat :| j < |R| && R[j].base <= b < R[j].End() && b + size <= R[j].End();
      if j < i {
        FitsEarlier(R, i, j, size, align, start, end, b);
      } else {
        AboveStart(R, i, size, align, start, end, b, j);
      }
    }
  }
}
