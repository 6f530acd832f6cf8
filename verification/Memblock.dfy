/** The boot-time region allocator of src/mm/memblock.c: a sorted array of free regions that is
    edited in place. */
module Memblock {
  import opened Arithmetic
  import opened Dyadic
  import opened MemblockAdd
  import opened PageMap
  import opened Regions
  import opened Rounding

  /** `memblock_adjust_region` on 32-bit numbers: base and end rounded outwards to pages; the end
      is recomputed from the new base and size. */
  function AdjustRegion(base: nat, size: nat): (r: (nat, nat, nat)) {
    var nbase := RoundDown(base);
    var limit := RoundUpTo((base + size) % B32, PAGE_SIZE);
    var nsize := (limit - nbase) % B32;
    (nbase, nsize, (nbase + nsize) % B32)
  }

  lemma RoundPage(x: nat)
    requires x <= B32
    ensures RoundUpTo(x % B32, PAGE_SIZE) == RoundUp(x) % B32 && RoundUp(x) <= B32
  {
    hide RoundUpTo, OrUp;
    if x == 0 || x == B32 {
      RoundUpZero(PAGE_SIZE);
    } else {
      hide RoundUp;
      Powers();
      LeastMultiple(x, 12);
      SameMultiple(OrUp(x, PAGE_SIZE), RoundUp(x));
      RoundUpWraps(x, PAGE_SIZE);
    }
  }

  lemma SameMultiple(m: nat, r: nat)
    requires m % PAGE_SIZE == 0 && r % PAGE_SIZE == 0 && m <= r < m + PAGE_SIZE
    ensures m == r
  {
  }

  /** A range in the 32-bit address space is rounded outwards; the end is right unless it is
      4 GiB, which becomes 0. */
  lemma AdjustIsExactWhen(base: nat, size: nat)
    requires base + size <= B32
    ensures var (b, s, e) := AdjustRegion(base, size);
      && b == RoundDown(base) && s == (RoundUp(base + size) - b) % B32
      && e == (if RoundUp(base + size) < B32 then RoundUp(base + size) else 0)
      && (e == RoundUp(base + size) <==> RoundUp(base + size) < B32)
  {
    hide RoundUpTo, RoundUp, RoundDown;
    var b, limit := RoundDown(base), RoundUp(base + size) % B32;
    RoundPage(base + size);
    assert (b + (limit - b) % B32) % B32 == limit;
  }

  /** The last page of the address space: its end comes out as 0. */
  lemma LastPageEndsAtZero()
    ensures AdjustRegion(0xFFFF_F000, 0x1000) == (0xFFFF_F000, 0x1000, 0)
  {
    hide RoundUpTo;
    AdjustIsExactWhen(0xFFFF_F000, 0x1000);
  }

  lemma EmptyFirst(R: seq<Region>)
    requires |R| > 0 && R[0].size == 0
    ensures !Nonempty(R)
  {
  }

  /** Moving the entries from `index` on up by one makes room for a new one. */
  lemma MoveThenSet(A: seq<Region>, cnt: nat, index: nat, r: Region)
    requires index <= cnt < |A|
    ensures var A' := Move(A, index + 1, index, cnt - index)[index := r];
      && A'[..cnt + 1] == A[..cnt][..index] + [r] + A[..cnt][index..]
      && A'[cnt + 1..] == A[cnt + 1..]
  {
  }

  lemma MoveDown(A: seq<Region>, cnt: nat, index: nat)
    requires index < cnt <= |A|
    ensures Move(A, index, index + 1, cnt - (index + 1))[..cnt - 1] == A[..cnt][..index] + A[..cnt][index + 1..]
  {
  }

  lemma NothingCrosses(R: seq<Region>, start: nat, end: nat)
    requires Low(R) && end >= B32
    ensures !Crosses(R, end) && !Splits(R, start, end)
  {
  }

  lemma NoFitYet(R: seq<Region>, size: nat, align: nat, start: nat, end: nat)
    requires align > 0
    ensures forall a: nat :: !FitsIn(R[..0], size, align, start, end, a)
  {
  }

  lemma PowerOfTwo(align: nat)
    requires IsPow2(align)
    ensures 0 < align < B32
  {
    var k: nat :| k < 32 && align == Pow2(k);
    Powers();
    Pow2Monotone(k, 31);
  }

  /** The candidate that region i offers to `memblock_find_in_range`. */
  lemma Candidate(R: seq<Region>, R1: seq<Region>, i: nat, size: nat, align: nat, start: nat, end: nat, cand: nat)
    requires Sorted(R) && i < |R| && R1 == R[..i + 1] && 0 < align < B32 && 0 < start <= end < B32
    requires cand == RoundUpTo(Clamp(R[i].base, start, end), align)
    requires IsPow2(align) ==> forall a: nat :: !FitsIn(R[..i], size, align, start, end, a)
    ensures var rend := Clamp(R[i].End(), start, end);
      && (cand < rend && rend - cand >= size ==>
           && (cand != 0 ==> FitsIn(R, size, 1, start, end, cand))
           && (IsPow2(align) ==>
                if cand != 0 then FirstFit(R, size, align, start, end, cand)
                else forall a: nat :: !FitsIn(R, size, align, start, end, a)))
      && (!(cand < rend && rend - cand >= size) && IsPow2(align) ==>
           forall a: nat :: !FitsIn(R1, size, align, start, end, a))
  {
    hide RoundUpTo, OrUp, IsPow2, FirstFit, FitsIn;
    var x := Clamp(R[i].base, start, end);
    RoundUpWraps(x, align);
    if cand != 0 {
      if cand < Clamp(R[i].End(), start, end) && Clamp(R[i].End(), start, end) - cand >= size {
        InRegion(R, i, size, start, end, cand);
      }
      if IsPow2(align) { NotBelow(R, R1, i, size, align, start, end, cand); }
    } else if IsPow2(align) {
      NoneBeyond(R, i, size, align, start, end);
      FewerFit(R, R1, size, align, start, end);
    }
  }

  lemma InRegion(R: seq<Region>, i: nat, size: nat, start: nat, end: nat, a: nat)
    requires i < |R| && start <= end && Clamp(R[i].base, start, end) <= a < Clamp(R[i].End(), start, end)
    requires a + size <= Clamp(R[i].End(), start, end)
    ensures FitsIn(R, size, 1, start, end, a)
  {
  }

  lemma FewerFit(R: seq<Region>, R1: seq<Region>, size: nat, align: nat, start: nat, end: nat)
    requires align > 0 && R1 <= R && forall a: nat :: !FitsIn(R, size, align, start, end, a)
    ensures forall a: nat :: !FitsIn(R1, size, align, start, end, a)
  {
    forall a: nat | FitsIn(R1, size, align, start, end, a)
      ensures FitsIn(R, size, align, start, end, a)
    {
      var j: nat :| j < |R1| && R1[j].base <= a < R1[j].End() && a + size <= R1[j].End();
      assert R[j] == R1[j];
    }
  }

  lemma FitIsLow(R: seq<Region>, size: nat, start: nat, end: nat, a: nat)
    requires Low(R) && FitsIn(R, size, 1, start, end, a)
    ensures a + size < B32
  {
  }

  class MemblockType {
    var cnt: nat
    var totalSize: int
    const regions: array<Region>

    ghost predicate Valid()
      reads this
    {
      cnt <= regions.Length
    }

    /** The regions in use. */
    ghost function InUse(): seq<Region>
      requires Valid()
      reads this, regions
    {
      regions[..cnt]
    }

    /** `memmove(&regions[dst], &regions[src], n * sizeof(*region))`. */
    method MoveRegions(dst: nat, src: nat, n: nat)
      requires dst + n <= regions.Length && src + n <= regions.Length
      modifies regions
      ensures regions[..] == Move(old(regions[..]), dst, src, n)
    {
      forall k | dst <= k < dst + n {
        regions[k] := regions[k - dst + src];
      }
      assert regions[..] == Move(old(regions[..]), dst, src, n);
    }

    /** `memblock_insert_region`. */
    method InsertRegion(index: nat, base: nat, size: nat)
      requires Valid() && index <= cnt < regions.Length
      modifies this, regions
      ensures Valid() && cnt == old(cnt) + 1 && totalSize == old(totalSize) + size
      ensures InUse() == old(InUse())[..index] + [Region(base, size)] + old(InUse())[index..]
      ensures totalSize - Sum(InUse()) == old(totalSize - Sum(InUse()))
      ensures forall k :: cnt <= k < regions.Length ==> regions[k] == old(regions[k])
    {
      hide Move, Sum;
      ghost var A, r := regions[..], Region(base, size);
      SumInsert(InUse(), index, r);
      MoveThenSet(A, cnt, index, r);
      MoveRegions(index + 1, index, cnt - index);
      regions[index] := Region(base, size);
      assert regions[..] == Move(A, index + 1, index, old(cnt) - index)[index := r];
      totalSize := totalSize + size;
      cnt := cnt + 1;
      assert InUse() == regions[..][..cnt];
    }

    /** Drops the entry at `index` by moving the later ones down. */
    method RemoveEntry(index: nat)
      requires Valid() && index < cnt
      modifies this`cnt, regions
      ensures Valid() && cnt == old(cnt) - 1
      ensures InUse() == old(InUse())[..index] + old(InUse())[index + 1..]
      ensures Sum(InUse()) == old(Sum(InUse())) - old(regions[index].size)
    {
      hide Move, Sum;
      SumRemove(InUse(), index);
      MoveDown(regions[..], cnt, index);
      MoveRegions(index, index + 1, cnt - (index + 1));
      cnt := cnt - 1;
      assert InUse() == regions[..][..cnt];
    }

    method SetEntry(index: nat, r: Region)
      requires Valid() && index < cnt
      modifies regions
      ensures InUse() == old(InUse())[index := r]
      ensures Sum(InUse()) == old(Sum(InUse())) - old(regions[index].size) + r.size
    {
      SumUpdate(InUse(), index, r);
      regions[index] := r;
      assert InUse() == old(InUse())[index := r];
    }

    /** The entry at `index` loses the range [base, nend) in its middle: the part above becomes an
        entry of its own, and the total size grows by that part although nothing was added. */
    method SplitEntry(index: nat, base: nat, nend: nat)
      requires Valid() && index < cnt < regions.Length
      requires regions[index].base < base <= nend < regions[index].End()
      modifies this, regions
      ensures Valid() && cnt == old(cnt) + 1
      ensures var R := old(InUse());
        var cut := R[index := Region(R[index].base, base - R[index].base)];
        InUse() == cut[..index + 1] + [Region(nend, R[index].End() - nend)] + cut[index + 1..]
      ensures totalSize - Sum(InUse()) == old(totalSize - Sum(InUse()) + (regions[index].End() - base))
    {
      hide Sum;
      var rbeg, rend := regions[index].base, regions[index].End();
      SetEntry(index, regions[index].(size := base - rbeg));
      InsertRegion(index + 1, nend, rend - nend);
    }

    /** The loop of `memblock_del_region`; the end is 0 for a range that ends at 4 GiB. */
    method DelPages(start: nat, nend: nat) returns (r: int)
      requires Valid() && Sorted(InUse()) && (nend == 0 || start <= nend)
      requires start <= nend && Splits(InUse(), start, nend) ==> cnt < regions.Length
      modifies this, regions
      ensures Valid() && cnt <= old(cnt) + 1
      ensures nend == 0 ==> InUse() == old(InUse()) && totalSize == old(totalSize) && r == MEMBLOCK_INVLD
      ensures start <= nend ==>
        && Removed(old(InUse()), InUse(), start, nend)
        && (r != MEMBLOCK_INVLD <==> Crosses(old(InUse()), nend))
        && (totalSize - Sum(InUse()) == old(totalSize - Sum(InUse())) <==> !Splits(old(InUse()), start, nend))
    {
      hide Trimming, Removed, Crosses, Splits, Sum, Sorted;
      ghost var regs0, drift := InUse(), totalSize - Sum(InUse());
      var dbeg: int := MEMBLOCK_INVLD;
      var i, base: nat := 0, start;
      if start <= nend { TrimStart(regs0, start, nend); }
      while i < cnt
        invariant Valid() && dbeg == MEMBLOCK_INVLD && cnt <= old(cnt)
        invariant if nend < start then i == 0 else Trimming(regs0, InUse(), start, base, nend, i)
        invariant nend == 0 ==> i == 0 && InUse() == regs0 && totalSize == old(totalSize)
        invariant totalSize - Sum(InUse()) == drift
        invariant start <= nend && Splits(regs0, start, nend) ==> cnt < regions.Length
        decreases cnt - i
      {
        ghost var R := InUse();
        var rbeg, rend := regions[i].base, regions[i].End();
        if rbeg >= nend {
          if start <= nend { TrimDone(regs0, R, start, base, nend, i); }
          return dbeg;
        }
        if rend <= base {
          TrimSkip(regs0, R, start, base, nend, i);
          i := i + 1;
          continue;
        }
        var mbeg := if rbeg > base then rbeg else base;
        var mend := if rend < nend then rend else nend;
        if dbeg == 0 { dbeg := mbeg; }
        if rbeg < base && rend > nend {
          SplitSeen(regs0, R, start, base, nend, i);
          SplitEntry(i, base, nend);
          TrimSplit(regs0, R, start, base, nend, i, InUse());
          return base;
        }
        SetEntry(i, regions[i].(size := regions[i].size - (mend - mbeg)));
        totalSize := totalSize - (mend - mbeg);
        if regions[i].size == 0 {
          TrimDrop(regs0, R, start, base, nend, i);
          RemoveEntry(i);
          assert InUse() == R[..i] + R[i + 1..];
          continue;
        }
        if rbeg >= base {
          TrimHead(regs0, R, start, base, nend, i);
          SetEntry(i, regions[i].(base := nend));
          assert InUse() == R[i := Region(nend, rend - nend)];
          return base;
        }
        TrimTail(regs0, R, start, base, nend, i);
        base := rend;
        i := i + 1;
      }
      if start <= nend { TrimDone(regs0, InUse(), start, base, nend, i); }
      return dbeg;
    }

    /** `memblock_del_region`: the page-rounded range is removed exactly, unless its end is 4 GiB,
        in which case nothing is removed.  It reports success only when a region reaches beyond
        the end of the range, and it keeps the total size in step with the regions only when no
        region has to be split. */
    method DelRegion(base0: nat, size0: nat) returns (r: int)
      requires Valid() && Sorted(InUse()) && Low(InUse()) && base0 + size0 <= B32
      requires Splits(InUse(), RoundDown(base0), RoundUp(base0 + size0)) ==> cnt < regions.Length
      modifies this, regions
      ensures Valid() && cnt <= old(cnt) + 1
      ensures RoundUp(base0 + size0) < B32 ==>
        Removed(old(InUse()), InUse(), RoundDown(base0), RoundUp(base0 + size0))
      ensures RoundUp(base0 + size0) >= B32 ==> InUse() == old(InUse()) && totalSize == old(totalSize)
      ensures r != MEMBLOCK_INVLD <==> Crosses(old(InUse()), RoundUp(base0 + size0))
      ensures totalSize - Sum(InUse()) == old(totalSize - Sum(InUse())) <==>
        !Splits(old(InUse()), RoundDown(base0), RoundUp(base0 + size0))
    {
      AdjustIsExactWhen(base0, size0);
      hide Removed, Crosses, Splits, Sum, Sorted, AdjustRegion, RoundUp, RoundDown;
      if RoundUp(base0 + size0) >= B32 { NothingCrosses(InUse(), RoundDown(base0), RoundUp(base0 + size0)); }
      var (base, _, nend) := AdjustRegion(base0, size0);
      r := DelPages(base, nend);
    }

    /** `memblock_find_in_range`: what it answers lies in a region and in [start, end); for an
        alignment that is a power of two it is the lowest fit, or 0 when there is none. */
    method FindInRange(size: nat, align: nat, start: nat, end: nat) returns (r: nat)
      requires Valid() && Sorted(InUse()) && Low(InUse())
      requires 0 < align < B32 && 0 < start <= end < B32
      ensures r != 0 ==> FitsIn(InUse(), size, 1, start, end, r)
      ensures r != 0 && IsPow2(align) ==> FirstFit(InUse(), size, align, start, end, r)
      ensures r == 0 && IsPow2(align) ==> forall a: nat :: !FitsIn(InUse(), size, align, start, end, a)
    {
      hide RoundUpTo, OrUp, IsPow2, FitsIn, FirstFit, Sorted, Low;
      var i := 0;
      NoFitYet(InUse(), size, align, start, end);
      while i < cnt
        invariant 0 <= i <= cnt
        invariant IsPow2(align) ==> forall a: nat :: !FitsIn(InUse()[..i], size, align, start, end, a)
      {
        var rbeg := Clamp(regions[i].base, start, end);
        var rend := Clamp(regions[i].End(), start, end);
        var cand := RoundUpTo(rbeg, align);
        Candidate(InUse(), InUse()[..i + 1], i, size, align, start, end, cand);
        if cand < rend && rend - cand >= size {
          return cand;
        }
        i := i + 1;
      }
      assert InUse()[..cnt] == InUse();
      return 0;
    }

    /** `memblock_alloc_range`: the lowest fit is handed out exactly when some region reaches
        beyond its page-rounded end.  When the fit uses up the end of a region the call
        reports failure although the range has left the array, unless its end is 4 GiB. */
    method AllocRange(size: nat, align: nat, start: nat, end: nat) returns (r: nat)
      requires Valid() && Sorted(InUse()) && Low(InUse()) && cnt < regions.Length
      requires IsPow2(align) && 0 < start <= end < B32
      modifies this, regions
      ensures Valid() && cnt <= old(cnt) + 1
      ensures r != 0 ==>
        && FirstFit(old(InUse()), size, align, start, end, r)
        && Crosses(old(InUse()), RoundUp(r + size))
        && Removed(old(InUse()), InUse(), RoundDown(r), RoundUp(r + size))
      ensures r == 0 ==>
        || (InUse() == old(InUse()) && forall a: nat :: !FitsIn(InUse(), size, align, start, end, a))
        || (exists a: nat :: FirstFit(old(InUse()), size, align, start, end, a)
              && !Crosses(old(InUse()), RoundUp(a + size))
              && if RoundUp(a + size) < B32
                 then Removed(old(InUse()), InUse(), RoundDown(a), RoundUp(a + size))
                 else InUse() == old(InUse()))
    {
      hide Removed, Crosses, Splits, Sum, Sorted, RoundUp, RoundDown, FirstFit, FitsIn, Low;
      PowerOfTwo(align);
      var base := FindInRange(size, align, start, end);
      if base != 0 {
        FitIsLow(InUse(), size, start, end, base);
        if RoundUp(base + size) >= B32 { NothingCrosses(InUse(), 0, RoundUp(base + size)); }
        var d := DelRegion(base, size);
        if d != MEMBLOCK_INVLD { return base; }
      }
      return 0;
    }

    method FuseWithPrevious(index: nat)
      requires Valid() && index <= cnt < regions.Length
      modifies regions
      ensures regions[..] == FusePrev(old(regions[..]), cnt, index)
    {
      hide Move;
      if index > 0 && regions[index - 1].End() == regions[index].base {
        regions[index] := Region(regions[index - 1].base, regions[index].size + regions[index - 1].size);
        assert regions[..] == old(regions[..])[index := regions[index]];
        MoveRegions(index - 1, index, cnt - index);
      }
    }

    method FuseWithNext(index: nat)
      requires Valid() && index <= cnt < regions.Length
      modifies regions
      ensures regions[..] == FuseNext(old(regions[..]), cnt, index)
    {
      hide Move;
      if index < cnt && regions[index].End() == regions[index + 1].base {
        regions[index + 1] := Region(regions[index].base, regions[index + 1].size + regions[index].size);
        assert regions[..] == old(regions[..])[index + 1 := regions[index + 1]];
        MoveRegions(index, index + 1, cnt - (index + 1));
      }
    }

    /** `memblock_fusion_region`. */
    method FusionRegion(index: nat)
      requires Valid() && index <= cnt < regions.Length
      modifies regions
      ensures regions[..] == Fuse(old(regions[..]), cnt, index)
    {
      if cnt == 1 { return; }
      FuseWithPrevious(index);
      FuseWithNext(index);
    }

    /** The loop of `memblock_add_region`. */
    method InsertGaps(first: nat, nend: nat) returns (i: nat, base: nat)
      requires Valid() && |AddWalk(InUse(), 0, first, nend).regs| <= regions.Length
      modifies this, regions
      ensures Valid() && AddWalk(old(InUse()), 0, first, nend) == Walk(InUse(), i, base)
      ensures totalSize - Sum(InUse()) == old(totalSize - Sum(InUse()))
      ensures cnt >= old(cnt) && forall k :: cnt <= k < regions.Length ==> regions[k] == old(regions[k])
    {
      hide AddWalk, Sum;
      ghost var w := AddWalk(InUse(), 0, first, nend);
      i, base := 0, first;
      while i < cnt
        invariant 0 <= i <= cnt && Valid() && cnt >= old(cnt)
        invariant AddWalk(InUse(), i, base, nend) == w
        invariant totalSize - Sum(InUse()) == old(totalSize - Sum(InUse()))
        invariant forall k :: cnt <= k < regions.Length ==> regions[k] == old(regions[k])
        decreases cnt - i
      {
        WalkTurn(InUse(), i, base, nend);
        var rbeg, rend := regions[i].base, regions[i].End();
        if rbeg >= nend { return; }
        if rend <= base { i := i + 1; continue; }
        if rbeg >= base {
          InsertRegion(i, base, rbeg - base);
          i := i + 1;
        }
        base := if rend < nend then rend else nend;
        i := i + 1;
      }
      WalkTurn(InUse(), i, base, nend);
    }

    /** The walk and the piece at the end. */
    method InsertPieces(base0: nat, nend: nat) returns (i: nat)
      requires Valid() && |AddPieces(InUse(), base0, nend).0| <= regions.Length
      modifies this, regions
      ensures Valid() && (InUse(), i) == AddPieces(old(InUse()), base0, nend)
      ensures totalSize - Sum(InUse()) == old(totalSize - Sum(InUse()))
      ensures forall k :: cnt <= k < regions.Length ==> regions[k] == old(regions[k])
    {
      PiecesOfWalk(InUse(), base0, nend);
      hide AddPieces, AddWalk, Sum;
      var base;
      i, base := InsertGaps(base0, nend);
      if base < nend {
        InsertRegion(i, base, nend - base);
      }
    }

    /** `memblock_add_region` from the rounded range on. */
    method AddPages(base: nat, size: nat, nend: nat)
      requires Valid() && cnt > 0
      requires regions[0].size > 0 ==> |AddPieces(InUse(), base, nend).0| < regions.Length
      modifies this, regions
      ensures Valid()
      ensures var R := old(InUse());
        if R[0].size == 0 then InUse() == R[0 := Region(base, size)]
        else
          var (P, i) := AddPieces(R, base, nend);
          cnt == |P| && regions[..] == Fuse(P + old(regions[..])[|P|..], |P|, i)
      ensures totalSize == old(totalSize) + if old(InUse())[0].size == 0 then size
                                            else Sum(AddPieces(old(InUse()), base, nend).0) - Sum(old(InUse()))
      ensures var R := old(InUse());
        Separated(R) && Nonempty(R) && base < nend ==>
          && (Sorted(InUse()) <==> Reaches(R, nend) || !Abuts(R, base, nend))
          && (!Sorted(InUse()) ==> RightButLast(InUse(), R, base, nend))
          && forall a: nat :: Covers(InUse(), a) <==> Covers(R, a) || base <= a < nend
      ensures var R := old(InUse());
        Separated(R) && Nonempty(R) && base < nend ==>
          && (Separated(InUse()) && Nonempty(InUse()) <==> Clear(R, base, nend) || Inside(R, base, nend))
          && (Separated(InUse()) && Nonempty(InUse()) ==>
               && cnt == (if Clear(R, base, nend) then old(cnt) + 1 else old(cnt))
               && (PageAligned(R) && base % PAGE_SIZE == 0 && nend % PAGE_SIZE == 0 ==> PageAligned(InUse()))
               && forall a: nat :: Covers(InUse(), a) <==> Covers(R, a) || base <= a < nend)
    {
      hide AddPieces, Fuse, Separated, Nonempty, Reaches, Abuts, Covers, Sorted, RightButLast, Clear, Inside;
      hide PageAligned, Sum;
      ghost var R, A := InUse(), regions[..];
      if R[0].size != 0 && Separated(R) && Nonempty(R) && base < nend {
        AddIsRightExactlyWhen(A, cnt, base, nend);
        if Abuts(R, base, nend) && !Reaches(R, nend) { AbuttingAddRepeatsLast(A, cnt, base, nend); }
        AddStaysTidyExactlyWhen(A, cnt, base, nend);
      }
      if R[0].size == 0 { EmptyFirst(R); }
      if regions[0].size == 0 {
        regions[0] := Region(base, size);
        totalSize := totalSize + size;
        assert InUse() == R[0 := Region(base, size)];
        return;
      }
      var i := InsertPieces(base, nend);
      assert regions[..] == InUse() + A[cnt..];
      FusionRegion(i);
      assert InUse() == regions[..][..cnt];
    }

    /** `memblock_add_region`: into an empty array the page-rounded range goes as it is.  Into
        separated regions it is added exactly when some region already reaches its end or none
        abuts it; otherwise the last region ends up in the array twice.  They are separated and
        nonempty again, ready for the next add, exactly when the range is clear of all regions or
        inside one that begins below it.  An end of 4 GiB becomes 0. */
    method AddRegion(base0: nat, size0: nat)
      requires Valid() && cnt > 0 && Low(InUse()) && base0 + size0 <= B32
      requires regions[0].size > 0 ==>
        |AddPieces(InUse(), RoundDown(base0), RoundUp(base0 + size0) % B32).0| < regions.Length
      modifies this, regions
      ensures Valid()
      ensures var R, B, E := old(InUse()), RoundDown(base0), RoundUp(base0 + size0) % B32;
        if R[0].size == 0 then InUse() == R[0 := Region(B, (E - B) % B32)]
        else
          var (P, i) := AddPieces(R, B, E);
          cnt == |P| && regions[..] == Fuse(P + old(regions[..])[|P|..], |P|, i)
      ensures var R, B, E := old(InUse()), RoundDown(base0), RoundUp(base0 + size0);
        Separated(R) && Nonempty(R) && B < E < B32 ==>
          && (Sorted(InUse()) <==> Reaches(R, E) || !Abuts(R, B, E))
          && (!Sorted(InUse()) ==> RightButLast(InUse(), R, B, E))
          && forall a: nat :: Covers(InUse(), a) <==> Covers(R, a) || B <= a < E
      ensures var R, B, E := old(InUse()), RoundDown(base0), RoundUp(base0 + size0);
        Separated(R) && Nonempty(R) && B < E < B32 ==>
          && (Separated(InUse()) && Nonempty(InUse()) <==> Clear(R, B, E) || Inside(R, B, E))
          && (Separated(InUse()) && Nonempty(InUse()) ==>
               && cnt == (if Clear(R, B, E) then old(cnt) + 1 else old(cnt))
               && (PageAligned(R) ==> PageAligned(InUse()))
               && forall a: nat :: Covers(InUse(), a) <==> Covers(R, a) || B <= a < E)
    {
      hide AddPieces, Fuse, Separated, Nonempty, Reaches, Abuts, Covers, Sorted, RoundUp, RoundDown, AdjustRegion, Low;
      hide Clear, Inside, PageAligned, RightButLast;
      AdjustIsExactWhen(base0, size0);
      var (base, size, nend) := AdjustRegion(base0, size0);
      AddPages(base, size, nend);
    }
  }

  /** ... so that the next add, clear of all regions, takes its place: a right add is followed by a
      wrong one. */
  method RightAddThenWrong(mb: MemblockType)
    requires mb.Valid() && mb.InUse() == [Region(0x1000, 0x2000)] && mb.regions.Length > 2
    modifies mb, mb.regions
    ensures mb.Valid() && mb.InUse() == [Region(0x5000, 0x1000), Region(0x1000, 0x2000)] && !Sorted(mb.InUse())
  {
    ghost var A := mb.regions[..];
    EmptyInFront(A[2..]);
    PageBounds();
    hide AddPieces, Fuse, Separated, Nonempty, Reaches, Abuts, Covers, Sorted, Clear, Inside, RoundUp, RoundDown;
    assert A[0] == mb.InUse()[0];
    mb.AddRegion(0x1000, 0x1000);
    assert mb.InUse() == mb.regions[..][..2] == [Region(0x1000, 0), Region(0x1000, 0x2000)];
    mb.AddRegion(0x5000, 0x1000);
    OutOfOrder(mb.InUse());
  }

  lemma PageBounds()
    ensures RoundDown(0x1000) == 0x1000 && RoundUp(0x2000) == 0x2000
    ensures RoundDown(0x5000) == 0x5000 && RoundUp(0x6000) == 0x6000
  {
  }

  lemma OutOfOrder(R: seq<Region>)
    requires R == [Region(0x5000, 0x1000), Region(0x1000, 0x2000)]
    ensures !Sorted(R)
  {
    assert R[0].End() > R[1].base;
  }

  const LAST_PAGE: seq<Region> := [Region(0x1_0000, 0x1000)]

  /** The only free page is a fit, and no region reaches beyond it. */
  lemma LastPageFits()
    ensures FirstFit(LAST_PAGE, 0x1000, 0x1000, 0x1_0000, 0x10_0000, 0x1_0000)
    ensures forall a: nat :: FitsIn(LAST_PAGE, 0x1000, 0x1000, 0x1_0000, 0x10_0000, a) ==> a == 0x1_0000
    ensures !Crosses(LAST_PAGE, 0x1_1000)
  {
    assert LAST_PAGE[0] == Region(0x1_0000, 0x1000);
  }

  lemma NothingLeft(R: seq<Region>)
    requires Removed(LAST_PAGE, R, 0x1_0000, 0x1_1000)
    ensures forall a: nat :: !Covers(R, a)
  {
  }

  lemma OnlyFit(a: nat)
    requires FirstFit(LAST_PAGE, 0x1000, 0x1000, 0x1_0000, 0x10_0000, a)
    ensures a == 0x1_0000 && RoundDown(a) == a && RoundUp(a + 0x1000) == 0x1_1000
  {
    LastPageFits();
  }

  /** So asking for a page when one is free can lose it: the answer is 0, and nothing is left. */
  method LastPageIsLost(mb: MemblockType) returns (r: nat)
    requires mb.Valid() && mb.InUse() == LAST_PAGE && mb.cnt < mb.regions.Length
    modifies mb, mb.regions
    ensures r == 0 && mb.Valid() && forall a: nat :: !Covers(mb.InUse(), a)
  {
    LastPageFits();
    Powers();
    hide FirstFit, FitsIn, Crosses, Removed, Covers, RoundUp, RoundDown;
    r := mb.AllocRange(0x1000, 0x1000, 0x1_0000, 0x10_0000);
    if r != 0 { OnlyFit(r); }
    ghost var a: nat :| FirstFit(LAST_PAGE, 0x1000, 0x1000, 0x1_0000, 0x10_0000, a)
      && if RoundUp(a + 0x1000) < B32
         then Removed(LAST_PAGE, mb.InUse(), RoundDown(a), RoundUp(a + 0x1000))
         else mb.InUse() == LAST_PAGE;
    OnlyFit(a);
    NothingLeft(mb.InUse());
  }
}
