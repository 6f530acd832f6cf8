/** The object caches of src/mm/slub.c as values: slabs of equal slots, the partial and full lists
    of every cache, and what allocating and freeing an object does to them. */
module Slabs {
  import opened Wrappers
  import opened Arithmetic
  import opened Dyadic
  import opened PageMap
  import Carve

  const KMALLOC_MIN_SIZE: nat := 8
  const KMALLOC_MIN_SHIFT: nat := 0
  const KMALLOC_CACHE_NUM: nat := 13

  /** What never changes in a `struct bmem_cache`: slot size, slots per slab, order of a slab. */
  datatype Geometry = Geometry(size: nat, nums: nat, order: nat)

  /** `struct bmem_cache`: slabs are known by the number of their first page. */
  datatype Cache = Cache(geo: Geometry,
                         freeObjs: nat, freeSlabs: nat, totalSlabs: nat,
                         free: seq<nat>, partial: seq<nat>, full: seq<nat>)

  /** The slab part of a `struct page`. */
  datatype Slab = Slab(cache: nat, inuse: nat, freelist: seq<nat>)

  datatype Pool = Pool(caches: seq<Cache>, slabs: seq<Slab>)

  // --- sizes ---------------------------------------------------------------------------

  /** `round_up_pow2`; the shift count of an x86 shift is taken modulo 32. */
  function RoundUpPow2(v: nat): nat
    requires v > 0
  {
    Pow2(Carve.Fls(v - 1) % 32)
  }

  /** `bmalloc_index`; None stands for a negative index. */
  function BmallocIndex(size: nat): Option<nat> {
    if size == 0 then Some(0)
    else
      var up := RoundUpPow2(size);
      if up <= KMALLOC_MIN_SIZE then Some(KMALLOC_MIN_SHIFT)
      else if up <= Pow2(15) && Carve.Log2(up) >= 3 then Some(Carve.Log2(up) - 3)
      else None
  }

  /** `calculate_cache_order`. */
  function CacheOrder(size: nat): nat
    requires size > 0
  {
    var ret := Carve.Fls(size - 1);
    ret - (if ret < PAGE_SHIFT then ret else PAGE_SHIFT)
  }

  function CacheNums(size: nat): nat
    requires size > 0
  {
    if PAGE_SIZE / size > 1 then PAGE_SIZE / size else 1
  }

  lemma {:induction false} FlsBelowPow2(s: nat)
    ensures Carve.Fls(Pow2(s) - 1) == s
  {
    if s > 0 {
      FlsBelowPow2(s - 1);
      assert (Pow2(s) - 1) / 2 == Pow2(s - 1) - 1;
    }
  }

  /** The slots of a slab fill its block of pages exactly: a page of as many slots as it can hold, or the
      smallest block that holds one. */
  lemma SlotsFillBlock(s: nat)
    ensures var size := Pow2(s);
      CacheNums(size) * size == Pow2(CacheOrder(size)) * PAGE_SIZE && CacheNums(size) > 0
    ensures CacheOrder(Pow2(s)) == (if s <= PAGE_SHIFT then 0 else s - PAGE_SHIFT)
    ensures CacheNums(Pow2(s)) == if s <= PAGE_SHIFT then Pow2(PAGE_SHIFT - s) else 1
    ensures s <= PAGE_SHIFT + TOP ==> CacheOrder(Pow2(s)) <= TOP
  {
    FlsBelowPow2(s);
    if s <= PAGE_SHIFT { SmallSlots(s); } else { LargeSlots(s); }
  }

  lemma SlotCount(size: nat, n: nat)
    requires size > 0 && n > 0 && PAGE_SIZE == size * n
    ensures CacheNums(size) == n && n * size == PAGE_SIZE
  {
    QuotientUnique(PAGE_SIZE, size, n, 0);
  }

  lemma SmallSlots(s: nat)
    requires s <= PAGE_SHIFT
    ensures CacheNums(Pow2(s)) * Pow2(s) == PAGE_SIZE && CacheNums(Pow2(s)) == Pow2(PAGE_SHIFT - s) > 0
  {
    hide Pow2, CacheNums;
    PageSizeIsPow2();
    Pow2Sum(s, PAGE_SHIFT - s);
    SlotCount(Pow2(s), Pow2(PAGE_SHIFT - s));
  }

  lemma LargeSlots(s: nat)
    requires s > PAGE_SHIFT
    ensures CacheNums(Pow2(s)) == 1 && Pow2(s) == Pow2(s - PAGE_SHIFT) * PAGE_SIZE
  {
    PageSizeIsPow2();
    Pow2Sum(s - PAGE_SHIFT, PAGE_SHIFT);
    Pow2Monotone(PAGE_SHIFT + 1, s);
    QuotientUnique(PAGE_SIZE, Pow2(s), 0, PAGE_SIZE);
  }

  /** For 32-bit sizes: `bmalloc` finds a cache for sizes up to 32768, and it is the cache of the
      smallest fitting power of two, at least 8.  Sizes above 2^31 wrap around in the rounding
      and are given the cache of 8 bytes; all other sizes are refused. */
  lemma IndexFitsExactlyWhen(size: nat)
    requires 0 < size <= UINT_MAX
    ensures BmallocIndex(size).Some? <==> size <= Pow2(15) || size > Pow2(31)
    ensures BmallocIndex(size).Some? ==>
      var i := BmallocIndex(size).value;
      && i < KMALLOC_CACHE_NUM
      && (size <= Pow2(i + 3) <==> size <= Pow2(31))
      && (size <= Pow2(31) && i > 0 ==> Pow2(i + 2) < size)
  {
    hide BmallocIndex, Pow2, Carve.Fls;
    IndexByBits(size);
    BitsOf(size);
    PlaceOfBits(Carve.Fls(size - 1), size);
    IndexOfBits(Carve.Fls(size - 1), size, BmallocIndex(size));
  }

  lemma IndexOfBits(f: nat, size: nat, r: Option<nat>)
    requires f <= 32 && size <= Pow2(f) && (f > 0 ==> Pow2(f - 1) < size)
    requires f <= 15 ==> size <= Pow2(15) < Pow2(31)
    requires 15 < f <= 31 ==> Pow2(15) < size <= Pow2(31)
    requires f == 32 ==> Pow2(31) < size && Pow2(3) < size
    requires f <= 3 ==> size <= Pow2(3)
    requires r == if f % 32 <= 3 then Some(0) else if f % 32 <= 15 then Some(f % 32 - 3) else None
    ensures r.Some? <==> size <= Pow2(15) || size > Pow2(31)
    ensures r.Some? ==>
      var i := r.value;
      && i < KMALLOC_CACHE_NUM && (size <= Pow2(i + 3) <==> size <= Pow2(31))
      && (size <= Pow2(31) && i > 0 ==> Pow2(i + 2) < size)
  {
    hide Pow2;
    if f == 32 { assert f % 32 == 0; } else { assert f % 32 == f; }
  }

  /** Where a size of f bits lies among the powers of two that matter. */
  lemma PlaceOfBits(f: nat, size: nat)
    requires f <= 32 && size <= Pow2(f) && (f > 0 ==> Pow2(f - 1) < size)
    ensures f <= 15 ==> size <= Pow2(15) < Pow2(31)
    ensures 15 < f <= 31 ==> Pow2(15) < size <= Pow2(31)
    ensures f == 32 ==> Pow2(31) < size && Pow2(3) < size
    ensures f <= 3 ==> size <= Pow2(3)
  {
    hide Pow2;
    Pow2Monotone(3, 15);
    Pow2Monotone(15, 30);
    HalfSmaller();
    if f <= 15 { Pow2Monotone(f, 15); }
    if 15 < f <= 31 { Pow2Monotone(15, f - 1); Pow2Monotone(f, 31); }
    if f <= 3 { Pow2Monotone(f, 3); }
  }

  lemma HalfSmaller()
    ensures Pow2(30) < Pow2(31)
  {
  }

  lemma IndexByBits(size: nat)
    requires size > 0
    ensures var f := Carve.Fls(size - 1) % 32;
      BmallocIndex(size) == if f <= 3 then Some(0) else if f <= 15 then Some(f - 3) else None
  {
    var f := Carve.Fls(size - 1) % 32;
    Carve.FlsOfPow2(f);
    Powers();
    if f <= 3 { Pow2Monotone(f, 3); } else { Pow2Monotone(4, f); }
    if f <= 15 { Pow2Monotone(f, 15); } else { Pow2Monotone(16, f); }
  }

  lemma BitsOf(size: nat)
    requires 0 < size <= UINT_MAX
    ensures var f := Carve.Fls(size - 1); f <= 32 && size <= Pow2(f) && (f > 0 ==> Pow2(f - 1) < size)
  {
    var f := Carve.Fls(size - 1);
    Powers();
    if size == 1 {
      assert f == 0;
    } else {
      Carve.FlsBounds(size - 1);
      if f > 32 { Pow2Monotone(32, f - 1); }
    }
  }

  /** One byte more than 2 GiB is given the cache of 8 bytes. */
  lemma HugeSizeGetsEightBytes()
    ensures BmallocIndex(0x8000_0001) == Some(0)
  {
    hide BmallocIndex, Pow2, Carve.Fls;
    Powers();
    Carve.FlsOfPow2(31);
    IndexByBits(0x8000_0001);
  }
}
