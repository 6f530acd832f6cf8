/** `round_up` of src/include/elfboot/core.h: a formula on bits, and when it rounds up to a multiple. */
module Rounding {
  import opened Arithmetic
  import opened Dyadic

  /** Bitwise or. */
  function Or(a: nat, b: nat): nat {
    if a == 0 && b == 0 then 0
    else 2 * Or(a / 2, b / 2) + if a % 2 == 1 || b % 2 == 1 then 1 else 0
  }

  /** `((x - 1) | (align - 1)) + 1` for a positive x, as an unbounded number. */
  function OrUp(x: nat, align: nat): nat
    requires x > 0 && align > 0
  {
    Or(x - 1, align - 1) + 1
  }

  /** `round_up`, 32 bits wide. */
  function RoundUpTo(x: nat, align: nat): nat
    requires align > 0
  {
    (Or((x - 1) % B32, align - 1) + 1) % B32
  }

  predicate IsPow2(align: nat) {
    exists k: nat :: k < 32 && align == Pow2(k)
  }

  lemma {:induction false} OrNone(a: nat)
    ensures Or(a, 0) == a
  {
    if a > 0 { OrNone(a / 2); }
  }

  lemma {:induction false} OrGrows(a: nat, b: nat)
    ensures Or(a, b) >= a
  {
    if a > 0 || b > 0 { OrGrows(a / 2, b / 2); }
  }

  /** No bit appears that neither number has. */
  lemma {:induction false} OrFits(a: nat, b: nat, k: nat)
    requires a < Pow2(k) && b < Pow2(k)
    ensures Or(a, b) < Pow2(k)
  {
    if k > 0 && (a > 0 || b > 0) { OrFits(a / 2, b / 2, k - 1); }
  }

  /** Or with the low k bits leads to just below the next multiple of 2^k. */
  lemma {:induction false} OrOnes(a: nat, k: nat)
    ensures var r := Or(a, Pow2(k) - 1) + 1; Aligned(r, k) && a < r <= a + Pow2(k)
  {
    if k == 0 {
      OrNone(a);
    } else {
      hide Or;
      OrOnes(a / 2, k - 1);
      OrStep(a, Pow2(k - 1));
      Doubled(a, Or(a / 2, Pow2(k - 1) - 1) + 1, k);
    }
  }

  lemma Doubled(a: nat, r: nat, k: nat)
    requires k > 0 && Aligned(r, k - 1) && a / 2 < r <= a / 2 + Pow2(k - 1)
    ensures Aligned(2 * r, k) && a < 2 * r <= a + Pow2(k)
  {
    assert (2 * r) / 2 == r;
  }

  lemma OrStep(a: nat, m: nat)
    requires m > 0
    ensures Or(a, 2 * m - 1) == 2 * Or(a / 2, m - 1) + 1
  {
    assert (2 * m - 1) / 2 == m - 1 && (2 * m - 1) % 2 == 1;
  }

  /** For a power of two it is the least multiple from x up. */
  lemma LeastMultiple(x: nat, k: nat)
    requires x > 0
    ensures Pow2(k) > 0 && x <= OrUp(x, Pow2(k)) < x + Pow2(k) && OrUp(x, Pow2(k)) % Pow2(k) == 0
    ensures forall a: nat :: x <= a && a % Pow2(k) == 0 ==> OrUp(x, Pow2(k)) <= a
  {
    var r := OrUp(x, Pow2(k));
    OrOnes(x - 1, k);
    AlignedMeansMultiple(r, k);
    forall a: nat | x <= a && a % Pow2(k) == 0
      ensures r <= a
    {
      AlignedMeansMultiple(a, k);
      if a < r { AlignedGap(a, r, k); }
    }
  }

  // --- other alignments ----------------------------------------------------------------

  function LowBit(a: nat): (r: nat)
    requires a > 0
    ensures 0 < r <= a
  {
    if a % 2 == 1 then 1 else 2 * LowBit(a / 2)
  }

  lemma {:induction false} OrBefore(a: nat)
    requires a > 0
    ensures Or(a, a - 1) + 1 == a + LowBit(a)
  {
    if a % 2 == 1 {
      assert Or(a, a - 1) == 2 * Or(a / 2, a / 2) + 1;
      OrItself(a / 2);
    } else {
      assert (a - 1) / 2 == a / 2 - 1;
      OrBefore(a / 2);
    }
  }

  lemma {:induction false} OrItself(a: nat)
    ensures Or(a, a) == a
  {
    if a > 0 { OrItself(a / 2); }
  }

  lemma {:induction false} OnlyBit(a: nat) returns (k: nat)
    requires a > 0 && LowBit(a) == a
    ensures a == Pow2(k)
  {
    if a == 1 {
      k := 0;
    } else {
      k := OnlyBit(a / 2);
      k := k + 1;
    }
  }

  ghost predicate AlwaysAligns(align: nat)
    requires align > 0
  {
    forall x: nat :: x > 0 ==> OrUp(x, align) % align == 0
  }

  /** It always gives a multiple if and only if the alignment is a power of two. */
  lemma AlignsExactlyWhen(align: nat)
    requires align > 0
    ensures AlwaysAligns(align) <==> exists k: nat :: align == Pow2(k)
  {
    if k: nat :| align == Pow2(k) {
      forall x: nat | x > 0
        ensures OrUp(x, align) % align == 0
      {
        LeastMultiple(x, k);
      }
    }
    if AlwaysAligns(align) {
      var low := LowBit(align);
      OrBefore(align);
      assert OrUp(align + 1, align) == align + low;
      QuotientUnique(align + low, align, if low == align then 2 else 1, if low == align then 0 else low);
      var k := OnlyBit(align);
    }
  }

  /** 6 is none: 7 is rounded up to 8. */
  lemma SixDoesNotAlign()
    ensures RoundUpTo(7, 6) == 8 && !AlwaysAligns(6)
  {
    assert Or(6, 5) == 7;
    assert OrUp(7, 6) == 8;
  }

  // --- the 32-bit wrap-around ------------------------------------------------------------

  /** Only a result of 2^32 wraps around, to 0. */
  lemma RoundUpWraps(x: nat, align: nat)
    requires 0 < x < B32 && 0 < align <= B32
    ensures x <= OrUp(x, align) <= B32
    ensures RoundUpTo(x, align) == if OrUp(x, align) < B32 then OrUp(x, align) else 0
  {
    assert (x - 1) % B32 == x - 1;
    OrGrows(x - 1, align - 1);
    Powers();
    OrFits(x - 1, align - 1, 32);
  }

  lemma RoundUpZero(align: nat)
    requires 0 < align <= B32
    ensures RoundUpTo(0, align) == 0
  {
    OrGrows(B32 - 1, align - 1);
    Powers();
    OrFits(B32 - 1, align - 1, 32);
  }
}
