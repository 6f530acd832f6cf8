/** Dyadic blocks: runs of 2^k pages that start at a multiple of 2^k, and the
    XOR arithmetic that `page_buddy` uses to find the other half of a parent block. */
module Dyadic {
  import opened Arithmetic

  function Pow2(k: nat): (r: nat)
    ensures r > 0
  {
    if k == 0 then 1 else 2 * Pow2(k - 1)
  }

  /** p is a multiple of 2^k. */
  predicate Aligned(p: nat, k: nat) {
    k == 0 || (p % 2 == 0 && Aligned(p / 2, k - 1))
  }

  /** Page x lies in the run of 2^k pages that starts at p. */
  predicate InBlock(p: nat, k: nat, x: int) {
    p <= x < p + Pow2(k)
  }

  /** The other half of the parent of block (p, k). */
  function Buddy(p: nat, k: nat): (b: nat)
    requires Aligned(p, k)
  {
    if Aligned(p, k + 1) then p + Pow2(k) else BuddyIsLower(p, k); p - Pow2(k)
  }

  /** The first page of the parent of block (p, k). */
  function Parent(p: nat, k: nat): (q: nat)
    requires Aligned(p, k)
    ensures Aligned(q, k + 1)
  {
    if Aligned(p, k + 1) then p else BuddyIsLower(p, k); p - Pow2(k)
  }

  /** Bitwise exclusive or. */
  function Xor(a: nat, b: nat): nat {
    if a == 0 && b == 0 then 0
    else 2 * Xor(a / 2, b / 2) + (a % 2 + b % 2) % 2
  }

  lemma {:induction false} AlignedMeansMultiple(p: nat, k: nat)
    ensures Aligned(p, k) <==> p % Pow2(k) == 0
  {
    if k > 0 {
      AlignedMeansMultiple(p / 2, k - 1);
      TwiceMultiple(p, Pow2(k - 1));
    }
  }

  lemma TwiceMultiple(p: nat, m: nat)
    requires m > 0
    ensures p % (2 * m) == 0 <==> p % 2 == 0 && (p / 2) % m == 0
  {
    var h := p / 2;
    var d, r := h / m, h % m;
    DivRem(h, m);
    MulAssoc(2, m, d);
    QuotientUnique(p, 2 * m, d, 2 * r + p % 2);
  }

  lemma {:induction false} BuddyIsLower(p: nat, k: nat)
    requires Aligned(p, k) && !Aligned(p, k + 1)
    ensures p >= Pow2(k) && Aligned(p - Pow2(k), k + 1)
  {
    if k > 0 {
      BuddyIsLower(p / 2, k - 1);
      assert (p - Pow2(k)) / 2 == p / 2 - Pow2(k - 1);
    }
  }

  lemma {:induction false} AlignedStep(p: nat, k: nat)
    requires Aligned(p, k + 1)
    ensures Aligned(p, k) && Aligned(p + Pow2(k), k) && !Aligned(p + Pow2(k), k + 1)
  {
    if k > 0 {
      AlignedStep(p / 2, k - 1);
      assert (p + Pow2(k)) / 2 == p / 2 + Pow2(k - 1);
    }
  }

  lemma {:induction false} AlignedDown(p: nat, k: nat, j: nat)
    requires Aligned(p, k) && j <= k
    ensures Aligned(p, j)
  {
    if j < k {
      AlignedStep(p, k - 1);
      AlignedDown(p, k - 1, j);
    }
  }

  lemma {:induction false} Pow2Monotone(j: nat, k: nat)
    requires j <= k
    ensures Pow2(j) <= Pow2(k)
    ensures j < k ==> 2 * Pow2(j) <= Pow2(k)
  {
    if j < k { Pow2Monotone(j, k - 1); }
  }

  /** Two distinct multiples of 2^k are at least 2^k apart. */
  lemma {:induction false} AlignedGap(p: nat, q: nat, k: nat)
    requires Aligned(p, k) && Aligned(q, k) && p < q
    ensures p + Pow2(k) <= q
  {
    if k > 0 { AlignedGap(p / 2, q / 2, k - 1); }
  }

  /** Dyadic blocks that share a page are nested. */
  lemma Laminar(p: nat, j: nat, q: nat, k: nat, x: nat)
    requires Aligned(p, j) && Aligned(q, k) && j <= k
    requires InBlock(p, j, x) && InBlock(q, k, x)
    ensures q <= p && p + Pow2(j) <= q + Pow2(k)
    ensures j == k ==> p == q
  {
    AlignedDown(q, k, j);
    EndAligned(q, k, j);
    if p < q { AlignedGap(p, q, j); }
    if q + Pow2(k) < p + Pow2(j) && q + Pow2(k) != p {
      if p < q + Pow2(k) { AlignedGap(p, q + Pow2(k), j); }
    }
    if j == k && q < p { AlignedGap(q, p, j); }
  }

  lemma {:induction false} EndAligned(q: nat, k: nat, j: nat)
    requires Aligned(q, k) && j <= k
    ensures Aligned(q + Pow2(k), j)
    decreases k
  {
    if k == j {
      if k > 0 { EndAligned(q / 2, k - 1, j - 1); assert (q + Pow2(k)) / 2 == q / 2 + Pow2(k - 1); }
    } else {
      AlignedStep(q, k - 1);
      EndAligned(q + Pow2(k - 1), k - 1, j);
      assert q + Pow2(k) == q + Pow2(k - 1) + Pow2(k - 1);
    }
  }

  /** Everything about a block, its buddy and their parent. */
  lemma BuddyFacts(p: nat, k: nat)
    requires Aligned(p, k)
    ensures var b, q := Buddy(p, k), Parent(p, k);
      && Aligned(b, k) && Aligned(q, k + 1) && Buddy(b, k) == p && Parent(b, k) == q
      && q == (if p < b then p else b) && (if p < b then b else p) == q + Pow2(k)
      && Pow2(k + 1) == 2 * Pow2(k)
  {
    if Aligned(p, k + 1) {
      AlignedStep(p, k);
    } else {
      BuddyIsLower(p, k);
      AlignedStep(p - Pow2(k), k);
    }
  }

  lemma BothInParent(p: nat, k: nat)
    requires Aligned(p, k)
    ensures InBlock(Parent(p, k), k + 1, p) && InBlock(Parent(p, k), k + 1, Buddy(p, k))
    ensures InBlock(Buddy(p, k), k, Buddy(p, k))
  {
    BuddyFacts(p, k);
    hide Buddy, Parent, Aligned;
  }

  /** A page of the buddy block that lies in a dyadic block of any order not containing the
      whole parent: that block is no larger than the buddy, and if it holds the buddy's
      first page then it starts there. */
  lemma HeadInBuddy(p: nat, k: nat, h: nat, j: nat)
    requires Aligned(p, k) && Aligned(h, j) && InBlock(h, j, Buddy(p, k))
    requires !InBlock(h, j, p)
    ensures j <= k && h == Buddy(p, k)
  {
    BuddyFacts(p, k);
    BothInParent(p, k);
    hide Buddy, Parent, Aligned, Pow2;
    var b, q := Buddy(p, k), Parent(p, k);
    if k < j {
      Laminar(q, k + 1, h, j, b);
    } else {
      Laminar(h, j, b, k, b);
    }
  }

  lemma Powers()
    ensures Pow2(0) == 1 && Pow2(3) == 8 && Pow2(4) == 16 && Pow2(15) == 0x8000 && Pow2(16) == 0x1_0000
    ensures Pow2(12) == 0x1000 && Pow2(30) == 0x4000_0000 && Pow2(31) == 0x8000_0000 && Pow2(32) == B32
  {
    assert Pow2(8) == 256;
    assert Pow2(16) == 65536;
    assert Pow2(24) == 16777216;
  }

  lemma {:induction false} Pow2Sum(a: nat, b: nat)
    ensures Pow2(a + b) == Pow2(a) * Pow2(b)
  {
    if a > 0 {
      Pow2Sum(a - 1, b);
      assert Pow2(a) * Pow2(b) == 2 * (Pow2(a - 1) * Pow2(b));
    }
  }

  // --- XOR ---------------------------------------------------------------

  lemma {:induction false} XorZero(a: nat)
    ensures Xor(a, 0) == a
  {
    if a > 0 { XorZero(a / 2); }
  }

  /** Flipping bit k of a multiple of 2^k yields the buddy. */
  lemma {:induction false} XorIsBuddy(p: nat, k: nat)
    requires Aligned(p, k)
    ensures Xor(p, Pow2(k)) == Buddy(p, k)
  {
    if k == 0 {
      XorZero(p / 2);
      assert Aligned(p, 1) <==> Aligned(p / 2, 0) && p % 2 == 0;
      assert Xor(p, 1) == 2 * Xor(p / 2, 0) + (p % 2 + 1) % 2;
    } else {
      XorIsBuddy(p / 2, k - 1);
      BuddyFacts(p, k);
      BuddyFacts(p / 2, k - 1);
      assert Pow2(k) / 2 == Pow2(k - 1) && Pow2(k) % 2 == 0;
    }
  }

  /** Shifting both operands left shifts the result. */
  lemma {:induction false} XorShift(a: nat, b: nat, s: nat)
    ensures Xor(a * Pow2(s), b * Pow2(s)) == Xor(a, b) * Pow2(s)
  {
    if s > 0 {
      XorShift(a, b, s - 1);
      XorTwice(a, b, Xor(a, b), Pow2(s - 1));
    }
  }

  lemma XorTwice(a: nat, b: nat, x: nat, m: nat)
    requires Xor(a * m, b * m) == x * m
    ensures Xor(a * (2 * m), b * (2 * m)) == x * (2 * m)
  {
    hide Xor;
    DoubleFactor(a, m);
    DoubleFactor(b, m);
    DoubleFactor(x, m);
    XorDouble(a * m, b * m);
  }

  lemma DoubleFactor(a: nat, m: nat)
    ensures a * (2 * m) == 2 * (a * m)
  {
  }

  lemma XorDouble(a: nat, b: nat)
    ensures Xor(2 * a, 2 * b) == 2 * Xor(a, b)
  {
  }
}
