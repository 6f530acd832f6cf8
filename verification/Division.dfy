/** The 64-by-32-bit division of src/arch/x86/math.c in two steps, and the recursive power of
    src/core/math.c. */
module Division {
  import opened Arithmetic

  /** The `div` instruction: it faults unless the quotient fits into 32 bits. */
  function DivL(upp: nat, low: nat, div: nat): (r: (nat, nat))
    requires div > 0 && upp < div && low < B32 && div < B32
    ensures r.0 < B32 && r.1 < div && upp * B32 + low == r.0 * div + r.1
  {
    var v := upp * B32 + low;
    QuotientFits(upp, low, div, v / div);
    (v / div, v % div)
  }

  lemma QuotientFits(upp: nat, low: nat, div: nat, q: nat)
    requires div > 0 && upp < div && low < B32 && q == (upp * B32 + low) / div
    ensures q < B32
  {
    var v := upp * B32 + low;
    assert v < (upp + 1) * B32 <= div * B32;
    if q >= B32 { MulMonotone(B32, q, div); }
    assert v == q * div + v % div;
  }

  /** `arch_div`: quotient and remainder of a 64-bit value by a nonzero 32-bit value. */
  method ArchDiv(val: nat, div: nat) returns (q: nat, rem: nat)
    requires val < B64 && 0 < div < B32
    ensures q == val / div && rem == val % div
  {
    var upp := val / B32;
    var low := val % B32;
    var result := 0;
    ghost var high := 0;
    if upp >= div {
      high := upp / div;
      result := (upp / div) * B32;
      upp := upp % div;
    }
    var d := DivL(upp, low, div);
    assert val == (high * div + upp) * B32 + low;
    TwoSteps(val, div, high, upp, low, d.0, d.1);
    q := result + d.0;
    rem := d.1;
  }

  lemma TwoSteps(val: nat, div: nat, high: nat, upp: nat, low: nat, q: nat, r: nat)
    requires div > 0 && r < div && val == (high * div + upp) * B32 + low && upp * B32 + low == q * div + r
    ensures val / div == high * B32 + q && val % div == r
  {
    var t := high * B32 + q;
    assert (high * div) * B32 == (high * B32) * div;
    assert div * t == (high * B32) * div + q * div;
    QuotientUnique(val, div, t, r);
  }

  function Power(base: nat, exp: nat): nat {
    if exp == 0 then 1 else base * Power(base, exp - 1)
  }

  /** `pow`, without the 64-bit wrap-around. */
  function Pow(base: nat, exp: nat): nat
  {
    if exp == 0 then 1
    else
      var val := Pow(base, exp / 2);
      if exp % 2 == 0 then val * val else base * val * val
  }

  lemma {:induction false} PowIsPower(base: nat, exp: nat)
    ensures Pow(base, exp) == Power(base, exp)
  {
    if exp > 0 {
      PowIsPower(base, exp / 2);
      HalvedPower(base, exp, exp / 2, Power(base, exp / 2));
    }
  }

  lemma HalvedPower(base: nat, exp: nat, half: nat, val: nat)
    requires exp > 0 && half == exp / 2 && val == Power(base, half)
    ensures Power(base, exp) == if exp % 2 == 0 then val * val else base * val * val
  {
    PowerAdds(base, half, half);
    if exp % 2 == 1 {
      assert exp - 1 == half + half;
      MulAssoc(base, val, val);
    } else {
      assert exp == half + half;
    }
  }

  lemma {:induction false} PowerAdds(base: nat, a: nat, b: nat)
    ensures Power(base, a + b) == Power(base, a) * Power(base, b)
  {
    if a > 0 {
      PowerAdds(base, a - 1, b);
      assert Power(base, a) * Power(base, b) == base * (Power(base, a - 1) * Power(base, b));
    }
  }
}
