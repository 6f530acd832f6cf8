/** Where ext2fs_inode_block looks for a logical block: the loop over the indirection levels, on
    32-bit numbers, against the layout of direct, singly, doubly and triply indirect blocks. */
module Ext2Map {
  import opened Arithmetic
  import opened Dyadic
  import opened Division

  const EXT2_DLP_NUM: nat := 12
  const EXT2_MLP_LEN: nat := 4

  /** A direct pointer; an index below one of the three roots; no level fits (the last quotient
      is returned as it is); or a division by zero. */
  datatype Place = Direct(i: nat) | Tree(level: nat, index: nat) | Missing(idx: nat) | Fault

  /** Subtraction of 32-bit numbers. */
  function Sub32(a: nat, b: nat): (r: nat)
    ensures r < B32
  {
    (a - b) % B32
  }

  /** Division of unsigned numbers. */
  function Quotient(a: nat, m: nat): (q: nat)
    requires m > 0
    ensures q <= a
  {
    QuotientSmaller(a, m);
    a / m
  }

  /** The loop from level i on; n pointers fit into a block. */
  function LocateFrom(n: nat, cblock: nat, blkmlp: nat, i: nat, idx: nat): Place
    decreases 3 - i
  {
    if i >= 3 then Missing(idx)
    else
      var m := (blkmlp * Pow(n, i)) % B32;
      if m == 0 then Fault
      else
        var w := Sub32(cblock, m);
        var q := Quotient(w, m);
        if (q * EXT2_MLP_LEN) % B32 >= n * EXT2_MLP_LEN then LocateFrom(n, w, m, i + 1, q) else Tree(i, w)
  }

  /** `ext2fs_inode_block` up to the walk: where it looks for logical block c. */
  function Locate(n: nat, c: nat): Place {
    if c < EXT2_DLP_NUM then Direct(c)
    else LocateFrom(n, Sub32(c, EXT2_DLP_NUM - 1), 1, 0, 0)
  }

  /** Where the format keeps logical block c. */
  function Home(n: nat, c: nat): Place {
    var d := c - EXT2_DLP_NUM;
    if d < 0 then Direct(c)
    else if d < n then Tree(0, d)
    else if d - n < n * n then Tree(1, d - n)
    else if d - n - n * n < n * n * n then Tree(2, d - n - n * n)
    else Missing(0)
  }

  /** The index at one level of the walk. */
  function Digit(n: nat, index: nat, level: nat): nat
    requires n > 0
  {
    PowPositive(n, level);
    (index / Pow(n, level)) % n
  }

  lemma {:induction false} PowPositive(n: nat, e: nat)
    requires n > 0
    ensures Pow(n, e) > 0
  {
    PowIsPower(n, e);
    PowerPositive(n, e);
  }

  lemma {:induction false} PowerPositive(n: nat, e: nat)
    requires n > 0
    ensures Power(n, e) > 0
  {
    if e > 0 { PowerPositive(n, e - 1); }
  }

  lemma SmallPowers(n: nat)
    ensures Pow(n, 0) == 1 && Pow(n, 1) == n && Pow(n, 2) == n * n
  {
    assert Pow(n, 1) == n * Pow(n, 0) * Pow(n, 0);
    assert Pow(n, 2) == Pow(n, 1) * Pow(n, 1);
  }

  /** The path to a block: the direct pointer, or the root and the indices from the top. */
  datatype Path = Path(root: nat, digits: seq<nat>) | NoPath

  function PathOf(n: nat, p: Place): Path
    requires n > 0
  {
    match p
    case Direct(i) => Path(i, [])
    case Tree(level, index) => Path(EXT2_DLP_NUM + level, Digits(n, index, level))
    case _ => NoPath
  }

  function Digits(n: nat, index: nat, level: nat): (d: seq<nat>)
    requires n > 0
    ensures |d| == level + 1 && d[0] == Digit(n, index, level)
  {
    if level == 0 then [Digit(n, index, 0)] else [Digit(n, index, level)] + Digits(n, index, level - 1)
  }

  function Squares(n: nat): nat {
    n * n
  }

  function Cubes(n: nat): nat {
    (n * n) * n
  }

  /** The number of blocks that direct, singly and doubly indirect pointers reach. */
  function LowBlocks(n: nat): nat {
    EXT2_DLP_NUM + n + Squares(n)
  }

  // --- the condition -----------------------------------------------------------------

  lemma LocateTurn(n: nat, cblock: nat, blkmlp: nat, i: nat, idx: nat, m: nat, q: nat)
    requires i < 3 && m == blkmlp * Pow(n, i) && 0 < m < B32 && m <= cblock < B32 && q == Quotient(cblock - m, m)
    requires q * EXT2_MLP_LEN < B32
    ensures LocateFrom(n, cblock, blkmlp, i, idx) ==
      if q >= n then LocateFrom(n, cblock - m, m, i + 1, q) else Tree(i, cblock - m)
  {
    QuotientUnique(m, B32, 0, m);
    QuotientUnique(cblock - m, B32, 0, cblock - m);
    QuotientUnique(q * EXT2_MLP_LEN, B32, 0, q * EXT2_MLP_LEN);
  }

  /** The first level. */
  lemma LocateSingly(n: nat, c: nat)
    requires 2 <= n < B32 && EXT2_DLP_NUM <= c && c * EXT2_MLP_LEN < B32
    ensures var d := c - EXT2_DLP_NUM;
      Locate(n, c) == if d >= n then LocateFrom(n, d, 1, 1, d) else Tree(0, d)
  {
    var d := c - EXT2_DLP_NUM;
    SmallPowers(n);
    QuotientUnique(d + 1, B32, 0, d + 1);
    QuotientUnique(d, 1, d, 0);
    LocateTurn(n, d + 1, 1, 0, 0, 1, d);
  }

  /** The second level. */
  lemma LocateDoubly(n: nat, d: nat)
    requires 2 <= n < B32 && n <= d && d * EXT2_MLP_LEN < B32
    ensures var q := Quotient(d - n, n);
      LocateFrom(n, d, 1, 1, d) == if q >= n then LocateFrom(n, d - n, n, 2, q) else Tree(1, d - n)
  {
    hide LocateFrom;
    SmallPowers(n);
    var q := Quotient(d - n, n);
    LocateTurn(n, d, 1, 1, d, n, q);
  }

  /** The first two levels. */
  lemma LocateLow(n: nat, c: nat)
    requires 2 <= n < B32 && EXT2_DLP_NUM <= c && c * EXT2_MLP_LEN < B32
    ensures var d := c - EXT2_DLP_NUM;
      Locate(n, c) == if d < n then Tree(0, d)
                      else if Quotient(d - n, n) < n then Tree(1, d - n)
                      else LocateFrom(n, d - n, n, 2, Quotient(d - n, n))
  {
    hide LocateFrom, Locate;
    LocateSingly(n, c);
    if c - EXT2_DLP_NUM >= n { LocateDoubly(n, c - EXT2_DLP_NUM); }
  }

  lemma BelowSquare(n: nat, d: nat)
    requires n > 0
    ensures Quotient(d, n) < n <==> d < Squares(n)
  {
    var q, r := d / n, d % n;
    assert d == n * q + r;
    if q < n { MulMonotone(q + 1, n, n); assert (q + 1) * n == n * q + n; } else { MulMonotone(n, q, n); }
  }

  /** Below 12 + n + n^2 the code looks exactly where the format keeps the block. */
  lemma LocateIsHome(n: nat, c: nat)
    requires 2 <= n < B32 && c * EXT2_MLP_LEN < B32 && c < LowBlocks(n)
    ensures Locate(n, c) == Home(n, c)
  {
    if c >= EXT2_DLP_NUM {
      LocateLow(n, c);
      if c - EXT2_DLP_NUM >= n { BelowSquare(n, c - EXT2_DLP_NUM - n); }
    }
  }

  /** The subtraction at the third level takes n^3 where n^2 belongs: modulo n^3 it lands n^2
      too high. */
  lemma ThirdLevelShift(sq: nat, cube: nat, u: nat, e: int, w: nat, r: nat) returns (s: int)
    requires B32 == cube * u && e == r + sq - cube && w == e % B32
    ensures w == r + sq + cube * s
  {
    var t := e / B32;
    var z := u * t;
    s := -1 - z;
    MulAssoc(cube, u, t);
    MulDistributes(cube, -1, z);
  }

  lemma NotItsSuccessor(n: nat, x: nat, s: int)
    requires n >= 2 && x < n
    ensures (n * s + (1 + x)) % n != x
  {
    AddMultiple(1 + x, n, s);
    if x + 1 < n { QuotientUnique(x + 1, n, 0, x + 1); } else { QuotientUnique(x + 1, n, 1, 0); }
  }

  lemma ShiftedQuotient(sq: nat, n: nat, s: int, r: nat, w: nat)
    requires sq > 0 && w == r + sq + (sq * n) * s
    ensures w / sq == n * s + (1 + r / sq)
  {
    MulAssoc(sq, n, s);
    MulDistributes(sq, 1, n * s);
    AddMultiple(r, sq, 1 + n * s);
  }

  /** So the top index of the walk is one too high (modulo n). */
  lemma TopDigitOff(n: nat, sq: nat, r: nat, w: nat, s: int)
    requires n >= 2 && sq > 0 && r < sq * n && w == r + sq + (sq * n) * s
    ensures (w / sq) % n != (r / sq) % n
  {
    QuotientBelow(r, sq, n);
    ShiftedQuotient(sq, n, s, r, w);
    NotItsSuccessor(n, r / sq, s);
    QuotientUnique(r / sq, n, 0, r / sq);
  }

  /** The cube of a power of two divides 2^32 or is a multiple of it. */
  lemma CubeDivides(k: nat) returns (u: nat)
    requires k <= 10
    ensures B32 == Pow2(k) * Pow2(k) * Pow2(k) * u && Pow2(k) * Pow2(k) * Pow2(k) < B32
  {
    u := Pow2(32 - 3 * k);
    Pow2Sum(k, k);
    Pow2Sum(2 * k, k);
    Pow2Sum(3 * k, 32 - 3 * k);
    Pow2Monotone(3 * k, 30);
    Powers();
  }

  lemma ThirdRoot(k: nat, e: nat, q: nat, r: nat)
    requires 1 <= k <= 10 && e < B32 && Pow2(k) >= 2
    requires e == r + Squares(Pow2(k)) && r < Cubes(Pow2(k))
    ensures PathOf(Pow2(k), LocateFrom(Pow2(k), e, Pow2(k), 2, q)) != PathOf(Pow2(k), Tree(2, r))
  {
    var n := Pow2(k);
    SmallPowers(n);
    MulAssoc(n, n, n);
    assert n * Pow(n, 2) == Cubes(n);
    var u := CubeDivides(k);
    QuotientUnique(Cubes(n), B32, 0, Cubes(n));
    var w := Sub32(e, Cubes(n));
    var s := ThirdLevelShift(Squares(n), Cubes(n), u, e - Cubes(n), w, r);
    TopDigitOff(n, Squares(n), r, w, s);
  }

  /** Beyond the doubly indirect blocks the loop reaches the third level. */
  lemma LocateHigh(n: nat, c: nat)
    requires 2 <= n < B32 && c * EXT2_MLP_LEN < B32 && LowBlocks(n) <= c
    ensures Locate(n, c) == LocateFrom(n, c - EXT2_DLP_NUM - n, n, 2, Quotient(c - EXT2_DLP_NUM - n, n))
  {
    hide Locate, LocateFrom, Squares, Quotient;
    LocateLow(n, c);
    BelowSquare(n, c - EXT2_DLP_NUM - n);
  }

  lemma SizeFits(k: nat)
    requires 1 <= k <= 13
    ensures 2 <= Pow2(k) < B32 && Pow2(k + 2) == EXT2_MLP_LEN * Pow2(k) && Pow2(k + 2) < 0x1_0000
  {
    Pow2Monotone(1, k);
    Pow2Monotone(k + 2, 15);
    Powers();
    assert Pow2(k + 2) == 2 * Pow2(k + 1);
  }

  /** The logical block at a 32-bit offset, and where the triply indirect blocks begin: from 4 KiB
      blocks on no offset reaches them. */
  lemma OffsetReach(k: nat, offset: nat)
    requires 1 <= k <= 13 && offset < B32
    ensures var c := Quotient(offset, Pow2(k + 2));
      c * EXT2_MLP_LEN < B32 && (k >= 10 ==> c < LowBlocks(Pow2(k)))
  {
    hide Pow2;
    SizeFits(k);
    var n, bs := Pow2(k), Pow2(k + 2);
    var c := Quotient(offset, bs);
    DivRem(offset, bs);
    MulMonotone(EXT2_MLP_LEN, bs, c);
    if k >= 10 {
      Powers();
      Pow2Sum(k + 2, 30 - k);
      QuotientBelow(offset, bs, Pow2(30 - k));
      Pow2Sum(k, k);
      Pow2Monotone(30 - k, k + k);
    }
  }

  /** Every divisor of the loop is positive for every offset that the code can be given: the cube
      of the number of pointers vanishes in 32 bits only where no offset leads. */
  lemma NoOffsetFaults(k: nat, offset: nat)
    requires 1 <= k <= 13 && offset < B32
    ensures Locate(Pow2(k), Quotient(offset, Pow2(k + 2))) != Fault
  {
    hide Locate, Squares, Quotient, Pow2, LowBlocks;
    var n, c := Pow2(k), Quotient(offset, Pow2(k + 2));
    SizeFits(k);
    OffsetReach(k, offset);
    if c < LowBlocks(n) {
      LocateIsHome(n, c);
    } else {
      LocateHigh(n, c);
      ThirdWorks(k, c - EXT2_DLP_NUM - n, Quotient(c - EXT2_DLP_NUM - n, n));
    }
  }

  lemma ThirdWorks(k: nat, e: nat, q: nat)
    requires 1 <= k <= 10 && Pow2(k) >= 2
    ensures LocateFrom(Pow2(k), e, Pow2(k), 2, q) != Fault
  {
    var n := Pow2(k);
    SmallPowers(n);
    MulAssoc(n, n, n);
    assert n * Pow(n, 2) == Cubes(n);
    var u := CubeDivides(k);
    QuotientUnique(Cubes(n), B32, 0, Cubes(n));
    MulMonotone(1, n, n);
    MulMonotone(1, Squares(n), n);
  }

  lemma HomeTriply(n: nat, c: nat)
    requires LowBlocks(n) <= c < LowBlocks(n) + Cubes(n)
    ensures c >= EXT2_DLP_NUM + n + Squares(n) && Home(n, c) == Tree(2, c - EXT2_DLP_NUM - n - Squares(n))
  {
  }

  /** The exact condition: for every block size whose value fits its field, and every block of a
      file that a 32-bit offset reaches, the code follows the path to the block if and only if the
      blocks have 4 KiB or more, or the block lies below the triply indirect ones. */
  lemma PathIsRightExactlyWhen(k: nat, offset: nat)
    requires 1 <= k <= 13 && offset < B32
    requires Quotient(offset, Pow2(k + 2)) < LowBlocks(Pow2(k)) + Cubes(Pow2(k))
    ensures var n, c := Pow2(k), Quotient(offset, Pow2(k + 2));
      PathOf(n, Locate(n, c)) == PathOf(n, Home(n, c)) <==> k >= 10 || c < LowBlocks(n)
  {
    hide Locate, LocateFrom, PathOf, Squares, Cubes, Quotient, Pow2, Home;
    var n, c := Pow2(k), Quotient(offset, Pow2(k + 2));
    SizeFits(k);
    OffsetReach(k, offset);
    if c < LowBlocks(n) {
      LocateIsHome(n, c);
    } else {
      var d := c - EXT2_DLP_NUM;
      LocateHigh(n, c);
      HomeTriply(n, c);
      ThirdRoot(k, d - n, Quotient(d - n, n), d - n - Squares(n));
    }
  }

  /** The first triply indirect block of a file with 1 KiB blocks: the code takes pointer 1 of the
      first indirect block where pointer 0 belongs. */
  lemma FirstTriplyIndirectBlock()
    ensures PathOf(256, Home(256, 12 + 256 + 65536)) == Path(14, [0, 0, 0])
    ensures PathOf(256, Locate(256, 12 + 256 + 65536)) == Path(14, [1, 0, 0])
  {
    hide Locate, LocateFrom, Digits;
    LocateLow(256, 12 + 256 + 65536);
    ThirdLevelAt();
    ThreeDigits(0);
    ThreeDigits(B32 + 65536 - 16777216);
  }

  lemma ThirdLevelAt()
    ensures LocateFrom(256, 65536, 256, 2, 256) == Tree(2, B32 + 65536 - 16777216)
  {
    SmallPowers(256);
    var w := B32 + 65536 - 16777216;
    assert Sub32(65536, 16777216) == w && Quotient(w, 16777216) == 255;
  }

  lemma ThreeDigits(x: nat)
    ensures Digits(256, x, 2) == [x / 65536 % 256, x / 256 % 256, x % 256]
  {
    SmallPowers(256);
    assert Digits(256, x, 2) == [x / 65536 % 256] + Digits(256, x, 1);
    assert Digits(256, x, 1) == [x / 256 % 256] + Digits(256, x, 0);
  }

  // --- paths ---------------------------------------------------------------------------

  lemma TopDigit(n: nat, a: nat, level: nat)
    requires n >= 2 && a < Power(n, level + 1)
    ensures Pow(n, level) > 0 && Digit(n, a, level) == a / Pow(n, level)
  {
    hide Pow;
    PowPositive(n, level);
    PowIsPower(n, level);
    OnlyDigit(n, a, Pow(n, level));
  }

  lemma OnlyDigit(n: nat, a: nat, p: nat)
    requires p > 0 && a < n * p
    ensures (a / p) % n == a / p
  {
    QuotientBelow(a, p, n);
    QuotientUnique(a / p, n, 0, a / p);
  }

  /** The digits below a level do not depend on what stands above it. */
  lemma LowDigit(n: nat, a: nat, level: nat, j: nat)
    requires n >= 2 && j < level
    ensures Power(n, level) > 0 && Digit(n, a, j) == Digit(n, a % Power(n, level), j)
  {
    PowerPositive(n, level);
    PowerPositive(n, j);
    PowIsPower(n, j);
    var p, t, m := Power(n, level), Power(n, j), Power(n, level - j - 1);
    PowerAdds(n, j, level - j);
    assert Power(n, level - j) == n * m;
    DivRem(a, p);
    var x, r := a / p, a % p;
    MulAssoc(t, n * m, x);
    AddMultiple(r, t, (n * m) * x);
    MulAssoc(n, m, x);
    AddMultiple(r / t, n, m * x);
  }

  lemma {:induction false} LowDigits(n: nat, a: nat, level: nat, j: nat)
    requires n >= 2 && j < level
    ensures Power(n, level) > 0 && Digits(n, a, j) == Digits(n, a % Power(n, level), j)
  {
    LowDigit(n, a, level, j);
    if j > 0 { LowDigits(n, a, level, j - 1); }
  }

  /** The first digit, and what is left. */
  lemma DigitsSplit(n: nat, a: nat, level: nat) returns (p: nat, r: nat)
    requires n >= 2 && a < Power(n, level + 1)
    ensures p == Power(n, level) && a == p * Digits(n, a, level)[0] + r
    ensures if level == 0 then r == 0
            else r < Power(n, level) && Digits(n, r, level - 1) == Digits(n, a, level)[1..]
  {
    PowerPositive(n, level);
    PowIsPower(n, level);
    TopDigit(n, a, level);
    p := Power(n, level);
    r := a % p;
    DivRem(a, p);
    if level == 0 {
      assert p == 1;
    } else {
      hide Power, Pow, Digit;
      LowDigits(n, a, level, level - 1);
    }
  }

  /** Indices are written in base n: the digits determine the index. */
  lemma {:induction false} DigitsDetermine(n: nat, a: nat, b: nat, level: nat)
    requires n >= 2 && a < Power(n, level + 1) && b < Power(n, level + 1) && Digits(n, a, level) == Digits(n, b, level)
    ensures a == b
  {
    hide Power, Digits;
    var p, r := DigitsSplit(n, a, level);
    var q, s := DigitsSplit(n, b, level);
    if level > 0 { DigitsDetermine(n, r, s, level - 1); }
  }

  /** Distinct logical blocks of a file follow distinct paths. */
  lemma PathsAreDistinct(n: nat, c: nat, d: nat)
    requires n >= 2 && c != d
    requires c < LowBlocks(n) + Cubes(n) && d < LowBlocks(n) + Cubes(n)
    ensures PathOf(n, Home(n, c)) != NoPath && PathOf(n, Home(n, c)) != PathOf(n, Home(n, d))
  {
    if c >= EXT2_DLP_NUM && d >= EXT2_DLP_NUM {
      var p, q := Home(n, c), Home(n, d);
      IndexInReach(n, c);
      IndexInReach(n, d);
      if p.level == q.level && Digits(n, p.index, p.level) == Digits(n, q.index, q.level) {
        DigitsDetermine(n, p.index, q.index, p.level);
      }
    }
  }

  lemma IndexInReach(n: nat, c: nat)
    requires n >= 2 && EXT2_DLP_NUM <= c < LowBlocks(n) + Cubes(n)
    ensures var p := Home(n, c); p.Tree? && p.index < Power(n, p.level + 1)
  {
    assert Power(n, 1) == n * Power(n, 0);
    assert Power(n, 2) == n * Power(n, 1);
    assert Power(n, 3) == n * Power(n, 2);
    MulAssoc(n, n, n);
  }

  // --- the layout, block by block --------------------------------------------------------------

  /** The first N blocks behind the direct ones hang below root 12, ... */
  lemma FirstIndirectPath(n: nat, i: nat)
    requires i < n
    ensures PathOf(n, Home(n, EXT2_DLP_NUM + i)) == Path(EXT2_DLP_NUM, [i])
  {
    SmallPowers(n);
    QuotientUnique(i, 1, i, 0);
    QuotientUnique(i, n, 0, i);
  }

  lemma TwoDigits(n: nat, i: nat, j: nat)
    requires i < n && j < n
    ensures Digits(n, i * n + j, 1) == [i, j]
  {
    SmallPowers(n);
    hide Pow;
    QuotientUnique(i * n + j, n, i, j);
    QuotientUnique(i, n, 0, i);
    QuotientUnique(i * n + j, 1, i * n + j, 0);
  }

  /** ... the next N^2, row by row, below root 13, ... */
  lemma SecondIndirectPath(n: nat, i: nat, j: nat)
    requires i < n && j < n
    ensures PathOf(n, Home(n, EXT2_DLP_NUM + n + (i * n + j))) == Path(EXT2_DLP_NUM + 1, [i, j])
  {
    var x := i * n + j;
    RowBelow(n, i, j);
    SecondHome(n, x);
    TwoDigits(n, i, j);
    hide Digits, Home;
    assert x == i * n + j;
  }

  lemma SecondHome(n: nat, x: nat)
    requires x < n * n
    ensures Home(n, EXT2_DLP_NUM + n + x) == Tree(1, x)
  {
  }

  /** ... and the next N^3 below root 14. */
  lemma ThirdIndirectPath(n: nat, i: nat, j: nat, l: nat)
    requires i < n && j < n && l < n
    ensures PathOf(n, Home(n, LowBlocks(n) + (i * Squares(n) + (j * n + l)))) == Path(EXT2_DLP_NUM + 2, [i, j, l])
  {
    var x := i * Squares(n) + (j * n + l);
    RowBelow(n, j, l);
    RowBelow(Squares(n), i, j * n + l);
    ThirdHome(n, x);
    LeadingDigit(n, i, j * n + l);
    TwoDigits(n, j, l);
    hide Digits, Squares;
    assert x == i * Squares(n) + (j * n + l);
  }

  lemma RowBelow(m: nat, i: nat, r: nat)
    requires r < m
    ensures forall n: nat :: i < n ==> i * m + r < n * m
  {
    forall n: nat | i < n ensures i * m + r < n * m { MulMonotone(i + 1, n, m); }
  }

  lemma ThirdHome(n: nat, x: nat)
    requires x < n * Squares(n)
    ensures Home(n, LowBlocks(n) + x) == Tree(2, x)
  {
    MulAssoc(n, n, n);
  }

  lemma LeadingDigit(n: nat, i: nat, r: nat)
    requires 0 < n && i < n && r < Squares(n)
    ensures Digits(n, i * Squares(n) + r, 2) == [i] + Digits(n, r, 1)
  {
    SmallPowers(n);
    var x := i * Squares(n) + r;
    hide Pow;
    QuotientUnique(x, n * n, i, r);
    QuotientUnique(i, n, 0, i);
    QuotientUnique(x, 1, x, 0);
    QuotientUnique(r, 1, r, 0);
    LowerDigits(n, i, r, x);
  }

  /** The lower digits do not see the leading one. */
  lemma LowerDigits(n: nat, i: nat, r: nat, x: nat)
    requires n > 0 && x == i * (n * n) + r
    ensures x % n == r % n && (x / n) % n == (r / n) % n
  {
    assert x == n * (n * i) + r;
    AddMultiple(r, n, n * i);
    AddMultiple(r / n, n, i);
  }

  // --- the paths that the code takes --------------------------------------------------------

  /** Block c of a file, within the format and within a 32-bit offset. */
  predicate Reached(k: nat, c: nat) {
    c < LowBlocks(Pow2(k)) + Cubes(Pow2(k)) && c * Pow2(k + 2) < B32
  }

  lemma ReachedFacts(k: nat, c: nat)
    requires 1 <= k <= 13 && Reached(k, c)
    ensures c * EXT2_MLP_LEN < B32 && (k >= 10 ==> c < LowBlocks(Pow2(k)))
  {
    hide Pow2;
    SizeFits(k);
    var offset := c * Pow2(k + 2);
    MultipleOf(c, Pow2(k + 2));
    OffsetReach(k, offset);
  }

  /** How many of the cubes fill 32 bits, against the number of pointers. */
  lemma CubesIn32(k: nat, u: nat)
    requires 1 <= k <= 10 && u == Pow2(32 - 3 * k)
    ensures 0 < u <= 0x2000_0000 && (u - 1 >= Pow2(k) <==> k < 8)
  {
    hide Pow2;
    Pow2Monotone(32 - 3 * k, 29);
    Eighth();
    if k < 8 { Pow2Monotone(k, 32 - 3 * k); } else { Pow2Monotone(32 - 3 * k, k); }
  }

  lemma Eighth()
    ensures Pow2(29) == 0x2000_0000
  {
    Powers();
    assert Pow2(30) == 2 * Pow2(29);
  }

  /** Where the third turn of the loop looks: at the remaining number modulo N^3, or, with fewer than
      256 pointers a block, nowhere. */
  lemma ThirdPlace(k: nat, e: nat, q: nat) returns (w: nat)
    requires 1 <= k <= 9 && e < Squares(Pow2(k)) + Cubes(Pow2(k))
    ensures var n := Pow2(k);
      && Cubes(n) > 0 && w % Cubes(n) == e % Cubes(n)
      && (e < Cubes(n) && k < 8 ==> LocateFrom(n, e, n, 2, q) == Missing(Pow2(32 - 3 * k) - 1))
      && (!(e < Cubes(n) && k < 8) ==> LocateFrom(n, e, n, 2, q) == Tree(2, w))
  {
    var n := Pow2(k);
    SmallPowers(n);
    MulAssoc(n, n, n);
    assert n * Pow(n, 2) == Cubes(n);
    CubeFacts(k);
    var u := Pow2(32 - 3 * k);
    CubesIn32(k, u);
    hide Pow2, Cubes, Squares, Pow;
    var m := Cubes(n);
    QuotientUnique(m, B32, 0, m);
    w := Sub32(e, m);
    ThirdRest(m, u, e, w, Squares(n));
    ThirdTurn(n, e, q, m, w);
  }

  lemma CubeFacts(k: nat)
    requires 1 <= k <= 9
    ensures var n := Pow2(k);
      0 < Squares(n) <= Cubes(n) < B32 && B32 == Cubes(n) * Pow2(32 - 3 * k)
  {
    var n := Pow2(k);
    Pow2Sum(k, k);
    Pow2Sum(2 * k, k);
    Pow2Sum(3 * k, 32 - 3 * k);
    Pow2Monotone(3 * k, 30);
    Pow2Monotone(2 * k, 3 * k);
    Powers();
  }

  lemma ThirdRest(m: nat, u: nat, e: nat, w: nat, sq: nat)
    requires 0 < sq <= m < B32 && B32 == m * u && 0 < u && e < sq + m && w == Sub32(e, m)
    ensures w % m == e % m
    ensures Quotient(w, m) == if e < m then u - 1 else 0
  {
    if e < m {
      assert w == B32 - m + e;
      MulDistributes(m, u, 1);
      QuotientUnique(w, m, u - 1, e);
      QuotientUnique(e, m, 0, e);
    } else {
      assert w == e - m;
      QuotientUnique(w, m, 0, w);
      QuotientUnique(e, m, 1, w);
    }
  }

  lemma ThirdTurn(n: nat, e: nat, q: nat, m: nat, w: nat)
    requires m == (n * Pow(n, 2)) % B32 && m > 0 && w == Sub32(e, m) && Quotient(w, m) < 0x2000_0000
    ensures LocateFrom(n, e, n, 2, q) ==
      if Quotient(w, m) >= n then Missing(Quotient(w, m)) else Tree(2, w)
  {
    hide Pow, Sub32, Quotient;
    var t := Quotient(w, m);
    QuotientUnique(t * EXT2_MLP_LEN, B32, 0, t * EXT2_MLP_LEN);
    assert LocateFrom(n, w, m, 3, t) == Missing(t);
  }

  /** From 1 KiB blocks on: triply indirect block i is looked up where block i + N^2 belongs, counted
      around N^3. */
  lemma ThirdLevelIsShifted(k: nat, c: nat)
    requires 8 <= k <= 13 && Reached(k, c) && c >= LowBlocks(Pow2(k))
    ensures var n, i := Pow2(k), c - LowBlocks(Pow2(k));
      Cubes(n) > 0 && PathOf(n, Locate(n, c)) == Path(EXT2_DLP_NUM + 2, Digits(n, (i + Squares(n)) % Cubes(n), 2))
  {
    hide Locate, LocateFrom, Cubes, Squares, Quotient, Pow2, Digits;
    var n := Pow2(k);
    SizeFits(k);
    ReachedFacts(k, c);
    LocateHigh(n, c);
    var e := c - EXT2_DLP_NUM - n;
    var w := ThirdPlace(k, e, Quotient(e, n));
    SameDigits(n, w);
    CubeFacts(k);
  }

  /** Three digits do not depend on multiples of N^3. */
  lemma SameDigits(n: nat, w: nat)
    requires n >= 2
    ensures Cubes(n) > 0 && Digits(n, w, 2) == Digits(n, w % Cubes(n), 2) && Power(n, 3) == Cubes(n)
  {
    CubeIsPower(n);
    LowDigits(n, w, 3, 2);
  }

  lemma CubeIsPower(n: nat)
    ensures Power(n, 3) == Cubes(n)
  {
    assert Power(n, 1) == n * Power(n, 0);
    assert Power(n, 2) == n * Power(n, 1);
    assert Power(n, 3) == n * Power(n, 2);
    MulAssoc(n, n, n);
  }

  lemma ShiftsDiffer(m: nat, s: nat, i: nat, j: nat)
    requires m > 0 && i < m && j < m && i != j
    ensures (i + s) % m != (j + s) % m
  {
    if (i + s) % m == (j + s) % m {
      DivRem(i + s, m);
      DivRem(j + s, m);
      var x, y := (i + s) / m, (j + s) / m;
      MulDistributes(m, x, y);
      if x > y { MulGrows(m, x - y); }
      if y > x { MulDistributes(m, y, x); MulGrows(m, y - x); }
    }
  }

  /** Distinct blocks follow distinct paths in the code, too, even where the paths are wrong. */
  lemma LocatePathsAreDistinct(k: nat, c: nat, d: nat)
    requires 8 <= k <= 13 && Reached(k, c) && Reached(k, d) && c != d
    ensures Pow2(k) > 0 && PathOf(Pow2(k), Locate(Pow2(k), c)) != NoPath
    ensures PathOf(Pow2(k), Locate(Pow2(k), c)) != PathOf(Pow2(k), Locate(Pow2(k), d))
  {
    hide Locate, Cubes, Squares, Pow2, Digits, LowBlocks;
    var n := Pow2(k);
    SizeFits(k);
    LowOrShifted(k, c);
    LowOrShifted(k, d);
    if c < LowBlocks(n) && d < LowBlocks(n) {
      PathsAreDistinct(n, c, d);
    } else if c >= LowBlocks(n) && d >= LowBlocks(n) {
      var i, j := c - LowBlocks(n), d - LowBlocks(n);
      CubeIsPower(n);
      ShiftsDiffer(Cubes(n), Squares(n), i, j);
      var x, y := (i + Squares(n)) % Cubes(n), (j + Squares(n)) % Cubes(n);
      if Digits(n, x, 2) == Digits(n, y, 2) { DigitsDetermine(n, x, y, 2); }
    }
  }

  lemma LowOrShifted(k: nat, c: nat)
    requires 8 <= k <= 13 && Reached(k, c)
    ensures var n := Pow2(k);
      if c < LowBlocks(n) then
        && Locate(n, c) == Home(n, c)
        && PathOf(n, Locate(n, c)) != NoPath && PathOf(n, Locate(n, c)).root < EXT2_DLP_NUM + 2
      else
        && Cubes(n) > 0 && c - LowBlocks(n) < Cubes(n)
        && PathOf(n, Locate(n, c)) ==
             Path(EXT2_DLP_NUM + 2, Digits(n, (c - LowBlocks(n) + Squares(n)) % Cubes(n), 2))
  {
    hide Locate, Cubes, Pow2, Digits;
    var n := Pow2(k);
    SizeFits(k);
    ReachedFacts(k, c);
    if c < LowBlocks(n) { LocateIsHome(n, c); } else { ThirdLevelIsShifted(k, c); }
  }

  /** With smaller blocks the first two triply indirect blocks have no path at all: a number that depends
      on nothing in the file is answered for the block. */
  lemma SmallBlocksAreMissing(k: nat, c: nat)
    requires 1 <= k < 8 && LowBlocks(Pow2(k)) <= c <= LowBlocks(Pow2(k)) + 1
    ensures Reached(k, c) && Pow2(k) > 0 && PathOf(Pow2(k), Locate(Pow2(k), c)) == NoPath
    ensures Locate(Pow2(k), c) == Missing(Pow2(32 - 3 * k) - 1)
  {
    SmallBlockFacts(k);
    hide Locate, LocateFrom, Cubes, Squares, Quotient, Pow2;
    var n := Pow2(k);
    SizeFits(k);
    SmallBlocksReached(k, c);
    hide Reached;
    LocateHigh(n, c);
    var e := c - EXT2_DLP_NUM - n;
    var w := ThirdPlace(k, e, Quotient(e, n));
  }

  lemma SmallBlocksReached(k: nat, c: nat)
    requires 1 <= k < 8 && LowBlocks(Pow2(k)) <= c <= LowBlocks(Pow2(k)) + 1
    ensures Reached(k, c) && c * EXT2_MLP_LEN < B32
  {
    SmallBlockFacts(k);
    hide Pow2, LowBlocks, Cubes, Squares;
    MulMonotone(c, 0x4_0000, Pow2(k + 2));
    ReachedFacts(k, c);
  }

  lemma SmallBlockFacts(k: nat)
    requires 1 <= k < 8
    ensures var n := Pow2(k);
      && Squares(n) + 1 < Cubes(n) && LowBlocks(n) + 1 < 0x4_0000 && Pow2(k + 2) <= 0x200
  {
    var n := Pow2(k);
    Pow2Monotone(1, k);
    Pow2Monotone(k, 7);
    Pow2Monotone(k + 2, 9);
    assert Pow2(7) == 128 && Pow2(9) == 512;
    MulMonotone(2, n, n);
    MulMonotone(n, 128, n);
    MulMonotone(2, n, n * n);
  }

  /** The exact condition: distinct blocks follow distinct paths if and only if blocks have 1 KiB or
      more, as all blocks of the format do. */
  lemma LocatePathsAreDistinctExactlyWhen(k: nat)
    requires 1 <= k <= 13
    ensures Pow2(k) > 0
    ensures k >= 8 <==> forall c: nat, d: nat :: Reached(k, c) && Reached(k, d) && c != d ==>
      PathOf(Pow2(k), Locate(Pow2(k), c)) != PathOf(Pow2(k), Locate(Pow2(k), d))
  {
    hide Locate, PathOf, Reached, Pow2;
    if k >= 8 {
      forall c: nat, d: nat | Reached(k, c) && Reached(k, d) && c != d
        ensures PathOf(Pow2(k), Locate(Pow2(k), c)) != PathOf(Pow2(k), Locate(Pow2(k), d))
      {
        LocatePathsAreDistinct(k, c, d);
      }
    } else {
      SmallBlocksAreMissing(k, LowBlocks(Pow2(k)));
      SmallBlocksAreMissing(k, LowBlocks(Pow2(k)) + 1);
    }
  }
}
