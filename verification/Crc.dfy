/** The table-driven CRC of src/crypto/crc32.c against the bit-at-a-time one. */
module Crc {
  const CRC32_SEED: bv32 := 0x0e1f_b007
  const TOP: bv32 := 0x8000_0000
  const EFAULT: bv32 := 14

  predicate Top(c: bv32) {
    c & TOP != 0
  }

  function Up(c: bv32): bv32 {
    c << 1
  }

  function Xor(a: bv32, b: bv32): bv32 {
    a ^ b
  }

  /** The register moves up by one bit; the polynomial is fed back if `on`. */
  function Feed(c: bv32, on: bool): bv32 {
    if on then Xor(Up(c), CRC32_SEED) else Up(c)
  }

  /** One shift of the register. */
  function Shift(c: bv32): bv32 {
    Feed(c, Top(c))
  }

  function Shifts(c: bv32, k: nat): bv32
    decreases k
  {
    if k == 0 then c else Shifts(Shift(c), k - 1)
  }

  /** The register takes in one message bit. */
  function TakeBit(c: bv32, bit: bool): bv32 {
    Feed(c, Top(c) != bit)
  }

  function TakeBits(c: bv32, bits: seq<bool>): bv32
    decreases |bits|
  {
    if bits == [] then c else TakeBits(TakeBit(c, bits[0]), bits[1..])
  }

  /** The bits of a byte, most significant first. */
  function ByteBits(b: bv8): (s: seq<bool>)
    ensures |s| == 8
  {
    [b & 0x80 != 0, b & 0x40 != 0, b & 0x20 != 0, b & 0x10 != 0, b & 8 != 0, b & 4 != 0, b & 2 != 0, b & 1 != 0]
  }

  function Bits(msg: seq<bv8>): (s: seq<bool>)
    ensures |s| == 8 * |msg|
  {
    if msg == [] then [] else ByteBits(msg[0]) + Bits(msg[1..])
  }

  // --- linearity -----------------------------------------------------------------------

  lemma XorIs(a: bv32, b: bv32)
    ensures Xor(a, b) == a ^ b
  {
  }

  lemma XorAssoc(a: bv32, b: bv32, c: bv32)
    ensures Xor(Xor(a, b), c) == Xor(a, Xor(b, c))
  {
    XorIs(a, b);
    XorIs(b, c);
    XorIs(a ^ b, c);
    XorIs(a, b ^ c);
  }

  lemma XorSwap(a: bv32, b: bv32)
    ensures Xor(a, b) == Xor(b, a)
  {
  }

  lemma XorCancel(u: bv32, v: bv32, x: bv32)
    requires Xor(x, u) == Xor(x, v)
    ensures u == v
  {
  }

  lemma XorTwice(a: bv32, s: bv32)
    ensures Xor(s, Xor(a, s)) == a
  {
  }

  lemma TopOfSum(x: bv32, y: bv32)
    ensures Top(Xor(x, y)) == (Top(x) != Top(y))
  {
  }

  lemma UpOfSum(x: bv32, y: bv32)
    ensures Up(Xor(x, y)) == Xor(Up(x), Up(y))
  {
  }

  lemma FeedIsLinear(x: bv32, y: bv32, p: bool, q: bool)
    ensures Feed(Xor(x, y), p != q) == Xor(Feed(x, p), Feed(y, q))
  {
    hide Xor, Up;
    UpOfSum(x, y);
    var a, b := Up(x), Up(y);
    if p {
      XorAssoc(a, CRC32_SEED, Feed(y, q));
      XorAssoc(a, b, CRC32_SEED);
      XorSwap(b, CRC32_SEED);
      XorTwice(b, CRC32_SEED);
    } else {
      XorAssoc(a, b, CRC32_SEED);
    }
  }

  lemma ShiftIsLinear(x: bv32, y: bv32)
    ensures Shift(Xor(x, y)) == Xor(Shift(x), Shift(y))
  {
    hide Xor, Top, Feed;
    TopOfSum(x, y);
    FeedIsLinear(x, y, Top(x), Top(y));
  }

  lemma {:induction false} ShiftsAreLinear(x: bv32, y: bv32, k: nat)
    ensures Shifts(Xor(x, y), k) == Xor(Shifts(x, k), Shifts(y, k))
    decreases k
  {
    hide Xor, Shift;
    if k > 0 {
      ShiftIsLinear(x, y);
      ShiftsAreLinear(Shift(x), Shift(y), k - 1);
    }
  }

  /** The polynomial has a constant term: the lowest bit shows whether it was fed back. */
  lemma FeedShows(x: bv32, y: bv32, p: bool, q: bool)
    requires Feed(x, p) == Feed(y, q)
    ensures p == q && Up(x) == Up(y)
  {
    assert Feed(x, p) & 1 == if p then 1 else 0;
    assert Feed(y, q) & 1 == if q then 1 else 0;
  }

  lemma MovedUp(x: bv32, y: bv32)
    requires Up(x) == Up(y) && Top(x) == Top(y)
    ensures x == y
  {
  }

  /** So no bit that is taken in loses information. */
  lemma TakeBitIsInjective(x: bv32, y: bv32, bit: bool)
    requires TakeBit(x, bit) == TakeBit(y, bit)
    ensures x == y
  {
    hide Top, Feed, Up;
    FeedShows(x, y, Top(x) != bit, Top(y) != bit);
    MovedUp(x, y);
  }

  lemma {:induction false} ShiftsAreInjective(x: bv32, y: bv32, k: nat)
    requires Shifts(x, k) == Shifts(y, k)
    ensures x == y
    decreases k
  {
    hide Feed, Top;
    if k > 0 {
      ShiftsAreInjective(Shift(x), Shift(y), k - 1);
      TakeBitIsInjective(x, y, false);
    }
  }

  lemma {:induction false} TakeBitsIsInjective(x: bv32, y: bv32, bits: seq<bool>)
    requires TakeBits(x, bits) == TakeBits(y, bits)
    ensures x == y
    decreases |bits|
  {
    hide TakeBit;
    if bits != [] {
      TakeBitsIsInjective(TakeBit(x, bits[0]), TakeBit(y, bits[0]), bits[1..]);
      TakeBitIsInjective(x, y, bits[0]);
    }
  }

  // --- a word of bits at once ------------------------------------------------------------

  /** A bit at the top of a word that moves down by one. */
  function PushTop(bit: bool, w: bv32): bv32 {
    (if bit then TOP else 0) | (w >> 1)
  }

  /** Up to 32 bits from the top of a word on. */
  function Word(bits: seq<bool>): bv32 {
    if bits == [] then 0 else PushTop(bits[0], Word(bits[1..]))
  }

  /** The top n bits, and the bit below them. */
  function Mask(n: nat): bv32 {
    if n == 0 then 0 else PushTop(true, Mask(n - 1))
  }

  function Below(n: nat): bv32 {
    if n == 0 then TOP else Below(n - 1) >> 1
  }

  lemma {:induction false} WordInMask(bits: seq<bool>)
    ensures Word(bits) & !Mask(|bits|) == 0
  {
    if bits != [] { WordInMask(bits[1..]); }
  }

  lemma {:induction false} MaskGrows(n: nat, m: nat)
    requires n <= m
    ensures Mask(n) & !Mask(m) == 0
  {
    if n > 0 { MaskGrows(n - 1, m - 1); }
  }

  lemma {:induction false} MaskEnds(n: nat)
    ensures Mask(n) & Below(n) == 0
  {
    if n > 0 { MaskEnds(n - 1); }
  }

  lemma LowestBit()
    ensures Below(31) == 1
  {
    assert Below(3) == 0x1000_0000;
    assert Below(7) == 0x0100_0000;
    assert Below(11) == 0x0010_0000;
    assert Below(15) == 0x0001_0000;
    assert Below(31) == 1;
  }

  lemma LowBitClear(bits: seq<bool>)
    requires |bits| < 32
    ensures Word(bits) & 1 == 0
  {
    hide Word, Mask;
    WordInMask(bits);
    MaskGrows(|bits|, 31);
    MaskEnds(31);
    LowestBit();
  }

  lemma PushIsInjective(p: bool, q: bool, v: bv32, w: bv32)
    requires v & 1 == 0 && w & 1 == 0 && PushTop(p, v) == PushTop(q, w)
    ensures p == q && v == w
  {
  }

  lemma {:induction false} WordIsInjective(u: seq<bool>, v: seq<bool>)
    requires |u| == |v| <= 32 && Word(u) == Word(v)
    ensures u == v
  {
    if u != [] {
      hide PushTop;
      LowBitClear(u[1..]);
      LowBitClear(v[1..]);
      PushIsInjective(u[0], v[0], Word(u[1..]), Word(v[1..]));
      WordIsInjective(u[1..], v[1..]);
      assert u == [u[0]] + u[1..] && v == [v[0]] + v[1..];
    }
  }

  lemma MoveDown(w: bv32, bit: bool)
    requires w & 1 == 0
    ensures Top(PushTop(bit, w)) == bit && Feed(PushTop(bit, w), false) == w
  {
  }

  lemma TakeTopBit(c: bv32, bit: bool, w: bv32)
    requires w & 1 == 0
    ensures Shift(Xor(c, PushTop(bit, w))) == Xor(TakeBit(c, bit), w)
  {
    hide Feed, Xor, Top, PushTop;
    MoveDown(w, bit);
    TopOfSum(c, PushTop(bit, w));
    FeedIsLinear(c, PushTop(bit, w), Top(c) != bit, false);
  }

  lemma XorNone(c: bv32)
    ensures Xor(c, 0) == c
  {
  }

  /** Taking in up to 32 bits one by one is adding them at the top and shifting as often. */
  lemma {:induction false} TakeWord(c: bv32, bits: seq<bool>)
    requires |bits| <= 32
    ensures TakeBits(c, bits) == Shifts(Xor(c, Word(bits)), |bits|)
    decreases |bits|
  {
    hide Shift, TakeBit, Xor, PushTop;
    if bits == [] {
      XorNone(c);
    } else {
      LowBitClear(bits[1..]);
      TakeTopBit(c, bits[0], Word(bits[1..]));
      TakeWord(TakeBit(c, bits[0]), bits[1..]);
    }
  }

  // --- bytes --------------------------------------------------------------------------

  function AtTop(b: bv8): bv32 {
    (b as bv32) << 24
  }

  /** The table's entry for one byte. */
  function Entry(b: bv8): bv32 {
    Shifts(AtTop(b), 8)
  }

  lemma PushFront(p: bool, bits: seq<bool>, all: seq<bool>)
    requires all == [p] + bits
    ensures Word(all) == PushTop(p, Word(bits))
  {
  }

  function Four(p: bool, q: bool, r: bool, s: bool, w: bv32): bv32 {
    PushTop(p, PushTop(q, PushTop(r, PushTop(s, w))))
  }

  lemma FourBits(p: bool, q: bool, r: bool, s: bool, bits: seq<bool>, all: seq<bool>)
    requires all == [p, q, r, s] + bits
    ensures Word(all) == Four(p, q, r, s, Word(bits))
  {
    hide Word, PushTop;
    PushFront(s, bits, [s] + bits);
    PushFront(r, [s] + bits, [r, s] + bits);
    PushFront(q, [r, s] + bits, [q, r, s] + bits);
    PushFront(p, [q, r, s] + bits, all);
  }

  lemma NoWord()
    ensures Word([]) == 0
  {
  }

  lemma EightBits(s: seq<bool>)
    requires |s| == 8
    ensures Word(s) == Four(s[0], s[1], s[2], s[3], Four(s[4], s[5], s[6], s[7], 0))
  {
    hide Four, Word;
    NoWord();
    FourBits(s[4], s[5], s[6], s[7], [], s[4..]);
    FourBits(s[0], s[1], s[2], s[3], s[4..], s);
  }

  lemma ByteWord(b: bv8)
    ensures Word(ByteBits(b)) == AtTop(b)
  {
    hide Four, Word, AtTop, ByteBits;
    EightBits(ByteBits(b));
    PushedByte(b);
  }

  lemma PushedByte(b: bv8)
    ensures var s := ByteBits(b);
      Four(s[0], s[1], s[2], s[3], Four(s[4], s[5], s[6], s[7], 0)) == AtTop(b)
  {
  }

  /** The first k bits are set. */
  predicate Full(m: bv32, k: nat)
    decreases k
  {
    k == 0 || (Top(m) && Full(Up(m), k - 1))
  }

  function Ups(c: bv32, k: nat): bv32
    decreases k
  {
    if k == 0 then c else Ups(Up(c), k - 1)
  }

  lemma ZerosMoveUp(c: bv32, m: bv32)
    requires c & m == 0 && Top(m)
    ensures !Top(c) && Up(c) & Up(m) == 0
  {
  }

  /** Where the first k bits are zero, k shifts only move the register. */
  lemma {:induction false} LowBitsMove(c: bv32, m: bv32, k: nat)
    requires c & m == 0 && Full(m, k)
    ensures Shifts(c, k) == Ups(c, k)
    decreases k
  {
    if k > 0 {
      hide Top, Up;
      ZerosMoveUp(c, m);
      LowBitsMove(Up(c), Up(m), k - 1);
    }
  }

  lemma EightUps(c: bv32)
    ensures Ups(c, 8) == c << 8 && Full(0xff00_0000, 8)
  {
    hide Up;
    assert Ups(c, 8) == Ups(Up(Up(c)), 6) == Ups(Up(Up(Up(Up(c)))), 4);
    EightTimes(c);
    FullByte();
  }

  lemma EightTimes(c: bv32)
    ensures Up(Up(Up(Up(Up(Up(Up(Up(c)))))))) == c << 8
  {
  }

  lemma FullByte()
    ensures Full(0xff00_0000, 8)
  {
    assert Full(0xf000_0000, 4) && Up(Up(Up(Up(0xff00_0000)))) == 0xf000_0000;
  }

  lemma ByteMoves(c: bv32)
    requires c & 0xff00_0000 == 0
    ensures Shifts(c, 8) == c << 8
  {
    EightUps(c);
    LowBitsMove(c, 0xff00_0000, 8);
  }

  /** A plain char is sign-extended before it meets the register. */
  function Extended(b: bv8): bv32 {
    if b & 0x80 != 0 then 0xffff_ff00 | (b as bv32) else b as bv32
  }

  function Masked(x: bv32): bv8 {
    (x & 255) as bv8
  }

  /** The index into the table. */
  function Index(crc: bv32, b: bv8): bv8 {
    Masked((crc >> 24) ^ Extended(b))
  }

  lemma SignIsCut(x: bv32, b: bv8)
    ensures (x ^ Extended(b)) & 255 == (x ^ (b as bv32)) & 255
  {
  }

  lemma MaskedAtTop(x: bv32, crc: bv32, b: bv8)
    requires x & 255 == ((crc >> 24) ^ (b as bv32)) & 255
    ensures AtTop(Masked(x)) == Xor(High(crc), AtTop(b))
  {
  }

  function High(crc: bv32): bv32 {
    crc & 0xff00_0000
  }

  function Low(crc: bv32): bv32 {
    crc & 0x00ff_ffff
  }

  lemma HighAndLow(crc: bv32)
    ensures Xor(High(crc), Low(crc)) == crc && Low(crc) << 8 == crc << 8 && Low(crc) & 0xff00_0000 == 0
  {
  }

  /** Adding a byte at the top changes the top byte to the index. */
  lemma AddByte(crc: bv32, b: bv8)
    ensures Xor(crc, AtTop(b)) == Xor(AtTop(Index(crc, b)), Low(crc))
  {
    hide Xor, High, Low, Extended, Masked, AtTop;
    HighAndLow(crc);
    SignIsCut(crc >> 24, b);
    MaskedAtTop((crc >> 24) ^ Extended(b), crc, b);
    XorAssoc(High(crc), Low(crc), AtTop(b));
    XorSwap(Low(crc), AtTop(b));
    XorAssoc(High(crc), AtTop(b), Low(crc));
  }

  /** One table step takes in the eight bits of a byte. */
  lemma TableStep(crc: bv32, b: bv8)
    ensures Xor(crc << 8, Entry(Index(crc, b))) == TakeBits(crc, ByteBits(b))
  {
    hide Shifts, Index, TakeBits, ByteBits, Word, Xor, AtTop, Low;
    TakeWord(crc, ByteBits(b));
    ByteWord(b);
    AddByte(crc, b);
    HighAndLow(crc);
    ShiftsAreLinear(AtTop(Index(crc, b)), Low(crc), 8);
    ByteMoves(Low(crc));
    XorSwap(Entry(Index(crc, b)), crc << 8);
  }

  /** Processing a concatenation is going on from the first part's register. */
  lemma {:induction false} TakeBitsContinues(c: bv32, u: seq<bool>, v: seq<bool>)
    ensures TakeBits(c, u + v) == TakeBits(TakeBits(c, u), v)
    decreases |u|
  {
    hide TakeBit;
    if u == [] {
      assert u + v == v;
    } else {
      assert (u + v)[1..] == u[1..] + v;
      TakeBitsContinues(TakeBit(c, u[0]), u[1..], v);
    }
  }

  lemma {:induction false} BitsOfConcat(a: seq<bv8>, b: seq<bv8>)
    ensures Bits(a + b) == Bits(a) + Bits(b)
  {
    if a == [] {
      assert a + b == b;
    } else {
      assert (a + b)[1..] == a[1..] + b;
      BitsOfConcat(a[1..], b);
    }
  }

  /** Two messages that differ only within 32 consecutive bits have different checksums. */
  lemma BurstsAreDetected(c: bv32, before: seq<bool>, u: seq<bool>, v: seq<bool>, after: seq<bool>)
    requires |u| == |v| <= 32 && u != v
    ensures TakeBits(c, before + u + after) != TakeBits(c, before + v + after)
  {
    hide TakeBits, Shifts, Word, Xor;
    var x := TakeBits(c, before);
    TakeBitsContinues(c, before + u, after);
    TakeBitsContinues(c, before + v, after);
    TakeBitsContinues(c, before, u);
    TakeBitsContinues(c, before, v);
    TakeWord(x, u);
    TakeWord(x, v);
    if TakeBits(c, before + u + after) == TakeBits(c, before + v + after) {
      TakeBitsIsInjective(TakeBits(x, u), TakeBits(x, v), after);
      ShiftsAreInjective(Xor(x, Word(u)), Xor(x, Word(v)), |u|);
      XorCancel(Word(u), Word(v), x);
      WordIsInjective(u, v);
    }
  }

  lemma SameWord(i: nat)
    requires i < 256
    ensures (i as bv8) as bv32 == i as bv32
  {
  }

  lemma SameByte(i: nat)
    requires i < 256
    ensures (i as bv8) as int == i
  {
    assert i % 256 == i;
  }

  lemma ByteIs(i: nat, b: bv8)
    requires i < 256 && b as int == i
    ensures b == i as bv8
  {
  }

  /** The inner loop of `crc32_init_table`. */
  method MakeEntry(i: nat) returns (c: bv32)
    requires i < 256
    ensures c == Entry(i as bv8)
  {
    hide Xor;
    SameWord(i);
    c := (i as bv32) << 24;
    var j := 8;
    while j > 0
      invariant 0 <= j <= 8 && Shifts(c, j) == Entry(i as bv8)
    {
      XorIs(c << 1, CRC32_SEED);
      c := if c & TOP != 0 then (c << 1) ^ CRC32_SEED else c << 1;
      j := j - 1;
    }
  }

  /** The module's state: the table, built on first use. */
  class Crc32 {
    var table: array?<bv32>

    ghost predicate Valid()
      reads this, table
    {
      table != null ==> table.Length == 256 && forall b: bv8 :: table[b as int] == Entry(b)
    }

    constructor ()
      ensures Valid() && table == null
    {
      table := null;
    }

    /** `crc32_init_table`. */
    method InitTable(mem: bool) returns (ok: bool)
      requires table == null
      modifies this
      ensures Valid() && ok == mem && (ok <==> table != null)
    {
      hide Entry;
      if !mem { return false; }
      var t := new bv32[256];
      var i := 0;
      while i < 256
        invariant 0 <= i <= 256 && forall b: bv8 :: b as int < i ==> t[b as int] == Entry(b)
      {
        var c := MakeEntry(i);
        SameByte(i);
        forall b: bv8 | b as int == i
          ensures Entry(b) == c
        {
          ByteIs(i, b);
        }
        t[i] := c;
        i := i + 1;
      }
      table := t;
      ok := true;
    }

    /** `crc32`: without memory for the table it answers the error code, else the bit-at-a-time
        checksum. */
    method Checksum(buffer: seq<bv8>, mem: bool) returns (crc: bv32)
      requires Valid()
      modifies this
      ensures Valid() && (old(table) != null ==> table == old(table))
      ensures crc == if old(table) == null && !mem then 0 - EFAULT else TakeBits(0xffff_ffff, Bits(buffer))
    {
      hide Entry, Index, TakeBits, Bits, Xor;
      crc := 0xffff_ffff;
      if table == null {
        var ok := InitTable(mem);
        if !ok { return 0 - EFAULT; }
      }
      var n := 0;
      assert buffer[..0] == [];
      NoBits(0xffff_ffff);
      while n < |buffer|
        invariant Valid() && table != null && (old(table) != null ==> table == old(table))
        invariant 0 <= n <= |buffer| && crc == TakeBits(0xffff_ffff, Bits(buffer[..n]))
      {
        TableStep(crc, buffer[n]);
        XorIs(crc << 8, Entry(Index(crc, buffer[n])));
        NextByte(0xffff_ffff, buffer, n);
        crc := (crc << 8) ^ table[Index(crc, buffer[n]) as int];
        n := n + 1;
      }
      assert buffer[..n] == buffer;
    }
  }

  lemma NoBits(c: bv32)
    ensures TakeBits(c, Bits([])) == c
  {
  }

  lemma NextByte(c: bv32, buffer: seq<bv8>, n: nat)
    requires n < |buffer|
    ensures TakeBits(c, Bits(buffer[..n + 1])) == TakeBits(TakeBits(c, Bits(buffer[..n])), ByteBits(buffer[n]))
  {
    assert buffer[..n + 1] == buffer[..n] + [buffer[n]];
    BitsOfConcat(buffer[..n], [buffer[n]]);
    assert Bits([buffer[n]]) == ByteBits(buffer[n]);
    TakeBitsContinues(c, Bits(buffer[..n]), ByteBits(buffer[n]));
  }
}
