/** Files with holes: a zero pointer on the way to a block means to the format that there is no
    block, while src/fs/ext2fs/ext2fs.c goes on through block 0 of the device. */
module Ext2Holes {
  import opened Arithmetic
  import opened Dyadic
  import opened Division
  import opened Superblock
  import opened Ext2Map
  import opened Ext2
  import opened Ext2File

  /** The radix tree of the format: nothing hangs below a zero pointer. */
  function StoredFrom(sb: Super, block: nat, digits: seq<nat>): nat
    decreases |digits|
  {
    if block == 0 then 0
    else if digits == [] then block
    else if !sb.Readable(block) then 0
    else StoredFrom(sb, Pointer(sb, block, digits[0]), digits[1..])
  }

  /** The block that the format keeps for logical block c, 0 if there is none or the way to it
      cannot be read. */
  function Stored(sb: Super, inode: Inode, n: nat, c: nat): nat
    requires n > 0
  {
    match PathOf(n, Home(n, c))
    case Path(root, digits) => if root < |inode.dbp| then StoredFrom(sb, inode.dbp[root], digits) else 0
    case NoPath => 0
  }

  /** What is left of the way at the first zero pointer: nothing, if there is none before its end. */
  function BehindHole(sb: Super, block: nat, digits: seq<nat>): (rest: seq<nat>)
    ensures |rest| <= |digits| && rest == digits[|digits| - |rest|..]
    decreases |digits|
  {
    if digits == [] || block == 0 then digits
    else if !sb.Readable(block) then []
    else BehindHole(sb, Pointer(sb, block, digits[0]), digits[1..])
  }

  /** The same for a logical block. */
  function HoleOnWay(sb: Super, inode: Inode, n: nat, c: nat): seq<nat>
    requires n > 0
  {
    match PathOf(n, Home(n, c))
    case Path(root, digits) => if root < |inode.dbp| then BehindHole(sb, inode.dbp[root], digits) else []
    case NoPath => []
  }

  /** Behind a hole the code follows the rest of the way from block 0; before one it agrees. */
  lemma {:induction false} WalkMeetsHole(sb: Super, block: nat, digits: seq<nat>)
    ensures var rest := BehindHole(sb, block, digits);
      if rest == [] then Follow(sb, block, digits) == StoredFrom(sb, block, digits)
      else StoredFrom(sb, block, digits) == 0 && Follow(sb, block, digits) == Follow(sb, 0, rest)
    decreases |digits|
  {
    hide Pointer, Super.Readable;
    if digits != [] && block != 0 && sb.Readable(block) {
      WalkMeetsHole(sb, Pointer(sb, block, digits[0]), digits[1..]);
    }
  }

  /** The answer for a logical block below the triply indirect ones is what the format keeps there
      exactly when no zero pointer stands on the way, or nothing is found from block 0 on. */
  lemma BlockIsStoredExactlyWhen(sb: Super, k: nat, inode: Inode, c: nat)
    requires Blocks(sb, k) && c * EXT2_MLP_LEN < B32 && c < LowBlocks(Pow2(k))
    ensures Pow2(k) > 0
    ensures BlockAt(sb, inode, Pow2(k), c, true) == Stored(sb, inode, Pow2(k), c) <==>
      var rest := HoleOnWay(sb, inode, Pow2(k), c);
      rest == [] || Follow(sb, 0, rest) == 0
  {
    hide Pow2, BlockAt, Home, Follow, StoredFrom, BehindHole;
    BlockIsInTree(sb, k, inode, c);
    var p := PathOf(Pow2(k), Home(Pow2(k), c));
    if p.root < |inode.dbp| { WalkMeetsHole(sb, inode.dbp[p.root], p.digits); }
  }

  /** A block that the format keeps is always found. */
  lemma StoredIsFound(sb: Super, k: nat, inode: Inode, c: nat)
    requires Blocks(sb, k) && c * EXT2_MLP_LEN < B32 && c < LowBlocks(Pow2(k))
    requires Pow2(k) > 0 && Stored(sb, inode, Pow2(k), c) != 0
    ensures BlockAt(sb, inode, Pow2(k), c, true) == Stored(sb, inode, Pow2(k), c)
  {
    hide Pow2, BlockAt, Home, Follow, StoredFrom, BehindHole;
    BlockIsInTree(sb, k, inode, c);
    var p := PathOf(Pow2(k), Home(Pow2(k), c));
    if p.root < |inode.dbp| { WalkMeetsHole(sb, inode.dbp[p.root], p.digits); }
  }

  // --- which devices show holes as holes ----------------------------------------------

  /** Block 0 cannot be read, or all its pointers are zero. */
  ghost predicate SilentZero(sb: Super, k: nat) {
    sb.Readable(0) ==> forall i: nat :: i < Pow2(k) ==> Pointer(sb, 0, i) == 0
  }

  ghost predicate Below(n: nat, digits: seq<nat>) {
    forall i :: 0 <= i < |digits| ==> digits[i] < n
  }

  lemma {:induction false} NothingBehindZero(sb: Super, k: nat, digits: seq<nat>)
    requires SilentZero(sb, k) && Below(Pow2(k), digits)
    ensures Follow(sb, 0, digits) == 0
    decreases |digits|
  {
    hide Pow2, Pointer, Super.Readable;
    if digits != [] && sb.Readable(0) {
      assert digits[0] < Pow2(k);
      NothingBehindZero(sb, k, digits[1..]);
    }
  }

  lemma {:induction false} DigitsBelow(n: nat, index: nat, level: nat)
    requires n > 0
    ensures Below(n, Digits(n, index, level))
  {
    hide Pow;
    PowPositive(n, level);
    DigitBelow(n, index / Pow(n, level));
    if level > 0 { DigitsBelow(n, index, level - 1); }
  }

  lemma HoleIsBelow(sb: Super, inode: Inode, n: nat, c: nat)
    requires n > 0
    ensures Below(n, HoleOnWay(sb, inode, n, c))
  {
    hide Digits, Digit, BehindHole;
    var p := Home(n, c);
    if p.Tree? { DigitsBelow(n, p.index, p.level); }
  }

  /** A file without a singly indirect block. */
  function Hollow(): Inode {
    Inode(seq(EXT2_PTRS, i => 0))
  }

  lemma HollowWay(sb: Super, n: nat, i: nat)
    requires i < n
    ensures HoleOnWay(sb, Hollow(), n, EXT2_DLP_NUM + i) == [i] && Stored(sb, Hollow(), n, EXT2_DLP_NUM + i) == 0
    ensures Hollow().Ok()
  {
    hide Home, PathOf;
    FirstIndirectPath(n, i);
  }

  /** Files read back as the format keeps them, holes included, exactly when block 0 of the device
      cannot be read or holds nothing but zero pointers. */
  lemma HolesAreSeenExactlyWhen(sb: Super, k: nat)
    requires Blocks(sb, k) && Pow2(k) > 0
    ensures SilentZero(sb, k) <==>
      forall inode: Inode, c: nat :: inode.Ok() && c * EXT2_MLP_LEN < B32 && c < LowBlocks(Pow2(k)) ==>
        BlockAt(sb, inode, Pow2(k), c, true) == Stored(sb, inode, Pow2(k), c)
  {
    hide Pow2, BlockAt, Stored, HoleOnWay, LowBlocks, Pointer, Super.Readable, Inode.Ok;
    if SilentZero(sb, k) {
      forall inode: Inode, c: nat | inode.Ok() && c * EXT2_MLP_LEN < B32 && c < LowBlocks(Pow2(k))
        ensures BlockAt(sb, inode, Pow2(k), c, true) == Stored(sb, inode, Pow2(k), c)
      {
        BlockIsStoredExactlyWhen(sb, k, inode, c);
        HoleIsBelow(sb, inode, Pow2(k), c);
        NothingBehindZero(sb, k, HoleOnWay(sb, inode, Pow2(k), c));
      }
    } else {
      var i: nat :| i < Pow2(k) && Pointer(sb, 0, i) != 0;
      HoleReadAs(sb, k, i);
    }
  }

  /** Where a file has no singly indirect block, pointer i of block 0 is taken for the block. */
  lemma HoleReadAs(sb: Super, k: nat, i: nat)
    requires Blocks(sb, k) && i < Pow2(k) && sb.Readable(0)
    ensures var c := EXT2_DLP_NUM + i;
      && c * EXT2_MLP_LEN < B32 && c < LowBlocks(Pow2(k)) && Hollow().Ok()
      && Stored(sb, Hollow(), Pow2(k), c) == 0 && BlockAt(sb, Hollow(), Pow2(k), c, true) == Pointer(sb, 0, i)
  {
    hide Pow2, BlockAt, Home, Stored, Pointer, Super.Readable;
    PointersFit(sb, k);
    HollowWay(sb, Pow2(k), i);
    BlockIsInTree(sb, k, Hollow(), EXT2_DLP_NUM + i);
    var p := PathOf(Pow2(k), Home(Pow2(k), EXT2_DLP_NUM + i));
    WalkMeetsHole(sb, Hollow().dbp[p.root], p.digits);
    FollowStep(sb, 0, [i]);
  }

  // --- a volume with larger blocks ------------------------------------------------------

  const EXT2_SB_OFFSET: nat := 1024
  const EXT2_SB_MAGIC: nat := 0xEF53
  /** The place of the magic number in `struct ext2_superblock`. */
  const MAGIC_AT: nat := 56

  /** The superblock of the file system is there: mounting demands it. */
  predicate HasMagic(dev: Device) {
    dev.Byte(EXT2_SB_OFFSET + MAGIC_AT) + 0x100 * dev.Byte(EXT2_SB_OFFSET + MAGIC_AT + 1) == EXT2_SB_MAGIC
  }

  lemma NinthPower()
    ensures Pow2(9) == 512
  {
    assert Pow2(5) == 32;
  }

  /** Block 0 of 2 KiB or more holds the superblock, so on every such volume with a readable block 0
      a file without a singly indirect block shows at logical block 282 what the magic number and
      the field behind it spell. */
  lemma MagicIsTakenForABlock(sb: Super, k: nat)
    requires Blocks(sb, k) && k >= 9 && HasMagic(sb.dev) && sb.Readable(0)
    ensures Pow2(k) > 270 && !SilentZero(sb, k)
    ensures Stored(sb, Hollow(), Pow2(k), 282) == 0
    ensures BlockAt(sb, Hollow(), Pow2(k), 282, true) % 0x1_0000 == EXT2_SB_MAGIC
  {
    hide Pow2, BlockAt, Stored, Super.Readable;
    assert Pow2(9) == 512 by { NinthPower(); }
    Pow2Monotone(9, k);
    HoleReadAs(sb, k, 270);
    assert Start(sb.BlockSize(), 0) == 0;
  }

  // --- the bytes ------------------------------------------------------------------------

  /** Every byte below 4 GiB whose block the format keeps, below the triply indirect ones for
      blocks of less than 4 KiB, is read from that block. */
  lemma FileByteIsStored(sb: Super, k: nat, inode: Inode, x: nat)
    requires Blocks(sb, k) && Pow2(k) > 0 && x < B32
    requires k >= 10 || BlockOf(sb.BlockSize(), x) < LowBlocks(Pow2(k))
    requires Stored(sb, inode, Pow2(k), BlockOf(sb.BlockSize(), x)) != 0
    ensures FileByte(sb, inode, Pow2(k), x) ==
      sb.dev.Byte(Start(sb.BlockSize(), Stored(sb, inode, Pow2(k), BlockOf(sb.BlockSize(), x))) + x % sb.BlockSize())
  {
    hide Pow2, Super.BlockSize, BlockAt, Lookup, PathOf, Home, LowBlocks, Stored;
    var bs: nat := sb.BlockSize();
    var c := BlockOf(bs, x);
    SplitBytes(bs, x);
    assert Cut(bs, c) == c by { CutIsExact(bs, c, Start(bs, c)); }
    OffsetInReach(sb, k, x);
    StoredIsFound(sb, k, inode, c);
  }
}
