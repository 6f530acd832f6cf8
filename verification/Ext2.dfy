/** Finding and reading the blocks of a file (src/fs/ext2fs/ext2fs.c): the walk through the
    indirect blocks, and byte ranges of a file. */
module Ext2 {
  import opened Arithmetic
  import opened Dyadic
  import opened Division
  import opened Superblock
  import opened Ext2Map

  const EXT2_PTRS: nat := 15
  const ENOMEM: nat := 12

  /** `struct ext2_inode`: twelve direct pointers and, next to them in the packed record, the roots
      of three trees; 32 bits each. */
  datatype Inode = Inode(dbp: seq<nat>) {
    ghost predicate Ok() {
      |dbp| == EXT2_PTRS && forall i :: 0 <= i < EXT2_PTRS ==> dbp[i] < B32
    }
  }

  /** A superblock whose blocks hold Pow2(k) pointers, and whose block size fits its field. */
  ghost predicate Blocks(sb: Super, k: nat) {
    1 <= k <= 13 && sb.blockLogs == k + 2 && sb.sectorLogs <= sb.blockLogs
  }

  lemma PointersFit(sb: Super, k: nat)
    requires Blocks(sb, k)
    ensures sb.BlockSize() == Pow2(k) * EXT2_MLP_LEN == StoredSize(sb.blockLogs)
    ensures 2 <= Pow2(k) <= 0x2000 && sb.BlockSize() < 0x1_0000
  {
    SizeFits(k);
    StoredSizeIsRightExactlyWhen(k + 2);
    Pow2Monotone(k, 13);
    assert Pow2(15) == 4 * Pow2(13);
    Powers();
  }

  /** The little-endian number in bytes [at, at + 4). */
  function WordAt(bytes: seq<int>, at: nat): int
    requires at + 4 <= |bytes|
  {
    bytes[at] + 0x100 * bytes[at + 1] + 0x1_0000 * bytes[at + 2] + 0x100_0000 * bytes[at + 3]
  }

  /** The four bytes of w, least significant first, are read as w. */
  lemma WordIsLittleEndian(bytes: seq<int>, at: nat, w: nat)
    requires at + 4 <= |bytes| && w < B32
    requires bytes[at] == w % 0x100 && bytes[at + 1] == w / 0x100 % 0x100
    requires bytes[at + 2] == w / 0x1_0000 % 0x100 && bytes[at + 3] == w / 0x100_0000
    ensures WordAt(bytes, at) == w
  {
    FourBytes(w, w / 0x100, w / 0x1_0000, w / 0x100_0000);
  }

  lemma FourBytes(w: nat, a: nat, b: nat, c: nat)
    requires a == w / 0x100 && b == w / 0x1_0000 && c == w / 0x100_0000
    ensures w == w % 0x100 + 0x100 * (a % 0x100) + 0x1_0000 * (b % 0x100) + 0x100_0000 * c
  {
    DivRem(w, 0x100);
    DivRem(a, 0x100);
    QuotientUnique(w, 0x1_0000, a / 0x100, 0x100 * (a % 0x100) + w % 0x100);
    DivRem(b, 0x100);
    QuotientUnique(w, 0x100_0000, b / 0x100, 0x1_0000 * (b % 0x100) + 0x100 * (a % 0x100) + w % 0x100);
  }

  /** Pointer i of block b. */
  function Pointer(sb: Super, b: nat, i: nat): (p: nat)
    ensures p < B32
  {
    var at := Start(sb.BlockSize(), b) + EXT2_MLP_LEN * i;
    WordAt(Bytes(sb.dev, at, at + EXT2_MLP_LEN), 0)
  }

  /** A pointer stored on the device, least significant byte first, is read as the block number that it
      is. */
  lemma PointerIsStored(sb: Super, b: nat, i: nat, w: nat)
    requires w < B32
    requires var at := Start(sb.BlockSize(), b) + EXT2_MLP_LEN * i;
      && sb.dev.Byte(at) == w % 0x100 && sb.dev.Byte(at + 1) == w / 0x100 % 0x100
      && sb.dev.Byte(at + 2) == w / 0x1_0000 % 0x100 && sb.dev.Byte(at + 3) == w / 0x100_0000
    ensures Pointer(sb, b, i) == w
  {
    hide WordAt;
    var at := Start(sb.BlockSize(), b) + EXT2_MLP_LEN * i;
    WordIsLittleEndian(Bytes(sb.dev, at, at + EXT2_MLP_LEN), 0, w);
  }

  /** The block that a path of indices leads to, 0 if a block on the way cannot be read. A zero
      pointer on the way is followed like any other. */
  function Follow(sb: Super, block: nat, digits: seq<nat>): nat
    decreases |digits|
  {
    if digits == [] then block
    else if !sb.Readable(block) then 0
    else Follow(sb, Pointer(sb, block, digits[0]), digits[1..])
  }

  function Lookup(sb: Super, inode: Inode, path: Path): nat {
    match path
    case Path(root, digits) => if root < |inode.dbp| then Follow(sb, inode.dbp[root], digits) else 0
    case NoPath => 0
  }

  /** The block that `ext2fs_inode_block` answers for logical block c; `mem` says whether there is
      memory for its buffer. */
  function BlockAt(sb: Super, inode: Inode, n: nat, c: nat, mem: bool): nat
    requires n > 0
  {
    if c >= EXT2_DLP_NUM && !mem then 0
    else match Locate(n, c)
      case Missing(q) => q
      case p => Lookup(sb, inode, PathOf(n, p))
  }

  lemma PointerInBlock(sb: Super, b: nat, bytes: seq<int>, i: nat, n: nat)
    requires i < n && sb.BlockSize() == n * EXT2_MLP_LEN
    requires bytes == Bytes(sb.dev, Start(sb.BlockSize(), b), Start(sb.BlockSize(), b) + sb.BlockSize())
    ensures EXT2_MLP_LEN * i + 4 <= |bytes| && WordAt(bytes, EXT2_MLP_LEN * i) == Pointer(sb, b, i)
  {
    hide Pow2;
  }

  lemma BlockInDevice(bs: nat, b: nat)
    requires b < B32 && bs <= 0x1_0000
    ensures (b + 1) * bs < B64
  {
    MulMonotone(b + 1, B32, bs);
  }

  /** One step of the walk. */
  method ReadPointer(sb: Super, k: nat, block: nat, i: nat, buffer: array<int>) returns (ok: bool, p: nat)
    requires Blocks(sb, k) && block < B32 && buffer.Length == sb.BlockSize() && i < Pow2(k)
    modifies buffer
    ensures ok == sb.Readable(block) && (ok ==> p == Pointer(sb, block, i)) && p < B32
  {
    hide Pow2, Super.Readable, Pointer;
    PointersFit(sb, k);
    BlockInDevice(sb.BlockSize(), block);
    ok := ReadBlock(sb, block, buffer);
    p := 0;
    if ok {
      PointerInBlock(sb, block, buffer[..], i, Pow2(k));
      p := WordAt(buffer[..], EXT2_MLP_LEN * i);
    }
  }

  /** The first index of a walk, and the rest. */
  lemma FirstDigit(n: nat, index: nat, level: nat)
    requires n > 0
    ensures Pow(n, level) > 0 && Digits(n, index, level)[0] == (index / Pow(n, level)) % n
    ensures Digits(n, index, level)[1..] == if level > 0 then Digits(n, index, level - 1) else []
  {
    hide Pow;
    PowPositive(n, level);
  }

  lemma DigitBelow(n: nat, x: nat)
    requires n > 0
    ensures 0 <= x % n < n
  {
  }

  lemma FollowStep(sb: Super, block: nat, digits: seq<nat>)
    requires |digits| > 0
    ensures Follow(sb, block, digits) ==
      if sb.Readable(block) then Follow(sb, Pointer(sb, block, digits[0]), digits[1..]) else 0
  {
  }

  /** The index at one level, as `indirect_block` computes it. */
  method IndexAt(n: nat, cblock: nat, level: nat) returns (blkidx: nat)
    requires n > 0
    ensures blkidx == Digits(n, cblock, level)[0] && blkidx < n
    ensures Digits(n, cblock, level)[1..] == if level > 0 then Digits(n, cblock, level - 1) else []
  {
    FirstDigit(n, cblock, level);
    var blkmlp := Pow(n, level);
    DigitBelow(n, cblock / blkmlp);
    blkidx := (cblock / blkmlp) % n;
  }

  /** What is left of the walk when the loop stands at `level`. */
  function WalkFrom(sb: Super, n: nat, block: nat, index: nat, level: nat): nat
    requires n > 0
  {
    Follow(sb, block, if level < 3 then Digits(n, index, level) else [])
  }

  /** One turn of the loop. */
  method WalkStep(sb: Super, k: nat, block: nat, cblock: nat, level: nat, buffer: array<int>) returns (ok: bool, p: nat)
    requires Blocks(sb, k) && block < B32 && level < 3 && buffer.Length == sb.BlockSize() && Pow2(k) > 0
    modifies buffer
    ensures p < B32
    ensures WalkFrom(sb, Pow2(k), block, cblock, level) ==
      if ok then WalkFrom(sb, Pow2(k), p, cblock, Sub32(level, 1)) else 0
  {
    hide Pow2, Super.Readable, Pointer, Super.BlockSize, Follow, Digits;
    PointersFit(sb, k);
    var n: nat := sb.BlockSize() / EXT2_MLP_LEN;
    FollowStep(sb, block, Digits(n, cblock, level));
    var blkidx := IndexAt(n, cblock, level);
    ok, p := ReadPointer(sb, k, block, blkidx, buffer);
  }

  /** `indirect_block`: the loop that counts down until its level wraps around is the walk along
      the base-n digits of the index. */
  method IndirectBlock(sb: Super, k: nat, iblock: nat, cblock: nat, bdepth: nat, buffer: array<int>) returns (r: nat)
    requires Blocks(sb, k) && iblock < B32 && bdepth < 3 && buffer.Length == sb.BlockSize()
    modifies buffer
    ensures r < B32 && Pow2(k) > 0 && r == Follow(sb, iblock, Digits(Pow2(k), cblock, bdepth))
  {
    hide Pow2, Super.Readable, Pointer, Super.BlockSize, Follow, Digits, Sub32;
    PointersFit(sb, k);
    var block: nat, blevel: nat := iblock, bdepth;
    while (blevel + 1) % B32 > 0
      invariant block < B32 && (blevel < 3 || blevel == B32 - 1)
      invariant WalkFrom(sb, Pow2(k), block, cblock, blevel) == WalkFrom(sb, Pow2(k), iblock, cblock, bdepth)
      decreases if blevel < 3 then blevel + 1 else 0
    {
      var ok, p := WalkStep(sb, k, block, cblock, blevel, buffer);
      if !ok { return 0; }
      NextLevel(blevel);
      block := p;
      blevel := Sub32(blevel, 1);
    }
    EndOfWalk(sb, block);
    return block;
  }

  lemma NextLevel(level: nat)
    requires level < 3
    ensures Sub32(level, 1) == if level == 0 then B32 - 1 else level - 1
  {
  }

  lemma EndOfWalk(sb: Super, block: nat)
    ensures Follow(sb, block, []) == block
  {
  }

  lemma LocateStep(n: nat, cblock: nat, blkmlp: nat, i: nat, idx: nat, m: nat, w: nat)
    requires i < 3 && LocateFrom(n, cblock, blkmlp, i, idx) != Fault
    requires m == (blkmlp * Pow(n, i)) % B32 && w == Sub32(cblock, m)
    ensures m > 0 && LocateFrom(n, cblock, blkmlp, i, idx) ==
      if (Quotient(w, m) * EXT2_MLP_LEN) % B32 >= n * EXT2_MLP_LEN then LocateFrom(n, w, m, i + 1, Quotient(w, m))
      else Tree(i, w)
  {
    hide Pow, Sub32, Quotient;
  }

  lemma NoLevelFits(n: nat, cblock: nat, blkmlp: nat, idx: nat)
    ensures LocateFrom(n, cblock, blkmlp, 3, idx) == Missing(idx)
  {
  }

  /** One turn of the loop over the levels: the new state, and whether the block lies here. */
  method LevelTurn(n: nat, cblock: nat, blkmlp: nat, i: nat, ghost idx: nat)
      returns (w: nat, m: nat, q: nat, here: bool)
    requires i < 3 && LocateFrom(n, cblock, blkmlp, i, idx) != Fault
    ensures q < B32
    ensures LocateFrom(n, cblock, blkmlp, i, idx) == if here then Tree(i, w) else LocateFrom(n, w, m, i + 1, q)
  {
    hide LocateFrom, Pow, Sub32, Quotient;
    m := (blkmlp * Pow(n, i)) % B32;
    w := Sub32(cblock, m);
    LocateStep(n, cblock, blkmlp, i, idx, m, w);
    q := Quotient(w, m);
    here := (q * EXT2_MLP_LEN) % B32 < n * EXT2_MLP_LEN;
  }

  lemma OffsetIsSafe(sb: Super, k: nat, offset: nat)
    requires Blocks(sb, k) && offset < B32
    ensures Locate(Pow2(k), BlockOf(sb.BlockSize(), offset)) != Fault
  {
    hide Pow2, Locate;
    NoOffsetFaults(k, offset);
  }

  /** `ext2fs_inode_block`. */
  method InodeBlock(sb: Super, k: nat, inode: Inode, offset: nat, mem: bool) returns (r: nat)
    requires Blocks(sb, k) && inode.Ok() && offset < B32
    ensures r < B32 && Pow2(k) > 0 && r == BlockAt(sb, inode, Pow2(k), BlockOf(sb.BlockSize(), offset), mem)
  {
    hide Pow2, Super.BlockSize, LocateFrom, Digits, BlockOf;
    PointersFit(sb, k);
    OffsetIsSafe(sb, k, offset);
    var cblock: nat := BlockOf(sb.BlockSize(), offset);
    ghost var c := cblock;
    if cblock < EXT2_DLP_NUM { return inode.dbp[cblock]; }
    if !mem { return 0; }
    var buffer := new int[sb.BlockSize()];
    cblock := Sub32(cblock, EXT2_DLP_NUM - 1);
    var n: nat := sb.BlockSize() / EXT2_MLP_LEN;
    var i: nat, blkmlp: nat, blkidx: nat := 0, 1, 0;
    while i < 3
      invariant i <= 3 && blkidx < B32 && LocateFrom(n, cblock, blkmlp, i, blkidx) == Locate(n, c)
    {
      var here;
      cblock, blkmlp, blkidx, here := LevelTurn(n, cblock, blkmlp, i, blkidx);
      if here {
        r := IndirectBlock(sb, k, inode.dbp[EXT2_DLP_NUM + i], cblock, i, buffer);
        return;
      }
      i := i + 1;
    }
    NoLevelFits(n, cblock, blkmlp, blkidx);
    return blkidx;
  }

  /** Without memory for the buffer the direct blocks, and no others, are found. */
  lemma DirectNeedsNoMemory(sb: Super, inode: Inode, n: nat, c: nat)
    requires n > 0 && inode.Ok()
    ensures BlockAt(sb, inode, n, c, false) == if c < EXT2_DLP_NUM then inode.dbp[c] else 0
  {
  }

  /** Pointer i of block b, as far as that can be read. */
  function Next(sb: Super, b: nat, i: nat): nat {
    if sb.Readable(b) then Pointer(sb, b, i) else 0
  }

  /** The first N blocks behind the direct ones come from the block of pointers that pointer 12 names, the
      next N^2 from the blocks of pointers in the block that pointer 13 names. */
  lemma IndirectBlocks(sb: Super, k: nat, inode: Inode, n: nat, i: nat, j: nat, c: nat)
    requires Blocks(sb, k) && inode.Ok() && n == Pow2(k) && i < n && j < n && c == EXT2_DLP_NUM + n + (i * n + j)
    ensures BlockAt(sb, inode, n, EXT2_DLP_NUM + i, true) == Next(sb, inode.dbp[12], i)
    ensures BlockAt(sb, inode, n, c, true) ==
      if sb.Readable(inode.dbp[13]) then Next(sb, Pointer(sb, inode.dbp[13], i), j) else 0
  {
    hide Pow2, Super.Readable, Pointer, BlockAt, Home, PathOf, Super.BlockSize;
    PointersFit(sb, k);
    LowInReach(n, i, j);
    BlockIsInTree(sb, k, inode, EXT2_DLP_NUM + i);
    BlockIsInTree(sb, k, inode, c);
    FirstIndirectPath(n, i);
    SecondIndirectPath(n, i, j);
    FollowStep(sb, inode.dbp[12], [i]);
    FollowStep(sb, inode.dbp[13], [i, j]);
    assert [i, j][1..] == [j];
    FollowStep(sb, Pointer(sb, inode.dbp[13], i), [j]);
  }

  lemma LowInReach(n: nat, i: nat, j: nat)
    requires n <= 0x2000 && i < n && j < n
    ensures (EXT2_DLP_NUM + n + (i * n + j)) * EXT2_MLP_LEN < B32
    ensures EXT2_DLP_NUM + i < LowBlocks(n) && EXT2_DLP_NUM + n + (i * n + j) < LowBlocks(n)
  {
    MulMonotone(i + 1, n, n);
    MulDistributes(n, i, 1);
    MulMonotone(n, 0x2000, n);
  }

  /** For every block below the triply indirect ones the answer is what the pointers along the
      format's path lead to. */
  lemma BlockIsInTree(sb: Super, k: nat, inode: Inode, c: nat)
    requires Blocks(sb, k) && c * EXT2_MLP_LEN < B32 && c < LowBlocks(Pow2(k))
    ensures Pow2(k) > 0 && BlockAt(sb, inode, Pow2(k), c, true) == Lookup(sb, inode, PathOf(Pow2(k), Home(Pow2(k), c)))
    ensures PathOf(Pow2(k), Home(Pow2(k), c)) != NoPath
  {
    hide Pow2;
    PointersFit(sb, k);
    LocateIsHome(Pow2(k), c);
    if c >= EXT2_DLP_NUM + Pow2(k) { BelowSquare(Pow2(k), c - EXT2_DLP_NUM - Pow2(k)); }
  }
}
