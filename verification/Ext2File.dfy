/** Reading a byte range of a file (`ext2fs_inode_read` of src/fs/ext2fs/ext2fs.c). */
module Ext2File {
  import opened Arithmetic
  import opened Dyadic
  import opened Superblock
  import opened Ext2Map
  import opened Ext2

  /** Byte offsets of blocks are cut to 32 bits: the logical block that is looked up for block c. */
  function Cut(bs: nat, c: nat): nat
    requires bs > 0
  {
    BlockOf(bs, Start(bs, c) % B32)
  }

  /** Blocks below 4 GiB are looked up as themselves, and no others. */
  lemma CutIsExactWhen(k: nat, c: nat)
    requires k <= 32
    ensures Pow2(k) > 0 && (Cut(Pow2(k), c) == c <==> Start(Pow2(k), c) < B32)
  {
    CutIsExact(Pow2(k), c, Start(Pow2(k), c));
  }

  /** Of a file with 1 KiB blocks the block at 4 GiB is taken for block 0. */
  lemma BlockAtFourGiB()
    ensures Cut(0x400, 0x40_0000) == 0
  {
  }

  lemma CutIsExact(bs: nat, c: nat, x: nat)
    requires bs > 0 && x == Start(bs, c)
    ensures x % B32 / bs == c <==> x < B32
  {
    DivRem(x, B32);
    DivRem(x % B32, bs);
    assert x == bs * c;
    if x < B32 {
      QuotientUnique(x, B32, 0, x);
      MultipleOf(c, bs);
    }
  }

  /** The device block of logical block c. */
  function DataBlock(sb: Super, inode: Inode, n: nat, c: nat, mem: bool): nat
    requires n > 0
  {
    BlockAt(sb, inode, n, Cut(sb.BlockSize(), c), mem)
  }

  predicate Present(sb: Super, inode: Inode, n: nat, c: nat, mem: bool)
    requires n > 0
  {
    var b := DataBlock(sb, inode, n, c, mem);
    b != 0 && sb.Readable(b)
  }

  /** Byte x of the file. */
  function FileByte(sb: Super, inode: Inode, n: nat, x: nat): int
    requires n > 0
  {
    sb.dev.Byte(Start(sb.BlockSize(), DataBlock(sb, inode, n, BlockOf(sb.BlockSize(), x), true)) + x % sb.BlockSize())
  }

  function FileBytes(sb: Super, inode: Inode, n: nat, lo: nat, hi: nat): (s: seq<int>)
    requires n > 0 && lo <= hi
    ensures |s| == hi - lo && forall i :: 0 <= i < |s| ==> s[i] == FileByte(sb, inode, n, lo + i)
  {
    seq(hi - lo, i requires 0 <= i < hi - lo => FileByte(sb, inode, n, lo + i))
  }

  /** Block first + j of the range is there when its turn comes. */
  predicate Arrives(sb: Super, inode: Inode, n: nat, first: nat, heap: nat -> bool, j: nat)
    requires n > 0
  {
    Present(sb, inode, n, first + j, heap(j + 1))
  }

  /** How many blocks from block first + k on, up to `count`, are there. */
  function Leading(sb: Super, inode: Inode, n: nat, first: nat, k: nat, count: nat, heap: nat -> bool): (m: nat)
    requires n > 0
    ensures k <= count ==> k <= m <= count
    decreases count - k
  {
    if k >= count || !Arrives(sb, inode, n, first, heap, k) then k
    else Leading(sb, inode, n, first, k + 1, count, heap)
  }

  /** Byte `from + i` of logical block c. */
  lemma ByteOfFile(sb: Super, inode: Inode, n: nat, c: nat, from: nat, x: nat, b: nat)
    requires n > 0 && Start(sb.BlockSize(), c) + from == x && from < sb.BlockSize()
    requires b == DataBlock(sb, inode, n, c, true)
    ensures FileByte(sb, inode, n, x) == sb.dev.Byte(Start(sb.BlockSize(), b) + from)
  {
    hide Super.BlockSize, DataBlock;
    assert sb.BlockSize() * c == Start(sb.BlockSize(), c);
    QuotientUnique(x, sb.BlockSize(), c, from);
  }

  /** The bytes of one block that belong to the file. */
  lemma PartOfFile(sb: Super, inode: Inode, n: nat, c: nat, from: nat, m: nat, at: nat, b: nat)
    requires n > 0 && Start(sb.BlockSize(), c) + from == at && from + m <= sb.BlockSize()
    requires b == DataBlock(sb, inode, n, c, true)
    ensures var lo := Start(sb.BlockSize(), b) + from;
      Bytes(sb.dev, lo, lo + m) == FileBytes(sb, inode, n, at, at + m)
  {
    hide Super.BlockSize, DataBlock, Start, FileByte;
    var lo := Start(sb.BlockSize(), b) + from;
    var bytes, file := Bytes(sb.dev, lo, lo + m), FileBytes(sb, inode, n, at, at + m);
    forall i: nat | i < m
      ensures bytes[i] == file[i]
    {
      ByteOfFile(sb, inode, n, c, from + i, at + i, b);
    }
  }

  /** Lack of memory hides a block, but never changes it. */
  lemma SameBlock(sb: Super, inode: Inode, n: nat, c: nat, mem: bool)
    requires n > 0 && DataBlock(sb, inode, n, c, mem) != 0
    ensures DataBlock(sb, inode, n, c, mem) == DataBlock(sb, inode, n, c, true)
  {
  }

  /** One turn of the loop: m bytes of logical block c, from `from` on, go to buffer[at..]. */
  method ReadFilePart(sb: Super, k: nat, inode: Inode, c: nat, from: nat, m: nat, mem: bool,
                      buffer: array<int>, at: nat, iblock: array<int>, ghost offset: nat) returns (ok: bool)
    requires Blocks(sb, k) && inode.Ok() && Pow2(k) > 0
    requires iblock.Length == sb.BlockSize() && iblock != buffer
    requires from + m <= sb.BlockSize() && at + m <= buffer.Length
    requires buffer[..at] == FileBytes(sb, inode, Pow2(k), offset, offset + at)
    requires Start(sb.BlockSize(), c) + from == offset + at
    modifies buffer, iblock
    ensures ok == Present(sb, inode, Pow2(k), c, mem)
    ensures ok ==> buffer[..at + m] == FileBytes(sb, inode, Pow2(k), offset, offset + at + m)
    ensures !ok ==> buffer[..] == old(buffer[..])
    ensures forall i :: at + m <= i < buffer.Length ==> buffer[i] == old(buffer[i])
  {
    hide Pow2, Super.BlockSize, Follow, Super.Readable, Locate, BlockAt, Start, FileBytes, FileByte, Bytes;
    PointersFit(sb, k);
    var blkidx := InodeBlock(sb, k, inode, Start(sb.BlockSize(), c) % B32, mem);
    if blkidx == 0 { return false; }
    BlockInDevice(sb.BlockSize(), blkidx);
    ok := ReadBlock(sb, blkidx, iblock);
    if ok {
      StartIs(sb.BlockSize(), blkidx);
      SameBlock(sb, inode, Pow2(k), c, mem);
      PartOfFile(sb, inode, Pow2(k), c, from, m, offset + at, blkidx);
      BytesInside(sb.dev, Start(sb.BlockSize(), blkidx), sb.BlockSize(), from, m);
      FileBytesJoin(sb, inode, Pow2(k), offset, offset + at, offset + at + m);
      CopyPart(buffer, at, iblock, from, m);
    }
  }

  lemma StartIs(bs: nat, b: nat)
    ensures b * bs == Start(bs, b)
  {
  }

  lemma BytesInside(dev: Device, lo: nat, n: nat, from: nat, m: nat)
    requires from + m <= n
    ensures Bytes(dev, lo, lo + n)[from..from + m] == Bytes(dev, lo + from, lo + from + m)
  {
  }

  lemma FileBytesJoin(sb: Super, inode: Inode, n: nat, lo: nat, mid: nat, hi: nat)
    requires n > 0 && lo <= mid <= hi
    ensures FileBytes(sb, inode, n, lo, mid) + FileBytes(sb, inode, n, mid, hi) == FileBytes(sb, inode, n, lo, hi)
  {
    hide FileByte;
  }

  /** `div(length - 1, nbsize, &remlen) + 1` for a positive length. */
  function BlocksOf(bs: nat, length: nat): nat
    requires bs > 0
  {
    if length == 0 then 0 else BlockOf(bs, length - 1) + 1
  }

  /** The answer of `ext2fs_inode_read`: the bytes up to the first missing block, but never of
      more blocks than the length alone would fill. */
  function Answer(sb: Super, inode: Inode, n: nat, offset: nat, length: nat, heap: nat -> bool): nat
    requires n > 0
  {
    var bs := sb.BlockSize();
    var m := Leading(sb, inode, n, BlockOf(bs, offset), 0, BlocksOf(bs, length), heap);
    Progress(Start(bs, m), offset % bs, length)
  }

  lemma AnswerAt(sb: Super, inode: Inode, n: nat, offset: nat, length: nat, heap: nat -> bool,
                 first: nat, mod: nat, m: nat)
    requires n > 0 && Start(sb.BlockSize(), first) + mod == offset && mod < sb.BlockSize()
    requires m == Leading(sb, inode, n, first, 0, BlocksOf(sb.BlockSize(), length), heap)
    ensures BlockOf(sb.BlockSize(), offset) == first
    ensures Answer(sb, inode, n, offset, length, heap) == Progress(Start(sb.BlockSize(), m), mod, length)
  {
    hide Super.BlockSize, Leading, BlocksOf;
    assert sb.BlockSize() * first == Start(sb.BlockSize(), first);
    QuotientUnique(offset, sb.BlockSize(), first, mod);
  }

  lemma LeadingStep(sb: Super, inode: Inode, n: nat, first: nat, k: nat, count: nat, heap: nat -> bool)
    requires n > 0 && k <= count
    ensures Leading(sb, inode, n, first, k, count, heap) ==
      if k < count && Arrives(sb, inode, n, first, heap, k) then Leading(sb, inode, n, first, k + 1, count, heap) else k
  {
  }

  lemma ProgressDone(bs: nat, k: nat, m: nat, mod: nat, length: nat)
    requires k <= m && Progress(Start(bs, k), mod, length) == length
    ensures Progress(Start(bs, m), mod, length) == length
  {
    MulMonotone(k, m, bs);
  }

  /** One block further: `n` more bytes of the range. */
  lemma Advance(bs: nat, pos: nat, mod: nat, length: nat, from: nat, done: nat, n: nat)
    requires mod < bs && done == Progress(pos, mod, length) && done < length
    requires (pos == 0 && from == mod) || (pos >= bs && from == 0)
    requires n == if bs - from < length - done then bs - from else length - done
    ensures done == pos + from - mod && done + n == Progress(pos + bs, mod, length)
  {
  }

  lemma NoProgress(mod: nat, length: nat)
    ensures Progress(0, mod, length) == 0
  {
  }

  /** `ext2fs_inode_read`: as many bytes of the file as it answers arrive, and nothing else. */
  method InodeRead(sb: Super, k: nat, inode: Inode, offset: nat, length: nat, buffer: array<int>, heap: nat -> bool)
      returns (r: nat)
    requires Blocks(sb, k) && inode.Ok() && Pow2(k) > 0 && offset < B64 && length < B32 && length <= buffer.Length
    modifies buffer
    ensures !heap(0) ==> r == B32 - ENOMEM && buffer[..] == old(buffer[..])
    ensures heap(0) ==> r == Answer(sb, inode, Pow2(k), offset, length, heap)
    ensures heap(0) ==> r <= length && buffer[..r] == FileBytes(sb, inode, Pow2(k), offset, offset + r)
    ensures heap(0) ==> forall i :: r <= i < buffer.Length ==> buffer[i] == old(buffer[i])
  {
    hide Pow2, Super.BlockSize, Present, Locate, Start, BlockOf, FileBytes, Cut, Bytes, Leading, Answer, BlocksOf;
    hide Progress;
    PointersFit(sb, k);
    if !heap(0) { return B32 - ENOMEM; }
    var bs: nat, n: nat := sb.BlockSize(), sb.BlockSize() / EXT2_MLP_LEN;
    var sblnum := BlocksOf(bs, length);
    var sector: nat, ibloff: nat := SplitOffset(offset, bs);
    ghost var mod: nat, pos: nat, all: nat := ibloff, 0, Leading(sb, inode, n, sector, 0, sblnum, heap);
    AnswerAt(sb, inode, n, offset, length, heap, sector, mod, all);
    var iblock := new int[bs];
    var rest: nat, bufoff: nat, blkoff: nat := length, 0, 0;
    assert buffer[..0] == FileBytes(sb, inode, n, offset, offset);
    StartZero(bs);
    NoProgress(mod, length);
    while rest > 0 && blkoff < sblnum
      invariant blkoff <= sblnum && bufoff + rest == length && pos == Start(bs, blkoff)
      invariant bufoff == Progress(pos, mod, length)
      invariant (blkoff == 0 ==> pos == 0 && ibloff == mod) && (blkoff > 0 ==> pos >= bs)
      invariant all == Leading(sb, inode, n, sector, blkoff, sblnum, heap)
      invariant buffer[..bufoff] == FileBytes(sb, inode, n, offset, offset + bufoff)
      invariant forall i :: bufoff <= i < buffer.Length ==> buffer[i] == old(buffer[i])
    {
      if blkoff > 0 { ibloff := 0; }
      var remlen := if bs - ibloff < rest then bs - ibloff else rest;
      Advance(bs, pos, mod, length, ibloff, bufoff, remlen);
      PartPlace(bs, offset, sector, mod, blkoff, ibloff, bufoff);
      NextStart(bs, blkoff);
      LeadingStep(sb, inode, n, sector, blkoff, sblnum, heap);
      var there := ReadFilePart(sb, k, inode, sector + blkoff, ibloff, remlen, heap(blkoff + 1),
                                buffer, bufoff, iblock, offset);
      if !there { return bufoff; }
      bufoff := bufoff + remlen;
      rest := rest - remlen;
      blkoff := blkoff + 1;
      pos := pos + bs;
    }
    LeadingStep(sb, inode, n, sector, blkoff, sblnum, heap);
    if rest == 0 { ProgressDone(bs, blkoff, all, mod, length); }
    return bufoff;
  }

  // --- how much is read --------------------------------------------------------------

  ghost predicate AllArrive(sb: Super, inode: Inode, n: nat, first: nat, heap: nat -> bool, from: nat, count: nat)
    requires n > 0
  {
    forall j: nat :: from <= j < count ==> Arrives(sb, inode, n, first, heap, j)
  }

  lemma {:induction false} LeadingPasses(sb: Super, inode: Inode, n: nat, first: nat, k: nat, count: nat,
                                         heap: nat -> bool, last: nat)
    requires n > 0 && k <= count && k <= last
    ensures Leading(sb, inode, n, first, k, count, heap) > last <==>
            last < count && AllArrive(sb, inode, n, first, heap, k, last + 1)
    decreases count - k
  {
    hide Arrives;
    if k < count && Arrives(sb, inode, n, first, heap, k) && k < last {
      LeadingPasses(sb, inode, n, first, k + 1, count, heap, last);
    }
  }

  lemma ProgressFull(pos: nat, mod: nat, length: nat)
    requires length > 0
    ensures Progress(pos, mod, length) == length <==> pos >= mod + length
  {
  }

  /** Block number k ends at or after byte x, in the block `last`, exactly when it comes later. */
  lemma StartPasses(bs: nat, k: nat, last: nat, x: nat)
    requires Start(bs, last) < x <= Start(bs, last) + bs
    ensures Start(bs, k) >= x <==> k > last
  {
    if k > last {
      MulMonotone(last + 1, k, bs);
      assert (last + 1) * bs == last * bs + bs;
    } else {
      MulMonotone(k, last, bs);
    }
  }

  /** A read is complete exactly when every block that the range touches is there and the blocks
      that the length alone would fill reach to the end of the range. */
  lemma ReadsAllExactlyWhen(sb: Super, inode: Inode, n: nat, offset: nat, length: nat, heap: nat -> bool)
    requires n > 0 && length > 0
    ensures var bs := sb.BlockSize();
      var first, last := BlockOf(bs, offset), BlockOf(bs, offset + length - 1);
      && first <= last
      && (Answer(sb, inode, n, offset, length, heap) == length <==>
          && offset % bs + length <= Start(bs, BlocksOf(bs, length))
          && AllArrive(sb, inode, n, first, heap, 0, last - first + 1))
  {
    hide Super.BlockSize, AllArrive, Leading, BlockOf, Start, Progress, Arrives;
    var bs: nat := sb.BlockSize();
    var first, mod := BlockOf(bs, offset), offset % bs;
    var last, count := BlockOf(bs, mod + length - 1), BlocksOf(bs, length);
    SplitBytes(bs, offset);
    BlockRange(bs, offset, length, first, mod, last);
    var m := Leading(sb, inode, n, first, 0, count, heap);
    LeadingPasses(sb, inode, n, first, 0, count, heap, last);
    StartPasses(bs, m, last, mod + length);
    StartPasses(bs, count, last, mod + length);
    ProgressFull(Start(bs, m), mod, length);
  }

  lemma SplitBytes(bs: nat, offset: nat)
    requires bs > 0
    ensures Start(bs, BlockOf(bs, offset)) + offset % bs == offset && offset % bs < bs
  {
    DivRem(offset, bs);
  }

  /** The blocks that the length alone would fill hold at least the length, and all of them but
      the last one less. */
  lemma BlocksHoldLength(bs: nat, length: nat)
    requires bs > 0 && length > 0
    ensures BlocksOf(bs, length) > 0 && Start(bs, BlocksOf(bs, length) - 1) < length <= Start(bs, BlocksOf(bs, length))
    ensures Start(bs, BlocksOf(bs, length)) >= bs
  {
    DivRem(length - 1, bs);
    assert (BlockOf(bs, length - 1) + 1) * bs == bs * BlockOf(bs, length - 1) + bs;
  }

  /** How much a read delivers when all its blocks arrive: the whole length, or what lies between
      its first byte and the end of as many blocks as the length alone would fill, if that is less. */
  lemma AnswerWhenAllArrive(sb: Super, inode: Inode, n: nat, offset: nat, length: nat, heap: nat -> bool)
    requires n > 0 && length > 0
    requires AllArrive(sb, inode, n, BlockOf(sb.BlockSize(), offset), heap, 0, BlocksOf(sb.BlockSize(), length))
    ensures var bs := sb.BlockSize();
      var room := Start(bs, BlocksOf(bs, length)) - offset % bs;
      room > 0 && Answer(sb, inode, n, offset, length, heap) == if room < length then room else length
  {
    hide Super.BlockSize, AllArrive, Leading, BlockOf, Start, Arrives, BlocksOf;
    var bs: nat := sb.BlockSize();
    var count := BlocksOf(bs, length);
    BlocksHoldLength(bs, length);
    DivRem(offset, bs);
    LeadingPasses(sb, inode, n, BlockOf(bs, offset), 0, count, heap, count - 1);
  }

  /** How much a read delivers when block j is the first of its blocks that does not arrive: what lies
      before it. */
  lemma AnswerWhenOneIsMissing(sb: Super, inode: Inode, n: nat, offset: nat, length: nat, heap: nat -> bool, j: nat)
    requires n > 0 && j < BlocksOf(sb.BlockSize(), length)
    requires AllArrive(sb, inode, n, BlockOf(sb.BlockSize(), offset), heap, 0, j)
    requires !Arrives(sb, inode, n, BlockOf(sb.BlockSize(), offset), heap, j)
    ensures var before := Start(sb.BlockSize(), j) - offset % sb.BlockSize();
      Answer(sb, inode, n, offset, length, heap) ==
        if before <= 0 then 0 else if before < length then before else length
  {
    hide Super.BlockSize, AllArrive, Leading, BlockOf, Start, Arrives, BlocksOf;
    var bs: nat := sb.BlockSize();
    LeadingStops(sb, inode, n, BlockOf(bs, offset), j, BlocksOf(bs, length), heap);
  }

  lemma LeadingStops(sb: Super, inode: Inode, n: nat, first: nat, j: nat, count: nat, heap: nat -> bool)
    requires n > 0 && j < count && AllArrive(sb, inode, n, first, heap, 0, j) && !Arrives(sb, inode, n, first, heap, j)
    ensures Leading(sb, inode, n, first, 0, count, heap) == j
  {
    hide Arrives, Leading;
    LeadingPasses(sb, inode, n, first, 0, count, heap, j);
    if j > 0 { LeadingPasses(sb, inode, n, first, 0, count, heap, j - 1); }
  }

  /** So a read from a block boundary on is complete when its blocks are there. */
  lemma AlignedReadsComplete(sb: Super, inode: Inode, n: nat, offset: nat, length: nat, heap: nat -> bool)
    requires n > 0 && length > 0 && offset % sb.BlockSize() == 0
    requires AllArrive(sb, inode, n, BlockOf(sb.BlockSize(), offset), heap, 0, BlocksOf(sb.BlockSize(), length))
    ensures Answer(sb, inode, n, offset, length, heap) == length
  {
    hide Super.BlockSize, AllArrive, BlockOf, Start, BlocksOf, Answer;
    AnswerWhenAllArrive(sb, inode, n, offset, length, heap);
    BlocksHoldLength(sb.BlockSize(), length);
  }

  /** One block's length from its second byte on: the read stops one byte early. */
  lemma ReadEndsEarly(sb: Super, inode: Inode, n: nat, heap: nat -> bool)
    requires n > 0 && sb.BlockSize() > 1 && Arrives(sb, inode, n, 0, heap, 0)
    ensures Answer(sb, inode, n, 1, sb.BlockSize(), heap) == sb.BlockSize() - 1
  {
    hide Super.BlockSize, Arrives, Answer, AllArrive;
    var bs: nat := sb.BlockSize();
    QuotientUnique(1, bs, 0, 1);
    QuotientUnique(bs - 1, bs, 0, bs - 1);
    OneArrives(sb, inode, n, 0, heap);
    AnswerWhenAllArrive(sb, inode, n, 1, bs, heap);
  }

  lemma OneArrives(sb: Super, inode: Inode, n: nat, first: nat, heap: nat -> bool)
    requires n > 0 && Arrives(sb, inode, n, first, heap, 0)
    ensures AllArrive(sb, inode, n, first, heap, 0, 1)
  {
    hide Arrives;
  }

  /** Below 4 GiB and, for blocks of less than 4 KiB, below the triply indirect blocks, the bytes read
      are those of the blocks that the pointers along the format's path lead to. */
  lemma FileByteIsInTree(sb: Super, k: nat, inode: Inode, x: nat)
    requires Blocks(sb, k) && Pow2(k) > 0 && x < B32
    requires k >= 10 || BlockOf(sb.BlockSize(), x) < LowBlocks(Pow2(k))
    ensures var c := BlockOf(sb.BlockSize(), x);
      FileByte(sb, inode, Pow2(k), x) ==
        sb.dev.Byte(Start(sb.BlockSize(), Lookup(sb, inode, PathOf(Pow2(k), Home(Pow2(k), c)))) + x % sb.BlockSize())
  {
    hide Pow2, Super.BlockSize, BlockAt, Lookup, PathOf, Home, LowBlocks;
    PointersFit(sb, k);
    var bs: nat := sb.BlockSize();
    var c := BlockOf(bs, x);
    SplitBytes(bs, x);
    assert Cut(bs, c) == c by { CutIsExact(bs, c, Start(bs, c)); }
    OffsetInReach(sb, k, x);
    BlockIsInTree(sb, k, inode, c);
  }

  lemma OffsetInReach(sb: Super, k: nat, x: nat)
    requires Blocks(sb, k) && x < B32
    ensures var c := BlockOf(sb.BlockSize(), x);
      c * EXT2_MLP_LEN < B32 && (k >= 10 ==> c < LowBlocks(Pow2(k)))
  {
    hide Pow2, LowBlocks;
    OffsetReach(k, x);
  }
}
