/** Reading through a superblock (src/fs/super.c): blocks of a file system over the sectors of a
    device, and byte ranges over blocks. */
module Superblock {
  import opened Arithmetic
  import opened Dyadic
  import opened Division

  /** Shifts of 64-bit numbers. */
  function ShiftLeft(x: nat, k: nat): nat {
    (x * Pow2(k)) % B64
  }

  function ShiftRight(x: nat, k: nat): nat {
    QuotientSmaller(x, Pow2(k));
    x / Pow2(k)
  }

  /** A sectored device: its bytes, and which runs of sectors can be read. */
  datatype Device = Device(data: nat -> nat, ok: (nat, nat) -> bool) {
    function Byte(i: nat): (b: nat)
      ensures b < 256
    {
      data(i) % 256
    }
  }

  /** Device bytes [lo, hi). */
  function Bytes(dev: Device, lo: nat, hi: nat): (s: seq<int>)
    requires lo <= hi
    ensures |s| == hi - lo && forall i :: 0 <= i < |s| ==> s[i] == dev.Byte(lo + i)
  {
    seq(hi - lo, i requires 0 <= i < hi - lo => dev.Byte(lo + i))
  }

  /** The field `block_size` of `struct superblock` is 16 bits wide: what is stored for 1 << logs. */
  function StoredSize(logs: nat): nat {
    Pow2(logs) % 0x1_0000
  }

  /** From 64 KiB on the stored block size is 0, and everything that divides by it faults. */
  lemma StoredSizeIsRightExactlyWhen(logs: nat)
    requires logs < 32
    ensures StoredSize(logs) == Pow2(logs) <==> logs < 16
    ensures StoredSize(logs) == 0 <==> logs >= 16
  {
    Powers();
    if logs < 16 {
      Pow2Monotone(logs, 15);
    } else {
      Pow2Sum(logs - 16, 16);
      MultipleOf(Pow2(logs - 16), 0x1_0000);
    }
  }

  /** `struct superblock`: logarithms of the block size and of the device's sector size. */
  datatype Super = Super(dev: Device, blockLogs: nat, sectorLogs: nat) {
    function BlockSize(): (n: nat)
      ensures n > 0
    {
      Pow2(blockLogs)
    }

    /** `superblock_sectors`, 64 bits wide. */
    function Sectors(blkidx: nat): nat {
      ShiftRight(ShiftLeft(blkidx, blockLogs), sectorLogs)
    }

    /** `superblock_blockno`, 64 bits wide. */
    function BlockNo(blkmod: nat, length: nat): nat
      requires blkmod + length < B64
    {
      var last := if blkmod + length == 0 then B64 - 1 else blkmod + length - 1;
      var n := last / Pow2(blockLogs) - blkmod / Pow2(blockLogs) + 1;
      if n < 0 then 0 else n
    }

    /** Block b can be read. */
    predicate Readable(b: nat) {
      dev.ok(Sectors(b), Sectors(1))
    }
  }

  /** A block is made of whole sectors exactly when it is no smaller than a sector. */
  lemma SectorsOfBlock(sb: Super, b: nat)
    requires (b + 1) * sb.BlockSize() <= B64 && sb.blockLogs < 64
    ensures sb.sectorLogs <= sb.blockLogs ==>
      && sb.Sectors(b) * Pow2(sb.sectorLogs) == b * sb.BlockSize()
      && sb.Sectors(1) * Pow2(sb.sectorLogs) == sb.BlockSize()
    ensures sb.sectorLogs > sb.blockLogs ==> sb.Sectors(1) == 0
  {
    hide Pow2;
    var s, k := sb.sectorLogs, sb.blockLogs;
    NoShiftOut(b, k);
    if s <= k {
      WholeSectors(b, k, s);
      WholeSectors(1, k, s);
    } else {
      Pow2Monotone(k + 1, s);
      Pow2Monotone(k, k + 1);
      HalfRest(k);
      QuotientUnique(Pow2(k), Pow2(s), 0, Pow2(k));
    }
  }

  lemma HalfRest(k: nat)
    ensures Pow2(k) < Pow2(k + 1)
  {
  }

  /** No bit of the number of a block below the 64-bit limit is shifted out. */
  lemma NoShiftOut(b: nat, k: nat)
    requires (b + 1) * Pow2(k) <= B64 && k < 64
    ensures ShiftLeft(b, k) == b * Pow2(k) && ShiftLeft(1, k) == Pow2(k)
  {
    hide Pow2;
    FitsIn64(k);
    MulDistributes(Pow2(k), b, 1);
    NotShiftedOut(b * Pow2(k));
    NotShiftedOut(Pow2(k));
  }

  lemma NotShiftedOut(x: nat)
    requires x < B64
    ensures x % B64 == x
  {
  }

  lemma FitsIn64(k: nat)
    requires k < 64
    ensures Pow2(k) < B64
  {
    HalfRest(k);
    hide Pow2;
    Pow2Monotone(k + 1, 64);
    Pow2Sum(32, 32);
    Powers();
  }

  lemma WholeSectors(x: nat, k: nat, s: nat)
    requires s <= k
    ensures x * Pow2(k) / Pow2(s) * Pow2(s) == x * Pow2(k)
  {
    Pow2Sum(k - s, s);
    var m := Pow2(k - s);
    Regroup(x, m, Pow2(s));
    MultipleOf(x * m, Pow2(s));
  }

  lemma Regroup(x: nat, m: nat, t: nat)
    ensures x * (m * t) == (x * m) * t
  {
  }

  /** `bdev_read`: on success the buffer starts with the bytes of the sectors. */
  method BdevRead(sb: Super, sector: nat, secnum: nat, buffer: array<int>) returns (ok: bool)
    requires secnum * Pow2(sb.sectorLogs) <= buffer.Length
    modifies buffer
    ensures ok == sb.dev.ok(sector, secnum)
    ensures ok ==> var lo, n := sector * Pow2(sb.sectorLogs), secnum * Pow2(sb.sectorLogs);
      buffer[..n] == Bytes(sb.dev, lo, lo + n)
    ensures forall i :: secnum * Pow2(sb.sectorLogs) <= i < buffer.Length ==> buffer[i] == old(buffer[i])
  {
    ok := sb.dev.ok(sector, secnum);
    if ok {
      var n, lo := secnum * Pow2(sb.sectorLogs), sector * Pow2(sb.sectorLogs);
      forall i | 0 <= i < n {
        buffer[i] := sb.dev.Byte(lo + i);
      }
    }
  }

  /** `superblock_read_block`: the bytes of the block; no byte at all when it is smaller than a
      sector. */
  method ReadBlock(sb: Super, blkidx: nat, buffer: array<int>) returns (ok: bool)
    requires buffer.Length == sb.BlockSize() && sb.blockLogs < 64
    requires (blkidx + 1) * sb.BlockSize() <= B64
    modifies buffer
    ensures ok == sb.Readable(blkidx)
    ensures ok && sb.sectorLogs <= sb.blockLogs ==>
      buffer[..] == Bytes(sb.dev, blkidx * sb.BlockSize(), blkidx * sb.BlockSize() + sb.BlockSize())
    ensures sb.sectorLogs > sb.blockLogs ==> buffer[..] == old(buffer[..])
  {
    hide Pow2, Super.BlockSize;
    SectorsOfBlock(sb, blkidx);
    ok := BdevRead(sb, sb.Sectors(blkidx), sb.Sectors(1), buffer);
    assert ok ==> buffer[..] == buffer[..sb.BlockSize()];
  }

  /** The first byte of block k. */
  function Start(bs: nat, k: nat): nat {
    k * bs
  }

  /** The block that holds byte x. */
  function BlockOf(bs: nat, x: nat): nat
    requires bs > 0
  {
    x / bs
  }

  /** The first and the last block of a byte range. */
  lemma BlockRange(bs: nat, offset: nat, length: nat, first: nat, mod: nat, n: nat)
    requires bs > 0 && length > 0 && Start(bs, first) + mod == offset && mod < bs
    requires n == BlockOf(bs, mod + length - 1)
    ensures Start(bs, n) < mod + length <= Start(bs, n) + bs
    ensures BlockOf(bs, offset) == first && BlockOf(bs, offset + length - 1) == first + n
  {
    assert bs * first == first * bs;
    QuotientUnique(offset, bs, first, mod);
    var r := (mod + length - 1) % bs;
    assert mod + length - 1 == bs * n + r;
    assert bs * (first + n) == bs * first + bs * n;
    QuotientUnique(offset + length - 1, bs, first + n, r);
  }

  /** A length of zero at a block boundary wraps around: nearly all blocks of a 64-bit device. */
  lemma ZeroLengthWraps(sb: Super)
    requires sb.blockLogs <= 32
    ensures sb.BlockNo(0, 0) == (B64 - 1) / sb.BlockSize() + 1
  {
    QuotientUnique(0, sb.BlockSize(), 0, 0);
  }

  /** Where the bytes copied from block `first + k` of the range belong. */
  lemma PartPlace(bs: nat, offset: nat, first: nat, mod: nat, k: nat, from: nat, done: nat)
    requires Start(bs, first) + mod == offset && done == Start(bs, k) + from - mod
    ensures Start(bs, first + k) + from == offset + done
  {
    assert (first + k) * bs == first * bs + k * bs;
  }

  /** `memcpy` of src[from..from + n] to buffer[at..]. */
  method CopyPart(buffer: array<int>, at: nat, src: array<int>, from: nat, n: nat)
    requires buffer != src && at + n <= buffer.Length && from + n <= src.Length
    modifies buffer
    ensures buffer[..at + n] == old(buffer[..at]) + src[from..from + n]
    ensures forall i :: at + n <= i < buffer.Length ==> buffer[i] == old(buffer[i])
  {
    forall i | 0 <= i < n {
      buffer[at + i] := src[from + i];
    }
  }

  /** One turn of the loop of `superblock_read_offset`: n bytes of block b, from `from` on, go to
      buffer[at..], where they continue the bytes from `offset` on. */
  method ReadPart(sb: Super, b: nat, from: nat, n: nat, buffer: array<int>, at: nat, blkbuf: array<int>,
                  ghost offset: nat)
      returns (ok: bool)
    requires sb.sectorLogs <= sb.blockLogs < 64 && Start(sb.BlockSize(), b + 1) <= B64
    requires blkbuf.Length == sb.BlockSize() && blkbuf != buffer
    requires from + n <= sb.BlockSize() && at + n <= buffer.Length
    requires buffer[..at] == Bytes(sb.dev, offset, offset + at) && Start(sb.BlockSize(), b) + from == offset + at
    modifies buffer, blkbuf
    ensures ok == sb.Readable(b)
    ensures ok ==> buffer[..at + n] == Bytes(sb.dev, offset, offset + at + n)
    ensures forall i :: at + n <= i < buffer.Length ==> buffer[i] == old(buffer[i])
  {
    ok := ReadBlock(sb, b, blkbuf);
    if ok {
      CopyPart(buffer, at, blkbuf, from, n);
      assert blkbuf[from..from + n] == Bytes(sb.dev, offset + at, offset + at + n);
    }
  }

  ghost predicate AllReadable(sb: Super, first: nat, end: nat) {
    forall b :: first <= b < end ==> sb.Readable(b)
  }

  /** `div(offset, block_size, &blkmod)`. */
  method SplitOffset(offset: nat, bs: nat) returns (first: nat, mod: nat)
    requires offset < B64 && 0 < bs < B32
    ensures Start(bs, first) + mod == offset && mod < bs
  {
    first, mod := ArchDiv(offset, bs);
    assert offset == bs * first + mod;
  }

  /** How far the copying has come when `pos` bytes of whole blocks have been passed. */
  function Progress(pos: nat, mod: nat, length: nat): nat {
    if pos <= mod then 0 else if pos - mod < length then pos - mod else length
  }

  /** `superblock_read_offset`: it succeeds exactly when there is memory for a block and every block
      that the range touches can be read, and then the buffer starts with exactly the bytes of the
      range. */
  method ReadOffset(sb: Super, offset: nat, length: nat, buffer: array<int>, mem: bool) returns (ok: bool)
    requires sb.sectorLogs <= sb.blockLogs < 16
    requires 0 < length <= buffer.Length < B32 && offset + length <= B64
    modifies buffer
    ensures ok <==>
      mem && AllReadable(sb, BlockOf(sb.BlockSize(), offset), BlockOf(sb.BlockSize(), offset + length - 1) + 1)
    ensures !mem ==> buffer[..] == old(buffer[..])
    ensures ok ==> buffer[..length] == Bytes(sb.dev, offset, offset + length)
    ensures forall i :: length <= i < buffer.Length ==> buffer[i] == old(buffer[i])
  {
    hide Pow2, Bytes, Super.BlockSize, Super.Readable, Super.BlockNo, BlockOf, Start;
    var bs := sb.BlockSize();
    ghost var u := SizeDivides(sb);
    var blkidx: nat, blkmod: nat := SplitOffset(offset, bs);
    ghost var mod: nat, last: nat, pos: nat := blkmod, BlockOf(bs, blkmod + length - 1), 0;
    BlockRange(bs, offset, length, blkidx, mod, last);
    BlockCount(sb, blkmod, length);
    var blknum := sb.BlockNo(blkmod, length);
    if !mem { return false; }
    var blkbuf := new int[bs];
    var rest: nat, bufoff: nat, blkoff: nat := length, 0, 0;
    NoBytes(sb.dev, offset, buffer);
    StartZero(bs);
    while blkoff < blknum
      invariant blkoff <= blknum && bufoff + rest == length && pos == Start(bs, blkoff)
      invariant bufoff == Progress(pos, mod, length)
      invariant (blkoff == 0 ==> pos == 0 && blkmod == mod) && (blkoff > 0 ==> pos >= bs)
      invariant AllReadable(sb, blkidx, blkidx + blkoff)
      invariant buffer[..bufoff] == Bytes(sb.dev, offset, offset + bufoff)
      invariant forall i :: length <= i < buffer.Length ==> buffer[i] == old(buffer[i])
    {
      InRange(bs, u, blkidx, blkoff, last, mod, offset, length);
      if blkoff > 0 { blkmod := 0; }
      var remlen := if bs - blkmod < rest then bs - blkmod else rest;
      PartPlace(bs, offset, blkidx, mod, blkoff, blkmod, bufoff);
      var read := ReadPart(sb, blkidx + blkoff, blkmod, remlen, buffer, bufoff, blkbuf, offset);
      if !read { return false; }
      bufoff := bufoff + remlen;
      rest := rest - remlen;
      blkoff := blkoff + 1;
      pos := pos + bs;
    }
    NextStart(bs, last);
    assert blkoff == last + 1;
    return true;
  }

  lemma BlockCount(sb: Super, mod: nat, length: nat)
    requires mod < sb.BlockSize() && length > 0 && mod + length < B64
    ensures sb.BlockNo(mod, length) == BlockOf(sb.BlockSize(), mod + length - 1) + 1
  {
    QuotientUnique(mod, sb.BlockSize(), 0, mod);
  }

  lemma NextStart(bs: nat, k: nat)
    ensures Start(bs, k + 1) == Start(bs, k) + bs
  {
  }

  lemma StartZero(bs: nat)
    ensures Start(bs, 0) == 0
  {
  }

  lemma NoBytes(dev: Device, offset: nat, buffer: array<int>)
    ensures buffer[..0] == Bytes(dev, offset, offset + 0)
  {
  }

  lemma SizeDivides(sb: Super) returns (u: nat)
    requires sb.blockLogs < 16
    ensures B64 == Start(sb.BlockSize(), u) && sb.BlockSize() < 0x1_0000
  {
    u := Pow2(64 - sb.blockLogs);
    Powers();
    Pow2Sum(32, 32);
    Pow2Sum(64 - sb.blockLogs, sb.blockLogs);
    Pow2Monotone(sb.blockLogs, 15);
  }

  /** Block `first + k` of the range ends by the 64-bit limit, and the copying so far ended at its
      start. */
  lemma InRange(bs: nat, u: nat, first: nat, k: nat, last: nat, mod: nat, offset: nat, length: nat)
    requires Start(bs, first) + mod == offset && k <= last && Start(bs, last) < mod + length
    requires offset + length <= B64 == Start(bs, u)
    ensures Start(bs, first + k + 1) <= B64 && Start(bs, k) < mod + length && Start(bs, k + 1) == Start(bs, k) + bs
  {
    MulMonotone(k, last, bs);
    assert (first + last) * bs == first * bs + last * bs;
    if u <= first + last { MulMonotone(u, first + last, bs); }
    MulMonotone(first + k + 1, u, bs);
    assert (k + 1) * bs == k * bs + bs;
  }
}
