/** The NXFS volume and its block allocator (fs/nxfs.c): chunked walks over the
    bitmap blocks and first-fit allocation. */
module NxfsAlloc {
  import opened Bitmap
  import opened Extents

  datatype Kind = NoKind | File | Dir

  datatype Inode = Inode(used: bool, size: nat, kind: Kind, nlink: nat, extents: seq<Extent>)

  class Volume {
    const sup: Super
    var disk: seq<Block>     // every block of the partition; the inode table is kept apart
    var inodes: seq<Inode>

    constructor (sup: Super, disk: seq<Block>, inodes: seq<Inode>)
      ensures this.sup == sup && this.disk == disk && this.inodes == inodes
    {
      this.sup, this.disk, this.inodes := sup, disk, inodes;
    }
  }

  /** Only bitmap blocks differ. */
  ghost predicate OnlyBitmap(sup: Super, d: seq<Block>, d': seq<Block>) {
    && |d| == |d'|
    && forall b :: 0 <= b < |d| && !(sup.bitmapStart <= b < sup.inodeStart) ==> d'[b] == d[b]
  }

  /** Block number `base + bit` is recorded at position `bit` of its bitmap block. */
  lemma BitAt(sup: Super, disk: seq<Block>, index: nat, bit: nat)
    requires OnDisk(sup, disk) && bit < 4096 && index * 4096 + bit < sup.totalBlocks
    ensures sup.bitmapStart + index < sup.inodeStart
    ensures BlockBit(disk[sup.bitmapStart + index], bit) == Bits(sup, disk)[index * 4096 + bit]
  {
    assert (index * 4096 + bit) / 4096 == index;
    assert (index * 4096 + bit) % 4096 == bit;
    assert Bits(sup, disk)[index * 4096 + bit] == Bit(sup, disk, index * 4096 + bit);
  }

  /** Rewriting one bitmap block changes exactly the flags it holds. */
  lemma BitsOfBlock(sup: Super, disk: seq<Block>, index: nat, blk: Block, start: nat, len: nat, used: bool)
    requires OnDisk(sup, disk) && sup.bitmapStart + index < sup.inodeStart
    requires index * 4096 <= start && start + len <= (index + 1) * 4096 && start + len <= sup.totalBlocks
    requires forall i :: 0 <= i < 4096 ==>
      BlockBit(blk, i) == if start <= index * 4096 + i < start
        + len then used else BlockBit(disk[sup.bitmapStart + index], i)
    ensures Bits(sup, disk[sup.bitmapStart + index := blk]) == Marked(Bits(sup, disk), start, len, used)
  {
    var disk' := disk[sup.bitmapStart + index := blk];
    forall b | 0 <= b < sup.totalBlocks
      ensures Bit(sup, disk', b) == if start <= b < start + len then used else Bit(sup, disk, b)
    {
      assert b == b / 4096 * 4096 + b % 4096;
    }
    forall b | 0 <= b < sup.totalBlocks
      ensures Bits(sup, disk')[b] == Marked(Bits(sup, disk), start, len, used)[b]
    {
      assert Bits(sup, disk')[b] == Bit(sup, disk', b) && Bits(sup, disk)[b] == Bit(sup, disk, b);
    }
  }

  method BitmapSetRange(vol: Volume, start: nat, len: nat, used: bool) returns (ok: bool)
    requires OnDisk(vol.sup, vol.disk)
    modifies vol`disk
    ensures OnlyBitmap(vol.sup, old(vol.disk), vol.disk)
    ensures ok <==> 0 < len && start + len <= vol.sup.totalBlocks
    ensures Bits(vol.sup, vol.disk) ==
      if ok then Marked(Bits(vol.sup, old(vol.disk)), start, len, used) else Bits(vol.sup, old(vol.disk))
  {
    if len == 0 || start >= vol.sup.totalBlocks || start + len > vol.sup.totalBlocks {
      return false;
    }
    ghost var was := Bits(vol.sup, vol.disk);
    var done := 0;
    assert Marked(was, start, 0, used) == was;
    while done < len
      invariant done <= len
      invariant OnlyBitmap(vol.sup, old(vol.disk), vol.disk)
      invariant Bits(vol.sup, vol.disk) == Marked(was, start, done, used)
    {
      var block := start + done;
      var index := block / 4096;
      var bit := block % 4096;
      var chunk := if 4096 - bit > len - done then len - done else 4096 - bit;
      var bitmap := vol.disk[vol.sup.bitmapStart + index];
      ghost var loaded := bitmap;
      for i := 0 to chunk
        invariant forall j :: 0 <= j < 4096 ==>
          BlockBit(bitmap, j) == if bit <= j < bit + i then used else BlockBit(loaded, j)
      {
        bitmap := BlockWithBit(bitmap, bit + i, used);
      }
      assert block == index * 4096 + bit;
      BitsOfBlock(vol.sup, vol.disk, index, bitmap, block, chunk, used);
      assert Marked(Marked(was, start, done, used), block, chunk, used) == Marked(was, start, done + chunk, used);
      vol.disk := vol.disk[vol.sup.bitmapStart + index := bitmap];
      done := done + chunk;
    }
    return true;
  }

  /** Free blocks among the first `limit` recorded in one bitmap block. */
  method CountFreeBits(vol: Volume, index: nat, limit: nat) returns (free: nat)
    requires OnDisk(vol.sup, vol.disk)
    requires limit <= 4096 && index * 4096 + limit <= vol.sup.totalBlocks
    ensures FreeCount(Bits(vol.sup, vol.disk), index * 4096 + limit) ==
            FreeCount(Bits(vol.sup, vol.disk), index * 4096) + free
  {
    ghost var bits := Bits(vol.sup, vol.disk);
    ghost var base := index * 4096;
    free := 0;
    for bit := 0 to limit
      invariant FreeCount(bits, base + bit) == FreeCount(bits, base) + free
    {
      BitAt(vol.sup, vol.disk, index, bit);
      if !BlockBit(vol.disk[vol.sup.bitmapStart + index], bit) {
        free := free + 1;
      }
    }
  }

  /** Counts the free blocks bitmap block by bitmap block. */
  method SpaceInfo(vol: Volume) returns (free: nat)
    requires OnDisk(vol.sup, vol.disk)
    ensures free == FreeCount(Bits(vol.sup, vol.disk), vol.sup.totalBlocks)
  {
    free := 0;
    var index := 0;
    while index < vol.sup.inodeStart - vol.sup.bitmapStart && index * 4096 < vol.sup.totalBlocks
      invariant free == FreeCount(Bits(vol.sup, vol.disk), Min(index * 4096, vol.sup.totalBlocks))
    {
      var base := index * 4096;
      var n := CountFreeBits(vol, index, Min(4096, vol.sup.totalBlocks - base));
      free := free + n;
      index := index + 1;
    }
  }

  /** Where a first-fit scan for `len` free blocks stands after looking at all
      blocks below `pos`: no fit so far, and the free blocks just below `pos`
      form the run of length `runLen` from `runStart`. */
  ghost predicate Scanned(sup: Super, bits: seq<bool>, len: nat, pos: nat, runStart: nat, runLen: nat) {
    && runLen < len && pos <= |bits|
    && (runLen > 0 ==> sup.dataStart <= runStart && runStart + runLen == pos && FreeRun(bits, runStart, runLen))
    && (runLen > 0 && runStart > sup.dataStart ==> bits[runStart - 1])
    && (runLen == 0 && pos > sup.dataStart ==> bits[pos - 1])
    && NoFit(bits, len, sup.dataStart, pos)
  }

  /** No run of `len` free blocks lies inside [from, to). */
  ghost predicate NoFit(bits: seq<bool>, len: nat, from: nat, to: nat) {
    forall s {:trigger FreeRun(bits, s, len)} :: from <= s && s + len <= to ==> !FreeRun(bits, s, len)
  }

  lemma ScanUsed(sup: Super, bits: seq<bool>, len: nat, pos: nat, runStart: nat, runLen: nat)
    requires Scanned(sup, bits, len, pos, runStart, runLen)
    requires pos < |bits| && (bits[pos] || pos < sup.dataStart)
    ensures pos < sup.dataStart ==> runLen == 0
    ensures Scanned(sup, bits, len, pos + 1, runStart, 0)
  {
    forall s | sup.dataStart <= s && s + len <= pos + 1
      ensures !FreeRun(bits, s, len)
    {
      if s + len == pos + 1 {
        assert s <= pos < s + len;
      }
    }
  }

  lemma ScanFree(sup: Super, bits: seq<bool>, len: nat, pos: nat, runStart: nat, runLen: nat)
    requires Scanned(sup, bits, len, pos, runStart, runLen)
    requires sup.dataStart <= pos < |bits| && !bits[pos]
    ensures var start := if runLen == 0 then pos else runStart;
            if runLen + 1 < len then Scanned(sup, bits, len, pos + 1, start, runLen + 1)
            else FirstFit(sup, bits, len, start)
  {
    var start := if runLen == 0 then pos else runStart;
    assert FreeRun(bits, start, runLen + 1);
    if runLen + 1 < len {
      forall s | sup.dataStart <= s && s + len <= pos + 1
        ensures !FreeRun(bits, s, len)
      {
        if s + len == pos + 1 {
          assert s <= start - 1 < s + len;
        }
      }
    }
  }

  /** `start` is the lowest place in the data region with `len` free blocks. */
  ghost predicate FirstFit(sup: Super, bits: seq<bool>, len: nat, start: nat) {
    && sup.dataStart <= start && FreeRun(bits, start, len)
    && forall s {:trigger FreeRun(bits, s, len)} :: sup.dataStart <= s < start ==> !FreeRun(bits, s, len)
  }

  /** Continues the first-fit scan through one bitmap block. */
  method ScanBitmapBlock(vol: Volume, index: nat, limit: nat, len: nat, runStart0: nat, runLen0: nat)
    returns (runStart: nat, runLen: nat)
    requires OnDisk(vol.sup, vol.disk)
    requires limit <= 4096 && index * 4096 + limit <= vol.sup.totalBlocks
    requires Scanned(vol.sup, Bits(vol.sup, vol.disk), len, index * 4096, runStart0, runLen0)
    ensures runLen <= len
    ensures runLen < len ==> Scanned(vol.sup, Bits(vol.sup, vol.disk), len, index * 4096 + limit, runStart, runLen)
    ensures runLen == len ==> FirstFit(vol.sup, Bits(vol.sup, vol.disk), len, runStart)
  {
    ghost var bits := Bits(vol.sup, vol.disk);
    runStart, runLen := runStart0, runLen0;
    var base := index * 4096;
    for bit := 0 to limit
      invariant Scanned(vol.sup, bits, len, base + bit, runStart, runLen)
    {
      var block := base + bit;
      BitAt(vol.sup, vol.disk, index, bit);
      if block < vol.sup.dataStart {
        ScanUsed(vol.sup, bits, len, block, runStart, runLen);
        continue;
      }
      if BlockBit(vol.disk[vol.sup.bitmapStart + index], bit) {
        ScanUsed(vol.sup, bits, len, block, runStart, runLen);
        runLen := 0;
        continue;
      }
      ScanFree(vol.sup, bits, len, block, runStart, runLen);
      if runLen == 0 {
        runStart := block;
      }
      runLen := runLen + 1;
      if runLen >= len {
        return;
      }
    }
  }

  /** Finds, marks and returns the lowest run of `len` free data blocks; -1 when
      there is none. */
  method AllocExtent(vol: Volume, len: nat) returns (start: int)
    requires OnDisk(vol.sup, vol.disk)
    modifies vol`disk
    ensures OnlyBitmap(vol.sup, old(vol.disk), vol.disk)
    ensures start >= 0 ==>
      && FirstFit(vol.sup, Bits(vol.sup, old(vol.disk)), len, start) && len > 0
      && Bits(vol.sup, vol.disk) == Marked(Bits(vol.sup, old(vol.disk)), start, len, true)
      && FreeCount(Bits(vol.sup, vol.disk), vol.sup.totalBlocks) + len ==
         FreeCount(Bits(vol.sup, old(vol.disk)), vol.sup.totalBlocks)
    ensures start < 0 ==>
      && vol.disk == old(vol.disk)
      && (len == 0 || NoFit(Bits(vol.sup, vol.disk), len, vol.sup.dataStart, vol.sup.totalBlocks))
  {
    if len == 0 {
      return -1;
    }
    var runStart: nat, runLen: nat, index := 0, 0, 0;
    while index < vol.sup.inodeStart - vol.sup.bitmapStart && index * 4096 < vol.sup.totalBlocks
      invariant vol.disk == old(vol.disk)
      invariant Scanned(vol.sup, Bits(vol.sup, vol.disk), len, Min(index * 4096, vol.sup.totalBlocks), runStart, runLen)
    {
      var limit := Min(4096, vol.sup.totalBlocks - index * 4096);
      runStart, runLen := ScanBitmapBlock(vol, index, limit, len, runStart, runLen);
      if runLen >= len {
        var ok := BitmapSetRange(vol, runStart, len, true);
        FreeCountMarked(Bits(vol.sup, old(vol.disk)), runStart, len, true, vol.sup.totalBlocks);
        return if ok then runStart else -1;
      }
      index := index + 1;
    }
    return -1;
  }

  method FreeExtent(vol: Volume, start: nat, len: nat) returns (ok: bool)
    requires OnDisk(vol.sup, vol.disk)
    modifies vol`disk
    ensures OnlyBitmap(vol.sup, old(vol.disk), vol.disk)
    ensures ok <==> len == 0 || start + len <= vol.sup.totalBlocks
    ensures Bits(vol.sup, vol.disk) ==
      if ok && len > 0 then Marked(Bits(vol.sup, old(vol.disk)), start, len, false) else Bits(vol.sup, old(vol.disk))
  {
    if len == 0 {
      return true;
    }
    ok := BitmapSetRange(vol, start, len, false);
  }

  /** Tests a run inside one bitmap block; `next` is the first block not looked at. */
  method RunIsFreeInBlock(vol: Volume, block: nat, end: nat) returns (free: bool, next: nat)
    requires OnDisk(vol.sup, vol.disk) && block < end <= vol.sup.totalBlocks
    ensures free ==> block < next <= end && FreeRun(Bits(vol.sup, vol.disk), block, next - block)
    ensures !free ==> exists b :: block <= b < end && Bits(vol.sup, vol.disk)[b]
  {
    var index := block / 4096;
    var bit := block % 4096;
    next := block;
    while bit < 4096 && next < end
      invariant block <= next <= end && next == index * 4096 + bit && bit <= 4096
      invariant FreeRun(Bits(vol.sup, vol.disk), block, next - block)
    {
      BitAt(vol.sup, vol.disk, index, bit);
      if BlockBit(vol.disk[vol.sup.bitmapStart + index], bit) {
        return false, next;
      }
      bit, next := bit + 1, next + 1;
    }
    free := true;
  }

  method RangeIsFree(vol: Volume, start: nat, len: nat) returns (free: bool)
    requires OnDisk(vol.sup, vol.disk)
    ensures free <==> len > 0 && vol.sup.dataStart <= start && FreeRun(Bits(vol.sup, vol.disk), start, len)
  {
    if len == 0 || start < vol.sup.dataStart || start >= vol.sup.totalBlocks || len > vol.sup.totalBlocks - start {
      return false;
    }
    var block := start;
    while block < start + len
      invariant start <= block <= start + len
      invariant FreeRun(Bits(vol.sup, vol.disk), start, block - start)
    {
      var ok, next := RunIsFreeInBlock(vol, block, start + len);
      if !ok {
        return false;
      }
      block := next;
    }
    return true;
  }
}
