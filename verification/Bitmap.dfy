/** Blocks of bytes and the allocation bitmap stored in them. */
module Bitmap {
  type Byte = b: nat | b < 256

  const BLOCK_SIZE := 512

  type Block = b: seq<Byte> | |b| == BLOCK_SIZE witness seq(BLOCK_SIZE, _ => 0)

  function ZeroBlock(): Block { seq(BLOCK_SIZE, _ => 0) }

  /** A block with `src` written over it at `at`. */
  function Splice(blk: Block, at: nat, src: seq<Byte>): (r: Block)
    requires at + |src| <= 512
    ensures forall k :: 0 <= k < 512 ==> r[k] == if at <= k < at + |src| then src[k - at] else blk[k]
  {
    blk[..at] + src + blk[at + |src|..]
  }

  /** `(b >> k) & 1`. */
  predicate BitOf(b: nat, k: nat) {
    if k == 0 then b % 2 == 1 else BitOf(b / 2, k - 1)
  }

  /** `b | (1 << k)` or `b & ~(1 << k)`. */
  function WithBit(b: nat, k: nat, used: bool): nat {
    if k == 0 then b - b % 2 + (if used then 1 else 0)
    else 2 * WithBit(b / 2, k - 1, used) + b % 2
  }

  lemma {:induction false} WithBitAt(b: nat, k: nat, used: bool, j: nat)
    ensures BitOf(WithBit(b, k, used), j) == if j == k then used else BitOf(b, j)
  {
    var r := WithBit(b, k, used);
    if k == 0 {
      assert r / 2 == b / 2;
    } else {
      assert r / 2 == WithBit(b / 2, k - 1, used) && r % 2 == b % 2;
      if j > 0 {
        WithBitAt(b / 2, k - 1, used, j - 1);
      }
    }
  }

  function Pow2(n: nat): nat {
    if n == 0 then 1 else 2 * Pow2(n - 1)
  }

  lemma {:induction false} WithBitFits(b: nat, k: nat, used: bool, n: nat)
    requires k < n && b < Pow2(n)
    ensures WithBit(b, k, used) < Pow2(n)
  {
    var q, r, half := b / 2, b % 2, Pow2(n - 1);
    assert b == 2 * q + r && Pow2(n) == 2 * half && q < half;
    if k == 0 {
      assert WithBit(b, k, used) == 2 * q + (if used then 1 else 0);
    } else {
      WithBitFits(q, k - 1, used, n - 1);
      assert WithBit(b, k, used) == 2 * WithBit(q, k - 1, used) + r;
    }
  }

  predicate BlockBit(blk: Block, i: nat)
    requires i < 4096
  {
    BitOf(blk[i / 8], i % 8)
  }

  /** Sets or clears bit `i` of a bitmap block and no other. */
  function BlockWithBit(blk: Block, i: nat, used: bool): (r: Block)
    requires i < 4096
    ensures forall j :: 0 <= j < 4096 ==> BlockBit(r, j) == if j == i then used else BlockBit(blk, j)
  {
    assert Pow2(8) == 256;
    WithBitFits(blk[i / 8], i % 8, used, 8);
    var r := blk[i / 8 := WithBit(blk[i / 8], i % 8, used)];
    assert forall j :: 0 <= j < 4096 ==> BlockBit(r, j) == if j == i then used else BlockBit(blk, j) by {
      forall j | 0 <= j < 4096
        ensures BlockBit(r, j) == if j == i then used else BlockBit(blk, j)
      {
        WithBitAt(blk[i / 8], i % 8, used, j % 8);
      }
    }
    r
  }

  /** Where the parts of a volume lie, in blocks. */
  datatype Super = Super(totalBlocks: nat, bitmapStart: nat, inodeStart: nat, dataStart: nat)

  /** The layout every mkfs produces: superblock, bitmap covering the whole
      volume, inode table, data. */
  predicate Geometry(sup: Super) {
    && 0 < sup.bitmapStart
    && sup.bitmapStart + (sup.totalBlocks + 4096 - 1) / 4096 <= sup.inodeStart
    && sup.inodeStart <= sup.dataStart < sup.totalBlocks < 0x8000_0000
  }

  ghost predicate OnDisk(sup: Super, disk: seq<Block>) {
    Geometry(sup) && |disk| == sup.totalBlocks
  }

  predicate Bit(sup: Super, disk: seq<Block>, b: nat)
    requires OnDisk(sup, disk) && b < sup.totalBlocks
  {
    BlockBit(disk[sup.bitmapStart + b / 4096], b % 4096)
  }

  /** `bits` holds one flag per block of the volume: true means in use. */
  ghost predicate IsBitmap(sup: Super, disk: seq<Block>, bits: seq<bool>)
    requires OnDisk(sup, disk)
  {
    |bits| == sup.totalBlocks && forall b {:trigger Bit(sup, disk, b)} :: 0 <= b < |bits| ==>
      bits[b] == Bit(sup, disk, b)
  }

  ghost function Bits(sup: Super, disk: seq<Block>): (bits: seq<bool>)
    requires OnDisk(sup, disk)
    ensures |bits| == sup.totalBlocks
    ensures IsBitmap(sup, disk, bits)
  {
    assert IsBitmap(sup, disk, seq(sup.totalBlocks, b requires 0 <= b < sup.totalBlocks => Bit(sup, disk, b)));
    var bits :| IsBitmap(sup, disk, bits);
    bits
  }

  /** `bits` with the run [start, start + len) set to `used`. */
  ghost function Marked(bits: seq<bool>, start: nat, len: nat, used: bool): (s: seq<bool>)
    ensures |s| == |bits|
    ensures forall b :: 0 <= b < |s| ==> s[b] == if start <= b < start + len then used else bits[b]
  {
    seq(|bits|, b requires 0 <= b < |bits| => if start <= b < start + len then used else bits[b])
  }

  ghost predicate FreeRun(bits: seq<bool>, start: nat, len: nat) {
    start + len <= |bits| && forall b :: start <= b < start + len ==> !bits[b]
  }

  /** How many of the first `n` blocks are free. */
  ghost function FreeCount(bits: seq<bool>, n: nat): nat
    requires n <= |bits|
  {
    if n == 0 then 0 else FreeCount(bits, n - 1) + (if bits[n - 1] then 0 else 1)
  }

  function Min(a: int, b: int): int { if a < b then a else b }
  function Max(a: int, b: int): int { if a < b then b else a }

  /** Marking a run of free blocks lowers the free count by its length, and
      freeing a run in use raises it by as much. */
  lemma {:induction false} FreeCountMarked(bits: seq<bool>, start: nat, len: nat, used: bool, n: nat)
    requires n <= |bits|
    requires forall b :: start <= b < start + len && b < n ==> bits[b] != used
    ensures var change := Max(0, Min(n, start + len) - start);
            FreeCount(Marked(bits, start, len, used), n) == FreeCount(bits, n) + (if used then -change else change)
  {
    if n > 0 {
      FreeCountMarked(bits, start, len, used, n - 1);
    }
  }
}
