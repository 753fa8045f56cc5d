/** NXFS directory blocks: sixteen 32-byte slots, each an inode number and a
    NUL-padded name of at most 27 bytes (fs/nxfs.h, fs/nxfs.c). */
module NxfsDir {
  import opened Bitmap
  import opened Bytes
  import opened Extents
  import opened Contents

  type Name = seq<Byte>

  /** One directory slot; an empty name marks a free slot. */
  datatype DirSlot = DirSlot(ino: nat, name: Name)

  const FREE_SLOT := DirSlot(0, [])

  function SlotAt(blk: Block, j: nat): DirSlot
    requires j < 16
  {
    DirSlot(LittleEndian(blk[32 * j..32 * j + 4]), CStr(blk[32 * j + 4..32 * j + 32]))
  }

  /** A slot the code can store: a C string that fits with its terminator. */
  predicate Storable(s: DirSlot) {
    s.ino < 0x1_0000_0000 && |s.name| <= 27 && 0 !in s.name
  }

  /** Overwrites slot `j` of a directory block. */
  function WithSlot(blk: Block, j: nat, s: DirSlot): Block
    requires j < 16 && Storable(s)
  {
    blk[..32 * j] + LittleEndianBytes(s.ino, 4) + (s.name + Zeros(28 - |s.name|)) + blk[32 * j + 32..]
  }

  lemma SlotWritten(blk: Block, j: nat, s: DirSlot, i: nat)
    requires j < 16 && i < 16 && Storable(s)
    ensures SlotAt(WithSlot(blk, j, s), i) == if i == j then s else SlotAt(blk, i)
  {
    var r := WithSlot(blk, j, s);
    if i == j {
      assert Pow256(2) == 65536 && Pow256(4) == 0x1_0000_0000;
      assert r[32 * j..32 * j + 4] == LittleEndianBytes(s.ino, 4);
      assert r[32 * j + 4..32 * j + 32] == s.name + Zeros(28 - |s.name|);
      CStrPadded(s.name, 28 - |s.name|);
    } else if i < j {
      assert r[32 * i..32 * i + 4] == blk[32 * i..32 * i + 4];
      assert r[32 * i + 4..32 * i + 32] == blk[32 * i + 4..32 * i + 32];
    } else {
      assert r[32 * i..32 * i + 4] == blk[32 * i..32 * i + 4];
      assert r[32 * i + 4..32 * i + 32] == blk[32 * i + 4..32 * i + 32];
    }
  }

  lemma ZeroBlockSlots(j: nat)
    requires j < 16
    ensures SlotAt(ZeroBlock(), j) == FREE_SLOT
  {
    assert ZeroBlock()[32 * j..32 * j + 4] == [0, 0, 0, 0];
    assert LittleEndian([0, 0, 0, 0]) == 0 by {
      assert [0, 0, 0, 0][1..] == [0, 0, 0] && [0, 0, 0][1..] == [0, 0] && [0, 0][1..] == [0] && [0][1..] == [];
    }
  }

  ghost predicate IsSlots(disk: seq<Block>, phys: seq<nat>, slots: seq<DirSlot>)
    requires Within(phys, 0, |disk|)
  {
    && |slots| == 16 * |phys|
    && forall b, j {:trigger SlotAt(disk[phys[b]], j)} :: 0 <= b < |phys| && 0 <= j < 16 ==>
         slots[16 * b + j] == SlotAt(disk[phys[b]], j)
  }

  lemma {:induction false} SlotsExist(disk: seq<Block>, phys: seq<nat>)
    requires Within(phys, 0, |disk|)
    ensures exists slots :: IsSlots(disk, phys, slots)
  {
    if phys == [] {
      assert IsSlots(disk, phys, []);
    } else {
      var n := |phys| - 1;
      SlotsExist(disk, phys[..n]);
      var front :| IsSlots(disk, phys[..n], front);
      var blk := disk[phys[n]];
      var slots := front + seq(16, j requires 0 <= j < 16 => SlotAt(blk, j));
      forall b, j | 0 <= b < |phys| && 0 <= j < 16
        ensures slots[16 * b + j] == SlotAt(disk[phys[b]], j)
      {
        if b < n {
          assert front[16 * b + j] == SlotAt(disk[phys[..n][b]], j);
        }
      }
      assert IsSlots(disk, phys, slots);
    }
  }

  /** All slots of a directory whose blocks are `phys`, in order. */
  ghost function Slots(disk: seq<Block>, phys: seq<nat>): (slots: seq<DirSlot>)
    requires Within(phys, 0, |disk|)
    ensures IsSlots(disk, phys, slots)
  {
    SlotsExist(disk, phys);
    var slots :| IsSlots(disk, phys, slots);
    slots
  }

  /** Position `k` in a directory is slot `k % 16` of logical block `k / 16`. */
  lemma SlotsAt(disk: seq<Block>, phys: seq<nat>, k: nat)
    requires Within(phys, 0, |disk|)
    requires k < 16 * |phys|
    ensures Slots(disk, phys)[k] == SlotAt(disk[phys[k / 16]], k % 16)
  {
    assert Slots(disk, phys)[16 * (k / 16) + k % 16] == SlotAt(disk[phys[k / 16]], k % 16);
  }

  lemma SlotInBlock(disk: seq<Block>, phys: seq<nat>, b: nat, j: nat)
    requires Within(phys, 0, |disk|) && b < |phys| && j < 16
    ensures Slots(disk, phys)[16 * b + j] == SlotAt(disk[phys[b]], j)
  {
    assert IsSlots(disk, phys, Slots(disk, phys));
  }

  /** A directory depends only on its own blocks. */
  lemma SlotsKept(d: seq<Block>, d': seq<Block>, phys: seq<nat>)
    requires Within(phys, 0, |d|) && SameOn(d, d', phys)
    ensures Slots(d', phys) == Slots(d, phys)
  {
    forall k | 0 <= k < 16 * |phys| ensures Slots(d', phys)[k] == Slots(d, phys)[k] {
      SlotsAt(d, phys, k);
      SlotsAt(d', phys, k);
    }
  }

  ghost function FreeSlots(n: nat): (s: seq<DirSlot>)
    ensures |s| == n && forall i :: 0 <= i < n ==> s[i] == FREE_SLOT
  {
    seq(n, _ => FREE_SLOT)
  }

  /** Zero-filled blocks appended to a directory add free slots. */
  lemma SlotsGrown(d: seq<Block>, d': seq<Block>, phys: seq<nat>, added: seq<nat>)
    requires Within(phys, 0, |d|) && SameOn(d, d', phys)
    requires Within(added, 0, |d'|) && forall i :: 0 <= i < |added| ==> d'[added[i]] == ZeroBlock()
    ensures Slots(d', phys + added) == Slots(d, phys) + FreeSlots(16 * |added|)
  {
    var all := Slots(d, phys) + FreeSlots(16 * |added|);
    forall k | 0 <= k < |all| ensures Slots(d', phys + added)[k] == all[k] {
      SlotsAt(d', phys + added, k);
      if k < 16 * |phys| {
        SlotsAt(d, phys, k);
      } else {
        assert (phys + added)[k / 16] == added[k / 16 - |phys|];
        ZeroBlockSlots(k % 16);
      }
    }
  }

  /** Overwriting slot `j` of logical block `b` changes one slot of the directory. */
  lemma SlotsUpdated(d: seq<Block>, phys: seq<nat>, b: nat, j: nat, s: DirSlot)
    requires Within(phys, 0, |d|)
    requires NoDup(phys) && b < |phys| && j < 16 && Storable(s)
    ensures Slots(d[phys[b] := WithSlot(d[phys[b]], j, s)], phys) == Slots(d, phys)[16 * b + j := s]
  {
    var d' := d[phys[b] := WithSlot(d[phys[b]], j, s)];
    forall k | 0 <= k < 16 * |phys|
      ensures Slots(d', phys)[k] == Slots(d, phys)[16 * b + j := s][k]
    {
      SlotsAt(d, phys, k);
      SlotsAt(d', phys, k);
      if k / 16 == b {
        SlotWritten(d[phys[b]], j, s, k % 16);
      } else {
        assert Differ(phys[Min(k / 16, b)], phys[Max(k / 16, b)]);
      }
    }
  }
}
