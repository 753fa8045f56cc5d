/** What an NXFS volume means: which inode owns which block, and the tree of
    files and directories the inodes and blocks represent. */
module NxfsState {
  import opened Bitmap
  import opened Extents
  import opened Contents
  import opened NxfsAlloc
  import opened NxfsGrow
  import opened Coverage
  import opened NxfsDir

  /** The blocks and inodes of a volume at one moment. */
  datatype State = State(disk: seq<Block>, inodes: seq<Inode>)

  ghost function Now(vol: Volume): State
    reads vol
  {
    State(vol.disk, vol.inodes)
  }

  // ----- block ownership -----

  ghost function Blocks(i: Inode): seq<nat> {
    if i.used then Phys(i.extents) else []
  }

  /** A packed extent array; at most as many blocks in a file as its 32-bit size
      can count. */
  ghost predicate Shaped(i: Inode) {
    && Packed(i.extents) && (i.used <==> i.kind != NoKind)
    && (i.kind.File? ==> |Phys(i.extents)| <= 0x7F_FFFF)
  }

  /** Distinct data blocks, all marked in the bitmap. */
  ghost predicate Holds(sup: Super, bits: seq<bool>, blocks: seq<nat>) {
    NoDup(blocks) && Within(blocks, sup.dataStart, |bits|) && forall k :: 0 <= k < |blocks| ==> bits[blocks[k]]
  }

  /** Every block an inode refers to is a marked data block, and no block is
      referred to twice, by one inode or by two. */
  ghost predicate Owned(sup: Super, bits: seq<bool>, inodes: seq<Inode>) {
    && (forall i {:trigger Holds(sup, bits, Blocks(inodes[i]))} ::
          0 <= i < |inodes| ==> Holds(sup, bits, Blocks(inodes[i])))
    && (forall i, j {:trigger Disjoint(Blocks(inodes[i]), Blocks(inodes[j]))} ::
          0 <= i < |inodes| && 0 <= j < |inodes| && i != j ==> Disjoint(Blocks(inodes[i]), Blocks(inodes[j])))
  }

  ghost predicate Store(sup: Super, disk: seq<Block>, inodes: seq<Inode>) {
    && OnDisk(sup, disk) && 0 < |inodes| <= 0x1_0000_0000
    && (forall i {:trigger Shaped(inodes[i])} :: 0 <= i < |inodes| ==> Shaped(inodes[i]))
    && Owned(sup, Bits(sup, disk), inodes)
  }

  /** Every block in use keeps its contents. */
  ghost predicate Undisturbed(d: seq<Block>, d': seq<Block>, inodes: seq<Inode>) {
    forall i {:trigger Blocks(inodes[i])} :: 0 <= i < |inodes| ==>
      Within(Blocks(inodes[i]), 0, |d|) && SameOn(d, d', Blocks(inodes[i]))
  }

  /** Every block in use by an inode other than `p` keeps its contents. */
  ghost predicate OthersSame(d: seq<Block>, d': seq<Block>, inodes: seq<Inode>, p: nat) {
    forall i {:trigger Blocks(inodes[i])} :: 0 <= i < |inodes| && i != p ==>
      Within(Blocks(inodes[i]), 0, |d|) && SameOn(d, d', Blocks(inodes[i]))
  }

  lemma UndisturbedSame(sup: Super, d: seq<Block>, inodes: seq<Inode>)
    requires Store(sup, d, inodes)
    ensures Undisturbed(d, d, inodes)
  {
    forall i | 0 <= i < |inodes| ensures Within(Blocks(inodes[i]), 0, |d|) {
      assert Holds(sup, Bits(sup, d), Blocks(inodes[i]));
    }
  }

  /** Taking free blocks disturbs no inode. */
  lemma TookUndisturbed(sup: Super, d0: seq<Block>, d1: seq<Block>, added: seq<nat>, inodes: seq<Inode>)
    requires Store(sup, d0, inodes) && Took(sup, d0, d1, added)
    ensures Store(sup, d1, inodes) && Undisturbed(d0, d1, inodes)
    ensures forall i :: 0 <= i < |inodes| ==> Disjoint(Blocks(inodes[i]), added)
  {
    forall i | 0 <= i < |inodes|
      ensures Within(Blocks(inodes[i]), 0, |d0|) && SameOn(d0, d1, Blocks(inodes[i]))
      ensures Disjoint(Blocks(inodes[i]), added)
      ensures Holds(sup, Bits(sup, d1), Blocks(inodes[i]))
    {
      assert Holds(sup, Bits(sup, d0), Blocks(inodes[i]));
    }
  }

  /** An inode that gains exactly the blocks taken keeps ownership exclusive. */
  lemma OwnedGrow(sup: Super, d0: seq<Block>, d1: seq<Block>, added: seq<nat>, inodes: seq<Inode>, p: nat, inode: Inode)
    requires Store(sup, d0, inodes) && Took(sup, d0, d1, added) && p < |inodes|
    requires Shaped(inode) && Blocks(inode) == Blocks(inodes[p]) + added
    ensures Store(sup, d1, inodes[p := inode])
  {
    TookUndisturbed(sup, d0, d1, added, inodes);
    assert Holds(sup, Bits(sup, d1), Blocks(inodes[p]));
    NoDupConcat(Blocks(inodes[p]), added);
    assert Holds(sup, Bits(sup, d1), Blocks(inode)) by {
      forall k | 0 <= k < |Blocks(inode)|
        ensures sup.dataStart <= Blocks(inode)[k] < sup.totalBlocks && Bits(sup, d1)[Blocks(inode)[k]]
      {
        if k < |Blocks(inodes[p])| {
          assert Blocks(inode)[k] == Blocks(inodes[p])[k];
        } else {
          assert Blocks(inode)[k] in added;
        }
      }
    }
    forall i | 0 <= i < |inodes| && i != p
      ensures Disjoint(Blocks(inodes[i]), Blocks(inode)) && Disjoint(Blocks(inode), Blocks(inodes[i]))
    {
      assert Disjoint(Blocks(inodes[i]), Blocks(inodes[p])) && Disjoint(Blocks(inodes[i]), added);
    }
  }

  /** Clearing the bits of one inode's blocks while dropping its extents. */
  lemma OwnedDrop(sup: Super, d0: seq<Block>, d1: seq<Block>, inodes: seq<Inode>, p: nat, inode: Inode)
    requires Store(sup, d0, inodes) && OnlyBitmap(sup, d0, d1) && p < |inodes|
    requires forall b :: 0 <= b < sup.totalBlocks ==>
      Bits(sup, d1)[b] == (Bits(sup, d0)[b] && b !in Blocks(inodes[p]))
    requires Shaped(inode) && Blocks(inode) == []
    ensures Store(sup, d1, inodes[p := inode])
    ensures Undisturbed(d0, d1, inodes)
  {
    forall i | 0 <= i < |inodes|
      ensures Within(Blocks(inodes[i]), 0, |d0|) && SameOn(d0, d1, Blocks(inodes[i]))
      ensures i != p ==> Holds(sup, Bits(sup, d1), Blocks(inodes[i]))
    {
      assert Holds(sup, Bits(sup, d0), Blocks(inodes[i]));
      if i != p {
        forall k | 0 <= k < |Blocks(inodes[i])|
          ensures Bits(sup, d1)[Blocks(inodes[i])[k]]
        {
          assert Blocks(inodes[i])[k] in Blocks(inodes[i]);
          assert Disjoint(Blocks(inodes[i]), Blocks(inodes[p]));
        }
      }
    }
    assert Holds(sup, Bits(sup, d1), []);
  }

  /** Rewriting one block an inode owns, and that inode's other fields. */
  lemma OwnedWrite(sup: Super, disk: seq<Block>, inodes: seq<Inode>, p: nat, k: nat, blk: Block, inode: Inode)
    requires Store(sup, disk, inodes) && p < |inodes| && k < |Blocks(inodes[p])|
    requires Blocks(inodes[p])[k] < |disk|
    requires Shaped(inode) && Blocks(inode) == Blocks(inodes[p])
    ensures Store(sup, disk[Blocks(inodes[p])[k] := blk], inodes[p := inode])
    ensures OthersSame(disk, disk[Blocks(inodes[p])[k] := blk], inodes, p)
  {
    var disk' := disk[Blocks(inodes[p])[k] := blk];
    assert Holds(sup, Bits(sup, disk), Blocks(inodes[p]));
    BitsKept(sup, disk, disk');
    forall i | 0 <= i < |inodes| && i != p
      ensures Within(Blocks(inodes[i]), 0, |disk|) && SameOn(disk, disk', Blocks(inodes[i]))
    {
      assert Holds(sup, Bits(sup, disk), Blocks(inodes[i]));
      forall m | 0 <= m < |Blocks(inodes[i])|
        ensures disk'[Blocks(inodes[i])[m]] == disk[Blocks(inodes[i])[m]]
      {
        assert Disjoint(Blocks(inodes[i]), Blocks(inodes[p]));
        assert Blocks(inodes[i])[m] in Blocks(inodes[i]) && Blocks(inodes[p])[k] in Blocks(inodes[p]);
      }
    }
  }

  // ----- blocks nobody owns -----

  ghost predicate Claimed(inodes: seq<Inode>, b: nat) {
    exists i {:trigger Blocks(inodes[i])} :: 0 <= i < |inodes| && b in Blocks(inodes[i])
  }

  /** The marked blocks that belong to no inode: the metadata blocks, and whatever
      growing left behind when it failed. */
  ghost function Strays(sup: Super, d: seq<Block>, inodes: seq<Inode>): set<nat>
    requires OnDisk(sup, d)
  {
    set b: nat | b < sup.totalBlocks && Bits(sup, d)[b] && !Claimed(inodes, b)
  }

  ghost function Stray(vol: Volume): set<nat>
    requires OnDisk(vol.sup, vol.disk)
    reads vol
  {
    Strays(vol.sup, vol.disk, vol.inodes)
  }

  lemma ClaimedUpdate(inodes: seq<Inode>, p: nat, inode: Inode, b: nat)
    requires p < |inodes|
    ensures Claimed(inodes[p := inode], b) <==>
      b in Blocks(inode) || exists i {:trigger Blocks(inodes[i])} ::
        0 <= i < |inodes| && i != p && b in Blocks(inodes[i])
  {
    var after := inodes[p := inode];
    assert after[p] == inode && forall i {:trigger Blocks(after[i])} :: 0 <= i < |after| && i != p ==>
      after[i] == inodes[i];
    if b in Blocks(inode) {
      assert b in Blocks(after[p]);
    }
    if i {:trigger Blocks(inodes[i])} :| 0 <= i < |inodes| && i != p && b in Blocks(inodes[i]) {
      assert b in Blocks(after[i]);
    }
  }

  lemma GoneElsewhere(sup: Super, d: seq<Block>, inodes: seq<Inode>, p: nat, inode: Inode, gone: seq<nat>, b: nat)
    requires Store(sup, d, inodes) && p < |inodes| && Blocks(inodes[p]) == Blocks(inode) + gone && b in gone
    ensures b >= sup.dataStart && b !in Blocks(inode)
    ensures forall i {:trigger Blocks(inodes[i])} :: 0 <= i < |inodes| && i != p ==> b !in Blocks(inodes[i])
  {
    var all := Blocks(inodes[p]);
    assert Holds(sup, Bits(sup, d), all);
    var k :| 0 <= k < |gone| && gone[k] == b;
    assert all[|Blocks(inode)| + k] == b && b in all;
    forall j | 0 <= j < |Blocks(inode)| ensures Blocks(inode)[j] != b {
      assert Differ(all[j], all[|Blocks(inode)| + k]);
    }
    forall i {:trigger Blocks(inodes[i])} | 0 <= i < |inodes| && i != p ensures b !in Blocks(inodes[i]) {
      assert Disjoint(Blocks(inodes[p]), Blocks(inodes[i]));
    }
  }

  /** Blocks taken for an inode are not stray. */
  lemma StraysGrow(sup: Super, d0: seq<Block>, d1: seq<Block>, added: seq<nat>, inodes: seq<Inode>, p: nat,
                   inode: Inode)
    requires Took(sup, d0, d1, added) && p < |inodes| && Blocks(inode) == Blocks(inodes[p]) + added
    ensures Strays(sup, d1, inodes[p := inode]) == Strays(sup, d0, inodes)
  {
    forall b: nat | b < sup.totalBlocks
      ensures b in Strays(sup, d1, inodes[p := inode]) <==> b in Strays(sup, d0, inodes)
    {
      ClaimedUpdate(inodes, p, inode, b);
    }
  }

  /** Which blocks are stray depends on the bitmap and the extents alone. */
  lemma StraysSame(sup: Super, d0: seq<Block>, d1: seq<Block>, inodes: seq<Inode>, p: nat, inode: Inode)
    requires OnDisk(sup, d0) && OnDisk(sup, d1) && Bits(sup, d1) == Bits(sup, d0)
    requires p < |inodes| && Blocks(inode) == Blocks(inodes[p])
    ensures Strays(sup, d1, inodes[p := inode]) == Strays(sup, d0, inodes)
  {
    forall b: nat | b < sup.totalBlocks
      ensures b in Strays(sup, d1, inodes[p := inode]) <==> b in Strays(sup, d0, inodes)
    {
      ClaimedUpdate(inodes, p, inode, b);
    }
  }

  /** Blocks taken and given to no inode join the stray ones. */
  lemma StraysMore(sup: Super, d0: seq<Block>, d1: seq<Block>, added: seq<nat>, inodes: seq<Inode>)
    requires Store(sup, d0, inodes) && Took(sup, d0, d1, added)
    ensures Strays(sup, d1, inodes) == Strays(sup, d0, inodes) + (set x | x in added)
    ensures Spilled(Strays(sup, d0, inodes), Strays(sup, d1, inodes), added != [])
  {
    forall b: nat | b < sup.totalBlocks && b in added ensures !Claimed(inodes, b) {
      forall i {:trigger Blocks(inodes[i])} | 0 <= i < |inodes| ensures b !in Blocks(inodes[i]) {
        assert Holds(sup, Bits(sup, d0), Blocks(inodes[i]));
      }
    }
    if added != [] {
      assert added[0] in added && added[0] !in Strays(sup, d0, inodes);
    }
  }

  /** The stray blocks became strictly more, or stayed as they were. */
  ghost predicate Spilled(before: set<nat>, after: set<nat>, more: bool) {
    if more then before < after else after == before
  }

  /** A file's last block is a marked data block. */
  lemma HoldsAnchored(sup: Super, bits: seq<bool>, es: seq<Extent>)
    requires Holds(sup, bits, Phys(es))
    ensures Anchored(bits, sup.dataStart, es)
  {}

  // ----- file contents -----

  /** The largest size for which rounding up to blocks does not overflow 32 bits. */
  const MAX_SIZE := 0xFFFF_FE00

  /** The file has exactly the blocks its size needs, and the bytes past its end
      are zero. */
  ghost predicate Tight(disk: seq<Block>, phys: seq<nat>, size: nat) {
    && |phys| == (size + 511) / 512 && size <= MAX_SIZE
    && forall k {:trigger ByteAt(disk, phys, k)} :: size <= k < 512 * |phys| ==> ByteAt(disk, phys, k) == 0
  }

  lemma TightKept(d: seq<Block>, d': seq<Block>, phys: seq<nat>, size: nat)
    requires Within(phys, 0, |d|) && SameOn(d, d', phys)
    ensures Tight(d', phys, size) == Tight(d, phys, size)
  {
    assert forall k {:trigger ByteAt(d, phys, k)} :: 0 <= k ==> ByteAt(d', phys, k) == ByteAt(d, phys, k);
    assert forall k {:trigger ByteAt(d', phys, k)} :: 0 <= k ==> ByteAt(d', phys, k) == ByteAt(d, phys, k);
  }

  // ----- directories -----

  ghost predicate Live(s: DirSlot) { s.name != [] }

  const DOT: Name := [46]
  const DOTDOT: Name := [46, 46]

  ghost predicate IsDot(n: Name) { n == DOT || n == DOTDOT }

  /** An entry other than "." and "..". */
  ghost predicate Link(s: DirSlot) { Live(s) && !IsDot(s.name) }

  ghost predicate UniqueNames(slots: seq<DirSlot>) {
    forall k, m {:trigger Live(slots[k]), Live(slots[m])} :: 0 <= k < |slots| && 0 <= m < |slots| ==>
      Live(slots[k]) && Live(slots[m]) && slots[k].name == slots[m].name ==> k == m
  }

  ghost predicate Maps(m: map<Name, nat>, n: Name) { n in m }

  ghost predicate IsNameMap(slots: seq<DirSlot>, m: map<Name, nat>) {
    && (forall k {:trigger Live(slots[k])} :: 0 <= k < |slots| && Live(slots[k]) ==> slots[k].name in m)
    && (forall n {:trigger Maps(m, n)} :: n in m ==>
          exists k {:trigger Live(slots[k])} ::
            0 <= k < |slots| && Live(slots[k]) && slots[k].name == n && slots[k].ino == m[n])
  }

  lemma {:induction false} NameMapExists(slots: seq<DirSlot>)
    ensures exists m :: IsNameMap(slots, m)
  {
    if slots == [] {
      assert IsNameMap(slots, map[]);
    } else {
      var front, last := slots[..|slots| - 1], slots[|slots| - 1];
      NameMapExists(front);
      var m :| IsNameMap(front, m);
      var m' := if Live(last) then m[last.name := last.ino] else m;
      assert forall k {:trigger Live(slots[k])} :: 0 <= k < |slots| && Live(slots[k]) ==> slots[k].name in m' by {
        assert forall k {:trigger Live(slots[k])} :: 0 <= k < |front| ==> Live(front[k]) == Live(slots[k]);
      }
      forall n | n in m'
        ensures exists k {:trigger Live(slots[k])} ::
          0 <= k < |slots| && Live(slots[k]) && slots[k].name == n && slots[k].ino == m'[n]
      {
        if Live(last) && n == last.name {
          assert Live(slots[|front|]);
        } else {
          assert Maps(m, n);
          var k :| 0 <= k < |front| && Live(front[k]) && front[k].name == n && front[k].ino == m[n];
          assert Live(slots[k]);
        }
      }
      assert IsNameMap(slots, m');
    }
  }

  /** A directory as a finite map from names to inode numbers. */
  ghost function NameMap(slots: seq<DirSlot>): (m: map<Name, nat>)
    ensures IsNameMap(slots, m)
  {
    NameMapExists(slots);
    var m :| IsNameMap(slots, m);
    m
  }

  lemma NameMapAt(slots: seq<DirSlot>, k: nat)
    requires UniqueNames(slots) && k < |slots| && Live(slots[k])
    ensures slots[k].name in NameMap(slots) && NameMap(slots)[slots[k].name] == slots[k].ino
  {
    assert Maps(NameMap(slots), slots[k].name);
  }

  lemma NameMapAbsent(slots: seq<DirSlot>, n: Name)
    requires n != []
    ensures n in NameMap(slots) <==> exists k :: 0 <= k < |slots| && slots[k].name == n
  {
    if k :| 0 <= k < |slots| && slots[k].name == n {
      assert Live(slots[k]);
    }
    if n in NameMap(slots) {
      assert Maps(NameMap(slots), n);
    }
  }

  /** With unique names there is only one such map. */
  lemma NameMapIs(slots: seq<DirSlot>, m: map<Name, nat>)
    requires UniqueNames(slots) && IsNameMap(slots, m)
    ensures NameMap(slots) == m
  {
    forall n | Maps(m, n) || Maps(NameMap(slots), n)
      ensures n in m && n in NameMap(slots) && m[n] == NameMap(slots)[n]
    {
      assert Maps(m, n) && Maps(NameMap(slots), n);
    }
    assert forall n :: n in m ==> Maps(m, n);
    assert forall n :: n in NameMap(slots) ==> Maps(NameMap(slots), n);
  }

  lemma NameMapAdd(slots: seq<DirSlot>, k: nat, s: DirSlot)
    requires UniqueNames(slots) && k < |slots| && !Live(slots[k]) && Live(s) && s.name !in NameMap(slots)
    ensures UniqueNames(slots[k := s])
    ensures NameMap(slots[k := s]) == NameMap(slots)[s.name := s.ino]
  {
    var after, m := slots[k := s], NameMap(slots)[s.name := s.ino];
    assert forall j {:trigger Live(after[j])} :: 0 <= j < |slots| && j != k ==> Live(after[j]) == Live(slots[j]);
    assert UniqueNames(after);
    forall n | Maps(m, n)
      ensures exists j {:trigger Live(after[j])} ::
        0 <= j < |after| && Live(after[j]) && after[j].name == n && after[j].ino == m[n]
    {
      if n == s.name {
        assert Live(after[k]);
      } else {
        assert Maps(NameMap(slots), n);
        var j :| 0 <= j < |slots| && Live(slots[j]) && slots[j].name == n && slots[j].ino == NameMap(slots)[n];
        assert Live(after[j]);
      }
    }
    NameMapIs(after, m);
  }

  lemma NameMapRemove(slots: seq<DirSlot>, k: nat)
    requires UniqueNames(slots) && k < |slots| && Live(slots[k])
    ensures UniqueNames(slots[k := FREE_SLOT])
    ensures NameMap(slots[k := FREE_SLOT]) == NameMap(slots) - {slots[k].name}
  {
    var after, m := slots[k := FREE_SLOT], NameMap(slots) - {slots[k].name};
    forall j | 0 <= j < |after| && Live(after[j])
      ensures j != k && Live(slots[j]) && after[j] == slots[j] && after[j].name in m
    {
      assert Live(slots[j]) && Live(slots[k]);
    }
    assert UniqueNames(after);
    forall n | Maps(m, n)
      ensures exists j {:trigger Live(after[j])} ::
        0 <= j < |after| && Live(after[j]) && after[j].name == n && after[j].ino == m[n]
    {
      assert Maps(NameMap(slots), n);
      var j :| 0 <= j < |slots| && Live(slots[j]) && slots[j].name == n && slots[j].ino == NameMap(slots)[n];
      assert after[j] == slots[j] && Live(after[j]);
    }
    assert IsNameMap(after, m);
    NameMapIs(after, m);
  }

  lemma NameMapGrow(slots: seq<DirSlot>, n: nat)
    requires UniqueNames(slots)
    ensures UniqueNames(slots + FreeSlots(n))
    ensures NameMap(slots + FreeSlots(n)) == NameMap(slots)
  {
    var after, m := slots + FreeSlots(n), NameMap(slots);
    assert forall j {:trigger Live(after[j])} :: 0 <= j < |after| && Live(after[j]) ==> j < |slots| && Live(slots[j]);
    assert UniqueNames(after);
    forall name | Maps(m, name)
      ensures exists j {:trigger Live(after[j])} ::
        0 <= j < |after| && Live(after[j]) && after[j].name == name && after[j].ino == m[name]
    {
      var j :| 0 <= j < |slots| && Live(slots[j]) && slots[j].name == name && slots[j].ino == m[name];
      assert Live(after[j]);
    }
    NameMapIs(after, m);
  }
}
