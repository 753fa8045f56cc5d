/** NXFS file contents (fs/nxfs.c): range write, range read and truncate, with
    files as byte sequences. */
module NxfsFiles {
  import opened Bitmap
  import opened Extents
  import opened Contents
  import opened NxfsAlloc
  import opened NxfsGrow
  import opened Coverage
  import opened NxfsState
  import opened NxfsTree
  import opened NxfsLayout
  import opened NxfsOps
  import opened NxfsPaths

  /** A step that changes the inode and blocks of one file. */
  lemma FileStep(sup: Super, d: seq<Block>, d': seq<Block>, inodes: seq<Inode>, f: nat, inode: Inode)
    requires Valid(sup, d, inodes) && f < |inodes| && inodes[f].used && inodes[f].kind.File? && inode.used
    requires inode.kind.File?
    requires Store(sup, d', inodes[f := inode]) && OthersSame(d, d', inodes, f)
    ensures Valid(sup, d', inodes[f := inode])
    ensures AbsOf(d', inodes[f := inode]) == AbsOf(d, inodes)[f := NodeOf(d', inode)]
  {
    var v := ViewOf(d, inodes);
    AbsStep(d, d', inodes, f, inode);
    assert Entries(d', inode) == [] == v[f] && v[f := []] == v;
    TreeInode(v, inodes, f, inode, []);
  }

  // ----- truncate -----

  method TruncateInode(vol: Volume, f: nat, inode: Inode) returns (ok: bool, inode': Inode)
    requires Valid(vol.sup, vol.disk, vol.inodes) && f < |vol.inodes| && vol.inodes[f] == inode && inode.used
    modifies vol
    ensures Valid(vol.sup, vol.disk, vol.inodes) && f < |vol.inodes| && vol.inodes[f] == inode'
    ensures ok <==> inode.kind.File?
    ensures Abstract(vol) == if ok then old(Abstract(vol))[f := FileNode([], true)] else old(Abstract(vol))
    ensures Stray(vol) == old(Stray(vol))
    ensures ok ==>
      LayoutOf(vol.sup, vol.disk, vol.inodes) == Emptied(LayoutOf(vol.sup, old(vol.disk), old(vol.inodes)), f)
    ensures !ok ==> vol.disk == old(vol.disk) && vol.inodes == old(vol.inodes)
  {
    if inode.kind != File {
      return false, inode;
    }
    ghost var d0 := vol.disk;
    assert Holds(vol.sup, Bits(vol.sup, vol.disk), Blocks(vol.inodes[f]));
    var _ := FreeAllExtents(vol, inode.extents);
    inode' := inode.(extents := NO_EXTENTS, size := 0);
    PhysEmpty(NO_EXTENTS);
    OwnedDrop(vol.sup, d0, vol.disk, vol.inodes, f, inode');
    assert [] + Phys(inode.extents) == Blocks(inode);
    StraysDrop(vol.sup, d0, vol.disk, Phys(inode.extents), vol.inodes, f, inode');
    FileStep(vol.sup, d0, vol.disk, vol.inodes, f, inode');
    OutlinesUpdate(vol.inodes, f, inode');
    assert Bits(vol.sup, vol.disk) == Without(Bits(vol.sup, d0), Blocks(inode));
    vol.inodes := vol.inodes[f := inode'];
    ok := true;
  }

  /** File `f` has given all its blocks back. */
  ghost function Emptied(l: Layout, f: nat): Layout
    requires f < |l.outs|
  {
    Layout(Without(l.bits, l.outs[f].blocks), l.outs[f := l.outs[f].(blocks := [], slots := EmptySlots(NO_EXTENTS))])
  }

  // ----- range write -----

  /** The part [copyStart, copyStart + chunk) of a request that falls in a block. */
  method BlockWindow(blockStart: nat, dataLimit: nat, offset: nat, requestEnd: nat)
    returns (some: bool, copyStart: nat, chunk: nat)
    ensures some <==> Max(offset, blockStart) < Min(Min(blockStart + 512, dataLimit), requestEnd)
    ensures some ==> copyStart == Max(offset, blockStart)
    ensures some ==> copyStart + chunk == Min(Min(blockStart + 512, dataLimit), requestEnd)
  {
    if offset >= blockStart + 512 || blockStart >= dataLimit {
      return false, 0, 0;
    }
    copyStart := if offset > blockStart then offset else blockStart;
    var copyEnd := blockStart + 512;
    if copyEnd > dataLimit {
      copyEnd := dataLimit;
    }
    if copyEnd > requestEnd {
      copyEnd := requestEnd;
    }
    if copyEnd <= copyStart {
      return false, 0, 0;
    }
    return true, copyStart, copyEnd - copyStart;
  }

  /** Copies the buffer into the blocks of a file, block by block. */
  method WriteBlocks(vol: Volume, es: seq<Extent>, offset: nat, buf: seq<Byte>) returns (done: nat)
    requires Within(Phys(es), 0, |vol.disk|) && NoDup(Phys(es))
    modifies vol`disk
    ensures Patched(old(vol.disk), vol.disk, Phys(es), offset, buf, 512 * |Phys(es)|)
    ensures Confined(old(vol.disk), vol.disk, Phys(es))
    ensures done == Max(0, Min(512 * |Phys(es)|, offset + |buf|) - offset)
  {
    ghost var phys := Phys(es);
    done := 0;
    var end := offset + |buf|;
    var count := BlockCount(es);
    var i := 0;
    while i < count && done < |buf|
      invariant 0 <= i <= count && Within(phys, 0, |vol.disk|)
      invariant Patched(old(vol.disk), vol.disk, phys, offset, buf, 512 * i) && Confined(old(vol.disk), vol.disk, phys)
      invariant done == Max(0, Min(512 * i, end) - offset)
    {
      var at := LogicalToPhysical(es, i);
      var some, copyStart, chunk := BlockWindow(512 * i, end, offset, end);
      var blk := vol.disk[at];
      if some {
        assert done == copyStart - offset;
        blk := Splice(blk, copyStart - 512 * i, buf[done..done + chunk]);
        done := done + chunk;
      }
      PatchStep(old(vol.disk), vol.disk, phys, offset, buf, i, blk);
      if some {
        vol.disk := vol.disk[at := blk];
      } else {
        assert vol.disk[phys[i] := blk] == vol.disk;
      }
      i := i + 1;
    }
    PatchedAll(old(vol.disk), vol.disk, phys, offset, buf, 512 * i, done);
  }

  /** The contents of a tight file after it grew to hold the request and the
      buffer was copied in. */
  lemma WrittenContent(d0: seq<Block>, d1: seq<Block>, d2: seq<Block>, phys: seq<nat>, added: seq<nat>, size: nat,
                       offset: nat, buf: seq<Byte>)
    requires Within(phys, 0, |d0|) && SameOn(d0, d1, phys)
    requires Within(added, 0, |d1|) && forall i :: 0 <= i < |added| ==> d1[added[i]] == ZeroBlock()
    requires Tight(d0, phys, size) && buf != [] && offset + |buf| <= MAX_SIZE
    requires |phys + added| == Max(|phys|, (offset + |buf| + 511) / 512)
    requires Patched(d1, d2, phys + added, offset, buf, 512 * |phys + added|)
    ensures var size' := Max(size, offset + |buf|);
            && Content(d2, phys + added, size') == Overwrite(Content(d0, phys, size), offset, buf)
            && Tight(d2, phys + added, size')
  {
    var all, size' := phys + added, Max(size, offset + |buf|);
    assert size' <= 512 * |all|;
    forall k | 0 <= k < 512 * |all|
      ensures ByteAt(d2, all, k) == if offset <= k < offset + |buf| then buf[k - offset]
        else if k < size then ByteAt(d0, phys, k) else 0
    {
      GrownByte(d0, d1, phys, added, k);
      assert ByteAt(d2, all, k) == if offset <= k < offset + |buf| then buf[k - offset] else ByteAt(d1, all, k);
    }
    var before, after := Content(d0, phys, size), Content(d2, all, size');
    forall k | 0 <= k < size'
      ensures after[k] == Overwrite(before, offset, buf)[k]
    {
      assert after[k] == ByteAt(d2, all, k);
      assert k < size ==> before[k] == ByteAt(d0, phys, k);
    }
  }

  /** Writing only blocks an inode owns leaves ownership and all others alone. */
  lemma WroteOwn(sup: Super, d: seq<Block>, d': seq<Block>, inodes: seq<Inode>, f: nat)
    requires Store(sup, d, inodes) && f < |inodes| && Confined(d, d', Blocks(inodes[f]))
    ensures Store(sup, d', inodes) && OthersSame(d, d', inodes, f) && Bits(sup, d') == Bits(sup, d)
  {
    assert Holds(sup, Bits(sup, d), Blocks(inodes[f]));
    BitsKept(sup, d, d');
    forall i | 0 <= i < |inodes| && i != f
      ensures Within(Blocks(inodes[i]), 0, |d|) && SameOn(d, d', Blocks(inodes[i]))
    {
      assert Holds(sup, Bits(sup, d), Blocks(inodes[i])) && Disjoint(Blocks(inodes[i]), Blocks(inodes[f]));
      assert forall m :: 0 <= m < |Blocks(inodes[i])| ==> Blocks(inodes[i])[m] in Blocks(inodes[i]);
    }
  }

  /** The ownership side of a write: grow, then write own blocks only. */
  lemma WriteKeepsOthers(sup: Super, d0: seq<Block>, d1: seq<Block>, d2: seq<Block>, inodes: seq<Inode>, f: nat,
                         inode: Inode, added: seq<nat>)
    requires Store(sup, d0, inodes) && Took(sup, d0, d1, added) && f < |inodes|
    requires Shaped(inode) && Blocks(inode) == Blocks(inodes[f]) + added && Confined(d1, d2, Blocks(inode))
    ensures Store(sup, d2, inodes[f := inode]) && OthersSame(d0, d2, inodes, f)
    ensures Strays(sup, d2, inodes[f := inode]) == Strays(sup, d0, inodes) && Bits(sup, d2) == Bits(sup, d1)
    ensures Within(Blocks(inodes[f]), 0, |d0|) && SameOn(d0, d1, Blocks(inodes[f]))
  {
    OwnedGrow(sup, d0, d1, added, inodes, f, inode);
    TookUndisturbed(sup, d0, d1, added, inodes);
    var grown := inodes[f := inode];
    WroteOwn(sup, d1, d2, grown, f);
    StraysGrow(sup, d0, d1, added, inodes, f, inode);
    forall i | 0 <= i < |inodes| && i != f
      ensures Within(Blocks(inodes[i]), 0, |d0|) && SameOn(d0, d2, Blocks(inodes[i]))
    {
      assert Blocks(grown[i]) == Blocks(inodes[i]);
    }
  }

  /** What a successful write of a non-empty buffer to file `f` does. */
  ghost predicate Wrote(a: Abs, a': Abs, f: nat, offset: nat, buf: seq<Byte>) {
    && IsFileNode(a, f) && IsFileNode(a', f) && a' == a[f := a'[f]]
    && (a[f].tight && offset + |buf| <= MAX_SIZE ==> a'[f] == FileNode(Overwrite(a[f].data, offset, buf), true))
  }

  /** How many blocks a file of `end` bytes is given; rounding up overflows 32 bits
      past the largest size. */
  ghost function Wanted(end: nat): nat {
    if end <= MAX_SIZE then (end + 511) / 512 else 0
  }

  /** A write succeeds: the file can grow to hold it. */
  ghost predicate WriteFits(sup: Super, d: seq<Block>, inode: Inode, offset: nat, n: nat) {
    && OnDisk(sup, d) && inode.kind.File?
    && (n == 0 || (offset + n < 0x1_0000_0000 && CanGrow(Bits(sup, d), sup.dataStart, inode.extents,
                                                         Wanted(offset + n))))
  }

  /** It fails and leaves blocks marked that nobody owns. */
  ghost predicate WriteSpills(sup: Super, d: seq<Block>, inode: Inode, offset: nat, n: nat) {
    && OnDisk(sup, d) && inode.kind.File? && n > 0 && offset + n < 0x1_0000_0000
    && !CanGrow(Bits(sup, d), sup.dataStart, inode.extents, Wanted(offset + n))
    && TakesSome(sup, Bits(sup, d), inode.extents)
  }

  /** Where things are after a write: only the file has more blocks, the ones growing
      to the size wanted takes; they stay marked if there were not enough. */
  ghost predicate WriteLaid(sup: Super, l: Layout, f: nat, offset: nat, n: nat, ok: bool, l': Layout)
    requires f < |l.outs|
  {
    var o := l.outs[f];
    if !o.kind.File? || n == 0 || offset + n >= 0x1_0000_0000 then l' == l
    else exists g {:trigger Grew(sup, Wanted(offset + n), Growing(l.bits, o), ok, g)} ::
      && Grew(sup, Wanted(offset + n), Growing(l.bits, o), ok, g) && l'.bits == g.bits
      && l'.outs == if ok then l.outs[f := o.(blocks := g.phys, slots := g.slots)] else l.outs
  }

  lemma WriteLaidOnce(sup: Super, l: Layout, f: nat, offset: nat, n: nat, ok: bool, l': Layout, ok2: bool, l2: Layout)
    requires f < |l.outs| && l.outs[f].kind.File? && 0 < n && offset + n < 0x1_0000_0000
    requires WriteLaid(sup, l, f, offset, n, ok, l') && WriteLaid(sup, l, f, offset, n, ok2, l2)
    ensures ok2 == ok && l2 == l'
  {
    var o := l.outs[f];
    var g :| Grew(sup, Wanted(offset + n), Growing(l.bits, o), ok, g) && l'.bits == g.bits
      && l'.outs == if ok then l.outs[f := o.(blocks := g.phys, slots := g.slots)] else l.outs;
    var g2 :| Grew(sup, Wanted(offset + n), Growing(l.bits, o), ok2, g2) && l2.bits == g2.bits
      && l2.outs == if ok2 then l.outs[f := o.(blocks := g2.phys, slots := g2.slots)] else l.outs;
    GrewOnce(sup, Wanted(offset + n), Growing(l.bits, o), ok, g, ok2, g2);
  }

  /** Writes a buffer at an offset of a file. */
  method WriteFileRange(vol: Volume, f: nat, inode: Inode, offset: nat, buf: seq<Byte>)
    returns (ok: bool, inode': Inode, written: nat)
    requires Valid(vol.sup, vol.disk, vol.inodes) && f < |vol.inodes| && vol.inodes[f] == inode && inode.used
    requires offset < 0x1_0000_0000 && |buf| < 0x1_0000_0000
    modifies vol
    ensures Valid(vol.sup, vol.disk, vol.inodes) && f < |vol.inodes| && vol.inodes[f] == inode'
    ensures !ok || buf == [] ==> inode' == inode && Abstract(vol) == old(Abstract(vol))
    ensures ok <==> old(WriteFits(vol.sup, vol.disk, inode, offset, |buf|))
    ensures Spilled(old(Stray(vol)), Stray(vol), old(WriteSpills(vol.sup, vol.disk, inode, offset, |buf|)))
    ensures ok && buf != [] ==> Wrote(old(Abstract(vol)), Abstract(vol), f, offset, buf)
    ensures ok ==> (written == |buf| <==> buf == [] || offset + |buf| <= MAX_SIZE)
    ensures WriteLaid(vol.sup, LayoutOf(vol.sup, old(vol.disk), old(vol.inodes)), f, offset, |buf|, ok,
                      LayoutOf(vol.sup, vol.disk, vol.inodes))
  {
    inode', written := inode, 0;
    if inode.kind != File {
      return false, inode, 0;
    }
    if buf == [] {
      return true, inode, 0;
    }
    var end := offset + |buf|;
    if end >= 0x1_0000_0000 {
      return false, inode, 0;
    }
    ok, inode', written := GrowAndWrite(vol, f, inode, offset, buf);
  }

  /** The number of blocks for `end` bytes. */
  method BlocksFor(end: nat) returns (blocks: nat)
    requires end < 0x1_0000_0000
    ensures blocks == Wanted(end)
  {
    blocks := (end + 511) % 0x1_0000_0000 / 512;
  }

  /** Grows the file to hold the request and copies the buffer in. */
  method GrowAndWrite(vol: Volume, f: nat, inode: Inode, offset: nat, buf: seq<Byte>)
    returns (ok: bool, inode': Inode, written: nat)
    requires Valid(vol.sup, vol.disk, vol.inodes) && f < |vol.inodes| && vol.inodes[f] == inode && inode.used
    requires inode.kind.File?
    requires buf != [] && offset + |buf| < 0x1_0000_0000
    modifies vol
    ensures Valid(vol.sup, vol.disk, vol.inodes) && f < |vol.inodes| && vol.inodes[f] == inode'
    ensures !ok ==> inode' == inode && Abstract(vol) == old(Abstract(vol))
    ensures ok <==> old(WriteFits(vol.sup, vol.disk, inode, offset, |buf|))
    ensures Spilled(old(Stray(vol)), Stray(vol), old(WriteSpills(vol.sup, vol.disk, inode, offset, |buf|)))
    ensures ok ==> Wrote(old(Abstract(vol)), Abstract(vol), f, offset, buf)
    ensures ok ==> (written == |buf| <==> offset + |buf| <= MAX_SIZE)
    ensures WriteLaid(vol.sup, LayoutOf(vol.sup, old(vol.disk), old(vol.inodes)), f, offset, |buf|, ok,
                      LayoutOf(vol.sup, vol.disk, vol.inodes))
  {
    inode', written := inode, 0;
    var end := offset + |buf|;
    var need := BlocksFor(end);
    var grown, es, added, left := GrowInode(vol, f, inode, need);
    if !grown {
      WroteLaid(vol.sup, old(vol.disk), vol.inodes, f, inode, offset, |buf|, false, vol.disk,
                Blocks(inode) + added, left);
      assert vol.inodes[f := inode] == vol.inodes;
      return false, inode, 0;
    }
    ghost var d0, d1 := old(vol.disk), vol.disk;
    inode' := inode.(extents := es, size := Max(inode.size, end));
    written := WriteBlocks(vol, es, offset, buf);
    WriteApplied(vol.sup, d0, d1, vol.disk, vol.inodes, f, inode', added, offset, buf);
    WroteLaid(vol.sup, d0, vol.inodes, f, inode', offset, |buf|, true, vol.disk, Blocks(inode'), left);
    vol.inodes := vol.inodes[f := inode'];
    ok := true;
  }

  lemma WroteLaid(sup: Super, d: seq<Block>, inodes: seq<Inode>, f: nat, inode: Inode, offset: nat, n: nat, ok: bool,
                  d': seq<Block>, phys: seq<nat>, left: nat)
    requires n > 0 && offset + n < 0x1_0000_0000
    requires OnDisk(sup, d) && OnDisk(sup, d') && f < |inodes| && inodes[f].used && inodes[f].kind.File?
    requires Grew(sup, Wanted(offset + n), At(sup, d, inodes[f].extents), ok, Growth(Bits(sup, d'), phys, left))
    requires if ok then OutlineOf(inode) == Outline(true, File, phys, left) else inode == inodes[f]
    ensures WriteLaid(sup, LayoutOf(sup, d, inodes), f, offset, n, ok, LayoutOf(sup, d', inodes[f := inode]))
  {
    OutlinesUpdate(inodes, f, inode);
    assert !ok ==> inodes[f := inode] == inodes;
    assert At(sup, d, inodes[f].extents) == Growing(Bits(sup, d), OutlineOf(inodes[f]));
    assert Growth(Bits(sup, d'), phys, left).bits == Bits(sup, d');
  }

  /** More blocks for a file; its inode is not written yet. */
  method GrowInode(vol: Volume, f: nat, inode: Inode, need: nat)
    returns (ok: bool, es: seq<Extent>, ghost added: seq<nat>, ghost left: nat)
    requires Valid(vol.sup, vol.disk, vol.inodes) && f < |vol.inodes| && vol.inodes[f] == inode && inode.used
    requires inode.kind.File?
    requires need <= 0x7F_FFFF
    modifies vol`disk
    ensures ok <==> CanGrow(Bits(vol.sup, old(vol.disk)), vol.sup.dataStart, inode.extents, need)
    ensures OnDisk(vol.sup, vol.disk)
    ensures Grew(vol.sup, need, At(vol.sup, old(vol.disk), inode.extents), ok,
                 Growth(Bits(vol.sup, vol.disk), Blocks(inode) + added, left))
    ensures ok ==> left == EmptySlots(es)
    ensures !ok ==> Valid(vol.sup, vol.disk, vol.inodes) && Abstract(vol) == old(Abstract(vol))
    ensures !ok ==>
      Spilled(old(Stray(vol)), Stray(vol), TakesSome(vol.sup, Bits(vol.sup, old(vol.disk)), inode.extents))
    ensures ok ==> Took(vol.sup, old(vol.disk), vol.disk, added) && Shaped(inode.(extents := es))
    ensures ok ==> Phys(es) == Blocks(inode) + added
    ensures ok ==> |Phys(es)| == Max(|Blocks(inode)|, need) && Within(Phys(es), 0, |vol.disk|) && NoDup(Phys(es))
  {
    ghost var d0 := vol.disk;
    assert Shaped(vol.inodes[f]) && Holds(vol.sup, Bits(vol.sup, vol.disk), Blocks(vol.inodes[f]));
    HoldsAnchored(vol.sup, Bits(vol.sup, vol.disk), inode.extents);
    ok, es, added, left := EnsureBlocks(vol, inode.extents, need);
    if ok {
      var inode' := inode.(extents := es);
      OwnedGrow(vol.sup, d0, vol.disk, added, vol.inodes, f, inode');
      assert Holds(vol.sup, Bits(vol.sup, vol.disk), Blocks(vol.inodes[f := inode'][f]));
    } else {
      TookUndisturbed(vol.sup, d0, vol.disk, added, vol.inodes);
      AbsKept(d0, vol.disk, vol.inodes);
      StraysMore(vol.sup, d0, vol.disk, added, vol.inodes);
    }
  }

  /** What growing a file and copying the buffer into it amounts to. */
  lemma WriteApplied(sup: Super, d0: seq<Block>, d1: seq<Block>, d2: seq<Block>, inodes: seq<Inode>, f: nat,
                     inode: Inode, added: seq<nat>, offset: nat, buf: seq<Byte>)
    requires Valid(sup, d0, inodes) && f < |inodes| && inodes[f].used && inodes[f].kind.File? && inode.used
    requires inode.kind.File?
    requires Took(sup, d0, d1, added) && Shaped(inode) && Blocks(inode) == Blocks(inodes[f]) + added && buf != []
    requires inode.size == Max(inodes[f].size, offset + |buf|)
    requires offset + |buf| <= MAX_SIZE ==> |Blocks(inode)| == Max(|Blocks(inodes[f])|, (offset + |buf| + 511) / 512)
    requires Patched(d1, d2, Blocks(inode), offset, buf, 512 * |Blocks(inode)|) && Confined(d1, d2, Blocks(inode))
    ensures Valid(sup, d2, inodes[f := inode])
    ensures Wrote(AbsOf(d0, inodes), AbsOf(d2, inodes[f := inode]), f, offset, buf)
    ensures Strays(sup, d2, inodes[f := inode]) == Strays(sup, d0, inodes) && Bits(sup, d2) == Bits(sup, d1)
  {
    WriteKeepsOthers(sup, d0, d1, d2, inodes, f, inode, added);
    FileStep(sup, d0, d2, inodes, f, inode);
    WriteIsWrote(sup, d0, d1, d2, inodes, f, inode, added, offset, buf);
  }

  lemma WriteIsWrote(sup: Super, d0: seq<Block>, d1: seq<Block>, d2: seq<Block>, inodes: seq<Inode>, f: nat,
                     inode: Inode, added: seq<nat>, offset: nat, buf: seq<Byte>)
    requires f < |inodes| && inodes[f].used && inodes[f].kind.File? && inode.used && inode.kind.File?
    requires AbsOf(d2, inodes[f := inode]) == AbsOf(d0, inodes)[f := NodeOf(d2, inode)]
    requires Took(sup, d0, d1, added) && Blocks(inode) == Blocks(inodes[f]) + added && buf != []
    requires Within(Blocks(inodes[f]), 0, |d0|) && SameOn(d0, d1, Blocks(inodes[f]))
    requires inode.size == Max(inodes[f].size, offset + |buf|)
    requires offset + |buf| <= MAX_SIZE ==> |Blocks(inode)| == Max(|Blocks(inodes[f])|, (offset + |buf| + 511) / 512)
    requires Patched(d1, d2, Blocks(inode), offset, buf, 512 * |Blocks(inode)|)
    ensures Wrote(AbsOf(d0, inodes), AbsOf(d2, inodes[f := inode]), f, offset, buf)
  {
    AbstractAt(d0, inodes, f);
    AbstractAt(d2, inodes[f := inode], f);
    if Tight(d0, Blocks(inodes[f]), inodes[f].size) && offset + |buf| <= MAX_SIZE {
      forall i | 0 <= i < |added|
        ensures 0 <= added[i] < |d1| && d1[added[i]] == ZeroBlock()
      {
        assert added[i] in added;
      }
      WrittenContent(d0, d1, d2, Blocks(inodes[f]), added, inodes[f].size, offset, buf);
    }
  }

  // ----- range read -----

  /** Reads `count` consecutive blocks. */
  method ReadBlocks(vol: Volume, start: nat, count: nat) returns (out: seq<Byte>)
    requires start + count <= |vol.disk|
    ensures |out| == 512 * count
    ensures forall j :: 0 <= j < |out| ==> out[j] == vol.disk[start + j / 512][j % 512]
  {
    out := [];
    for i := 0 to count
      invariant |out| == 512 * i
      invariant forall j :: 0 <= j < |out| ==> out[j] == vol.disk[start + j / 512][j % 512]
    {
      out := out + vol.disk[start + i];
    }
  }

  /** How many whole blocks from logical block `i` on can be read at once: they are
      consecutive on disk, all inside the request, and no more than 128. */
  method RunLength(es: seq<Extent>, i: nat, lastBlock: nat, offset: nat, requestEnd: nat, size: nat, done: nat, n: nat)
    returns (run: nat)
    requires i < lastBlock <= |Phys(es)| && offset <= 512 * i && 512 * i + 512 <= requestEnd <= size
    ensures 1 <= run <= 128 && Contiguous(Phys(es), i, run) && i + run <= lastBlock && 512 * (i + run) <= requestEnd
  {
    run := 1;
    var prev := LogicalToPhysical(es, i);
    while i + run < lastBlock && run < 128 && done + run * 512 < n
      invariant 1 <= run <= 128 && Contiguous(Phys(es), i, run) && i + run <= lastBlock && 512 * (i + run) <= requestEnd
      invariant prev == Phys(es)[i] + run - 1
    {
      var next := LogicalToPhysical(es, i + run);
      if next != prev + 1 {
        break;
      }
      var start := 512 * (i + run);
      var some, copyStart, chunk := BlockWindow(start, size, offset, requestEnd);
      if !some || copyStart != start || chunk != 512 {
        break;
      }
      prev := next;
      run := run + 1;
    }
  }

  /** Reads the part of a request that starts in logical block `i`: a run of whole
      blocks, or part of one block. */
  method ReadStep(vol: Volume, es: seq<Extent>, i: nat, lastBlock: nat, offset: nat, requestEnd: nat, size: nat,
                  done: nat, n: nat)
    returns (more: seq<Byte>, next: nat)
    requires Within(Phys(es), 0, |vol.disk|)
    requires i < lastBlock <= |Phys(es)| && offset < 512 * i + 512 && 512 * i < requestEnd <= size
    requires offset < requestEnd
    ensures i < next <= lastBlock
    ensures Fetched(vol.disk, Phys(es), Max(offset, 512 * i), more)
    ensures Max(offset, 512 * i) + |more| == Min(512 * next, requestEnd)
  {
    var phys := LogicalToPhysical(es, i);
    var some, copyStart, chunk := BlockWindow(512 * i, size, offset, requestEnd);
    if copyStart == 512 * i && chunk == 512 {
      var run := RunLength(es, i, lastBlock, offset, requestEnd, size, done, n);
      assert Phys(es)[i + run - 1] == phys + run - 1;
      more := ReadBlocks(vol, phys, run);
      RunFetched(vol.disk, Phys(es), i, run, more);
      next := i + run;
    } else {
      more := vol.disk[phys][copyStart - 512 * i..copyStart - 512 * i + chunk];
      PartFetched(vol.disk, Phys(es), i, copyStart, more);
      next := i + 1;
    }
  }

  /** Reads at most `n` bytes at an offset of a file. */
  method ReadFileRange(vol: Volume, inode: Inode, offset: nat, n: nat) returns (ok: bool, out: seq<Byte>)
    requires inode.used && Within(Blocks(inode), 0, |vol.disk|)
    requires offset < 0x1_0000_0000 && n < 0x1_0000_0000 && inode.size < 0x1_0000_0000
    ensures ok <==> inode.kind.File? && offset <= inode.size
    ensures ok && Tight(vol.disk, Blocks(inode), inode.size) ==>
      out == Content(vol.disk, Blocks(inode), inode.size)[offset..Min(inode.size, offset + n)]
  {
    out := [];
    if inode.kind != File || offset > inode.size {
      return false, [];
    }
    if n == 0 || offset == inode.size {
      return true, [];
    }
    var blocks := BlockCount(inode.extents);
    var requestEnd := if n > inode.size - offset then inode.size else offset + n;
    var lastBlock := BlocksFor(requestEnd);
    if lastBlock > blocks {
      lastBlock := blocks;
    }
    out := ReadRuns(vol, inode.extents, offset, requestEnd, lastBlock, inode.size, n);
    if Tight(vol.disk, Blocks(inode), inode.size) {
      ReadWhole(vol.disk, Blocks(inode), inode.size, offset, requestEnd, out);
    }
    return true, out;
  }

  /** Reads run after run up to `lastBlock` or the end of the request. */
  method ReadRuns(vol: Volume, es: seq<Extent>, offset: nat, requestEnd: nat, lastBlock: nat, size: nat, n: nat)
    returns (out: seq<Byte>)
    requires Within(Phys(es), 0, |vol.disk|) && lastBlock <= |Phys(es)|
    requires offset < requestEnd <= size && requestEnd <= offset + n && lastBlock <= (requestEnd + 511) / 512
    ensures Fetched(vol.disk, Phys(es), offset, out) && offset + |out| == Max(offset, Min(512 * lastBlock, requestEnd))
  {
    out := [];
    var i := offset / 512;
    while i < lastBlock && |out| < n
      invariant Fetched(vol.disk, Phys(es), offset, out) && offset + |out| == Max(offset, Min(512 * i, requestEnd))
      invariant offset / 512 <= i && (i <= lastBlock || i == offset / 512)
      decreases lastBlock - i
    {
      var more, next := ReadStep(vol, es, i, lastBlock, offset, requestEnd, size, |out|, n);
      FetchedMore(vol.disk, Phys(es), offset, out, more);
      out, i := out + more, next;
    }
  }
}
