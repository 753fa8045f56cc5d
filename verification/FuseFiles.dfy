/** File contents in the FUSE implementation of NXFS (NXFS/nxfs.c): write and
    truncate, with files as byte sequences and the bitmap accounted for. */
module FuseFiles {
  import opened Bitmap
  import opened Extents
  import opened Contents
  import opened NxfsAlloc
  import opened NxfsGrow
  import opened NxfsDir
  import opened NxfsState
  import opened NxfsTree
  import opened NxfsOps
  import opened NxfsPaths
  import opened NxfsFiles
  import FuseAlloc
  import opened FuseLayout
  import opened FuseOps

  // ----- 64-bit offsets, 32-bit block counts -----

  const TWO_32 := 0x1_0000_0000
  const TWO_41 := 0x200_0000_0000
  const TWO_63 := 0x8000_0000_0000_0000
  const TWO_64 := 0x1_0000_0000_0000_0000

  /** The largest end whose number of blocks fits 32 bits. */
  const LAST_END := 0x1FF_FFFF_FE00

  /** The number of blocks for `end` bytes: a 64-bit sum, cast to 32 bits. */
  function Need(end: nat): (n: nat)
    ensures n < TWO_32
  {
    (end % TWO_64 + 511) % TWO_64 / 512 % TWO_32
  }

  lemma NeedBelow(end: nat)
    requires end <= LAST_END
    ensures Need(end) == (end + 511) / 512
  {}

  lemma NeedSmall(size: nat)
    requires size <= TWO_63
    ensures Need(size) == (size + 511) / 512 % TWO_32
  {}

  lemma BlocksOf(q: nat, r: nat)
    ensures (TWO_41 * q + r + 511) / 512 == TWO_32 * q + (r + 511) / 512
  {
    assert r + 511 == 512 * ((r + 511) / 512) + (r + 511) % 512;
  }

  lemma RestOf(q: nat, x: nat)
    ensures (TWO_32 * q + x) % TWO_32 == x % TWO_32
  {}

  lemma NeedOf(q: nat, r: nat)
    requires r < TWO_41
    ensures (TWO_41 * q + r + 511) / 512 % TWO_32 == if r <= LAST_END then (r + 511) / 512 else 0
  {
    BlocksOf(q, r);
    RestOf(q, (r + 511) / 512);
  }

  /** As far as the cast goes, only the remainder modulo 2 to the 41 matters. */
  lemma NeedWraps(size: nat)
    requires size <= TWO_63 - 512
    ensures var r := size % TWO_41; Need(size) == if r <= LAST_END then (r + 511) / 512 else 0
    ensures size % TWO_41 % TWO_32 == size % TWO_32 && size % TWO_41 % 512 == size % 512
  {
    NeedSmall(size);
    NeedOf(size / TWO_41, size % TWO_41);
    SizeWraps(size);
  }

  lemma SizeWraps(size: nat)
    ensures size % TWO_41 % TWO_32 == size % TWO_32 && size % TWO_41 % 512 == size % 512
  {
    var q, r := size / TWO_41, size % TWO_41;
    assert size == TWO_32 * (512 * q) + r;
    RestOf(512 * q, r);
  }

  // ----- pigeonhole -----

  /** Distinct blocks of a volume are no more than the volume has. */
  lemma {:induction false} DistinctBound(s: seq<nat>, n: nat)
    requires NoDup(s) && Within(s, 0, n)
    ensures |s| <= n
  {
    if s != [] {
      assert 0 <= s[0] < n;
      if k :| 0 <= k < |s| && s[k] == n - 1 {
        var t := s[..k] + s[k + 1..];
        assert forall i, j {:trigger Differ(t[i], t[j])} :: 0 <= i < j < |t| ==>
          Differ(s[if i < k then i else i + 1], s[if j < k then j else j + 1]);
        forall i | 0 <= i < |t| ensures 0 <= t[i] < n - 1 {
          assert if i < k then Differ(s[i], s[k]) else Differ(s[k], s[i + 1]);
        }
        DistinctBound(t, n - 1);
      } else {
        DistinctBound(s, n - 1);
      }
    }
  }

  // ----- write -----

  /** Growing a file gives it no more blocks than the volume has. */
  lemma GrownFits(sup: Super, d0: seq<Block>, d1: seq<Block>, inodes: seq<Inode>, f: nat, es: seq<Extent>,
                  added: seq<nat>)
    requires Store(sup, d0, inodes) && FuseAlloc.Small(sup) && f < |inodes| && inodes[f].used && inodes[f].kind.File?
    requires Took(sup, d0, d1, added) && Packed(es) && Phys(es) == Blocks(inodes[f]) + added
    ensures |Phys(es)| <= 4096 && Shaped(inodes[f].(extents := es))
  {
    TookUndisturbed(sup, d0, d1, added, inodes);
    var blocks := Blocks(inodes[f]);
    assert Shaped(inodes[f]) && Holds(sup, Bits(sup, d0), blocks);
    NoDupConcat(blocks, added);
    forall k | 0 <= k < |Phys(es)| ensures 0 <= Phys(es)[k] < sup.totalBlocks {
      if k >= |blocks| {
        assert Phys(es)[k] in added;
      }
    }
    DistinctBound(Phys(es), sup.totalBlocks);
  }

  /** `f` is a file that can be made to hold `size` bytes. */
  ghost predicate SizeFits(sup: Super, d: seq<Block>, inodes: seq<Inode>, f: int, size: nat) {
    && OnDisk(sup, d) && 0 <= f < |inodes| && inodes[f].used && inodes[f].kind.File?
    && FuseAlloc.Fits(sup, Bits(sup, d), inodes[f].extents, Need(size))
  }

  /** What a successful write of a non-empty buffer to file `f` does: what was wanted,
      exactly if it ends at or below the largest end. */
  ghost predicate Stored(a: Abs, a': Abs, f: nat, offset: nat, buf: seq<Byte>) {
    && IsFileNode(a, f) && IsFileNode(a', f) && a' == a[f := a'[f]]
    && (a[f].tight ==> (a'[f] == FileNode(Overwrite(a[f].data, offset, buf), true) <==> offset + |buf| <= LAST_END))
  }

  /** Which extents a write leads to: those of growing the file to the blocks needed. */
  ghost predicate WriteSketched(sup: Super, bits: seq<bool>, l: seq<Sketch>, f: nat, end: nat, l': seq<Sketch>) {
    f < |l| && exists g {:trigger FuseAlloc.Filled(sup, Need(end), FuseAlloc.Filling(bits, l[f].es), g)} ::
      FuseAlloc.Filled(sup, Need(end), FuseAlloc.Filling(bits, l[f].es), g) && l' == l[f := l[f].(es := g.es)]
  }

  lemma WriteSketchedOnce(sup: Super, bits: seq<bool>, l: seq<Sketch>, f: nat, end: nat, l': seq<Sketch>,
                          l2: seq<Sketch>)
    requires WriteSketched(sup, bits, l, f, end, l') && WriteSketched(sup, bits, l, f, end, l2)
    ensures l2 == l'
  {
    var a := FuseAlloc.Filling(bits, l[f].es);
    var g :| FuseAlloc.Filled(sup, Need(end), a, g) && l' == l[f := l[f].(es := g.es)];
    var g2 :| FuseAlloc.Filled(sup, Need(end), a, g2) && l2 == l[f := l[f].(es := g2.es)];
    FuseAlloc.FilledOnce(sup, Need(end), a, g, g2);
  }

  /** Writes a buffer at an offset of the file a path names. */
  method WriteFile(vol: Volume, path: seq<Name>, offset: nat, buf: seq<Byte>) returns (ok: bool)
    requires Intact(vol.sup, vol.disk, vol.inodes) && IsPath(path) && offset < TWO_63 && |buf| < TWO_64
    modifies vol
    ensures Intact(vol.sup, vol.disk, vol.inodes)
    ensures !ok || buf == [] ==> Abstract(vol) == old(Abstract(vol)) && vol.inodes == old(vol.inodes)
    ensures ok && buf != [] ==> Walk(old(Abstract(vol)), 0, path) >= 0
    ensures ok && buf != [] ==>
      Stored(old(Abstract(vol)), Abstract(vol), Walk(old(Abstract(vol)), 0, path), offset, buf)
    ensures ok <==>
      old(buf == [] || SizeFits(vol.sup, vol.disk, vol.inodes, Walk(Abstract(vol), 0, path), offset + |buf|))
    ensures ok && buf != [] ==>
      WriteSketched(vol.sup, Bits(vol.sup, old(vol.disk)), Sketches(old(vol.inodes)),
                    Walk(old(Abstract(vol)), 0, path), offset + |buf|, Sketches(vol.inodes))
  {
    if buf == [] {
      return true;
    }
    var f := LookupPath(vol, path);
    AbstractAt(vol.disk, vol.inodes, f);
    assert f >= 0 ==> Shaped(vol.inodes[f]);
    if f < 0 || vol.inodes[f].kind != File {
      return false;
    }
    ok := WriteInode(vol, f, offset, buf);
  }

  method WriteInode(vol: Volume, f: nat, offset: nat, buf: seq<Byte>) returns (ok: bool)
    requires Intact(vol.sup, vol.disk, vol.inodes) && offset < TWO_63 && |buf| < TWO_64 && buf != []
    requires f < |vol.inodes| && vol.inodes[f].used && vol.inodes[f].kind.File?
    modifies vol
    ensures Intact(vol.sup, vol.disk, vol.inodes)
    ensures !ok ==> Abstract(vol) == old(Abstract(vol)) && vol.inodes == old(vol.inodes)
    ensures ok <==>
      old(FuseAlloc.Fits(vol.sup, Bits(vol.sup, vol.disk), vol.inodes[f].extents, Need(offset + |buf|)))
    ensures ok ==> Stored(old(Abstract(vol)), Abstract(vol), f, offset, buf)
    ensures ok ==> WriteSketched(vol.sup, Bits(vol.sup, old(vol.disk)), Sketches(old(vol.inodes)), f, offset + |buf|,
                                 Sketches(vol.inodes))
  {
    var inode, end := vol.inodes[f], (offset + |buf|) % TWO_64;
    var need := Need(offset + |buf|);
    assert Shaped(vol.inodes[f]) && Holds(vol.sup, Bits(vol.sup, vol.disk), Blocks(vol.inodes[f]));
    ghost var d0 := vol.disk;
    var grown, es, added := FuseAlloc.EnsureBlocks(vol, inode.extents, need);
    ghost var d1 := vol.disk;
    if !grown {
      RolledBackKeeps(vol.sup, d0, d1, vol.inodes);
      AbsKept(d0, d1, vol.inodes);
      return false;
    }
    GrownFits(vol.sup, d0, d1, vol.inodes, f, es, added);
    var inode' := inode.(extents := es, size := if end > inode.size then end % TWO_32 else inode.size);
    OwnedGrow(vol.sup, d0, d1, added, vol.inodes, f, inode');
    assert Holds(vol.sup, Bits(vol.sup, d1), Blocks(vol.inodes[f := inode'][f]));
    var written := WriteBlocks(vol, es, offset, buf);
    WriteStored(vol.sup, d0, d1, vol.disk, vol.inodes, f, inode', added, offset, buf);
    Sketched(vol.sup, vol.inodes, f, inode', offset + |buf|, Bits(vol.sup, d0), Bits(vol.sup, d1));
    vol.inodes := vol.inodes[f := inode'];
    ok := true;
  }

  lemma Sketched(sup: Super, inodes: seq<Inode>, f: nat, inode: Inode, end: nat, bits: seq<bool>, bits': seq<bool>)
    requires f < |inodes| && inodes[f].used && inode.used && inode.kind == inodes[f].kind
    requires FuseAlloc.Filled(sup, Need(end), FuseAlloc.Filling(bits, inodes[f].extents),
                              FuseAlloc.Filling(bits', inode.extents))
    ensures WriteSketched(sup, bits, Sketches(inodes), f, end, Sketches(inodes[f := inode]))
  {
    var l := Sketches(inodes);
    SketchesUpdate(inodes, f, inode);
    assert l[f].es == inodes[f].extents && l[f].(es := inode.extents) == SketchOf(inode);
    assert FuseAlloc.Filling(bits', inode.extents).es == inode.extents;
  }

  /** Growing a file and copying the buffer into its blocks, whatever size is recorded,
      keeps ownership and the account of the bitmap; what the file then holds is right
      exactly if the end was not too large. */
  lemma WriteStored(sup: Super, d0: seq<Block>, d1: seq<Block>, d2: seq<Block>, inodes: seq<Inode>, f: nat,
                    inode: Inode, added: seq<nat>, offset: nat, buf: seq<Byte>)
    requires Intact(sup, d0, inodes) && f < |inodes| && inodes[f].used && inodes[f].kind.File?
    requires Took(sup, d0, d1, added) && buf != [] && Shaped(inode) && |Blocks(inode)| <= 4096
    requires inode == inodes[f].(extents := inode.extents, size := inode.size)
    requires Blocks(inode) == Blocks(inodes[f]) + added
    requires |Blocks(inode)| == Max(|Blocks(inodes[f])|, Need(offset + |buf|))
    requires SizeRecorded(inodes[f].size, offset + |buf|, inode.size)
    requires Patched(d1, d2, Blocks(inode), offset, buf, 512 * |Blocks(inode)|) && Confined(d1, d2, Blocks(inode))
    ensures Intact(sup, d2, inodes[f := inode])
    ensures Stored(AbsOf(d0, inodes), AbsOf(d2, inodes[f := inode]), f, offset, buf)
  {
    WriteKeepsOthers(sup, d0, d1, d2, inodes, f, inode, added);
    OwnedGrow(sup, d0, d1, added, inodes, f, inode);
    ConservedGrow(sup, d0, d1, added, inodes, f, inode);
    FileStep(sup, d0, d2, inodes, f, inode);
    WroteConserved(sup, d1, d2, inodes[f := inode], f);
    StoredRight(sup, d0, d1, d2, inodes, f, inode, added, offset, buf);
  }

  lemma StoredRight(sup: Super, d0: seq<Block>, d1: seq<Block>, d2: seq<Block>, inodes: seq<Inode>, f: nat,
                    inode: Inode, added: seq<nat>, offset: nat, buf: seq<Byte>)
    requires f < |inodes| && inodes[f].used && inodes[f].kind.File? && inode.used && inode.kind.File?
    requires AbsOf(d2, inodes[f := inode]) == AbsOf(d0, inodes)[f := NodeOf(d2, inode)]
    requires Took(sup, d0, d1, added) && Blocks(inode) == Blocks(inodes[f]) + added && buf != []
    requires Within(Blocks(inodes[f]), 0, |d0|) && SameOn(d0, d1, Blocks(inodes[f]))
    requires |Blocks(inode)| == Max(|Blocks(inodes[f])|, Need(offset + |buf|)) <= 4096
    requires SizeRecorded(inodes[f].size, offset + |buf|, inode.size)
    requires Patched(d1, d2, Blocks(inode), offset, buf, 512 * |Blocks(inode)|)
    ensures Stored(AbsOf(d0, inodes), AbsOf(d2, inodes[f := inode]), f, offset, buf)
  {
    AbstractAt(d0, inodes, f);
    AbstractAt(d2, inodes[f := inode], f);
    if Tight(d0, Blocks(inodes[f]), inodes[f].size) {
      if offset + |buf| <= LAST_END {
        NeedBelow(offset + |buf|);
        RecordedBelow(inodes[f].size, offset + |buf|, inode.size);
        WriteIsWrote(sup, d0, d1, d2, inodes, f, inode, added, offset, buf);
      } else {
        assert inode.size < TWO_32;
      }
    }
  }

  lemma RecordedBelow(size: nat, end: nat, size': nat)
    requires SizeRecorded(size, end, size') && end <= 4096 * 512
    ensures size' == Max(size, end)
  {}

  /** The size written to the inode: 32 bits of the end, if that was more than the size. */
  ghost predicate SizeRecorded(size: nat, end: nat, size': nat) {
    size' == if end % TWO_64 > size then end % TWO_64 % TWO_32 else size
  }

  /** Writing an inode's own blocks leaves the bitmap alone. */
  lemma WroteConserved(sup: Super, d: seq<Block>, d': seq<Block>, inodes: seq<Inode>, f: nat)
    requires Store(sup, d, inodes) && Conserved(sup, d, inodes) && f < |inodes| && Confined(d, d', Blocks(inodes[f]))
    ensures Conserved(sup, d', inodes)
  {
    assert Holds(sup, Bits(sup, d), Blocks(inodes[f]));
    BitsKept(sup, d, d');
    ConservedSame(sup, d, d', inodes, f, inodes[f]);
    assert inodes[f := inodes[f]] == inodes;
  }

  // ----- truncate -----

  /** `s` cut or zero-padded to `n` bytes. */
  ghost function Resized(s: seq<Byte>, n: nat): (r: seq<Byte>)
    ensures |r| == n && forall k :: 0 <= k < n ==> r[k] == if k < |s| then s[k] else 0
  {
    seq(n, k requires 0 <= k => if k < |s| then s[k] else 0)
  }

  /** One inode gives up its last blocks. */
  lemma OwnedShrink(sup: Super, d0: seq<Block>, d1: seq<Block>, inodes: seq<Inode>, p: nat, inode: Inode,
                    gone: seq<nat>)
    requires Store(sup, d0, inodes) && Released(sup, d0, d1, gone) && p < |inodes|
    requires Shaped(inode) && Blocks(inodes[p]) == Blocks(inode) + gone
    ensures Store(sup, d1, inodes[p := inode]) && Undisturbed(d0, d1, inodes)
  {
    var after := inodes[p := inode];
    forall i | 0 <= i < |inodes|
      ensures Within(Blocks(inodes[i]), 0, |d0|) && SameOn(d0, d1, Blocks(inodes[i]))
      ensures Holds(sup, Bits(sup, d1), Blocks(after[i]))
    {
      assert Holds(sup, Bits(sup, d0), Blocks(inodes[i]));
      ShrinkHolds(sup, d0, d1, inodes, p, inode, gone, i);
    }
    forall i, j | 0 <= i < |inodes| && 0 <= j < |inodes| && i != j
      ensures Disjoint(Blocks(after[i]), Blocks(after[j]))
    {
      assert Disjoint(Blocks(inodes[i]), Blocks(inodes[j]));
      ShrinkDisjoint(inodes, p, inode, gone, i, j);
    }
  }

  lemma ShrinkDisjoint(inodes: seq<Inode>, p: nat, inode: Inode, gone: seq<nat>, i: nat, j: nat)
    requires p < |inodes| && Blocks(inodes[p]) == Blocks(inode) + gone && i < |inodes| && j < |inodes| && i != j
    requires Disjoint(Blocks(inodes[i]), Blocks(inodes[j]))
    ensures Disjoint(Blocks(inodes[p := inode][i]), Blocks(inodes[p := inode][j]))
  {
    assert forall x :: x in Blocks(inode) ==> x in Blocks(inodes[p]);
  }

  lemma ShrinkHolds(sup: Super, d0: seq<Block>, d1: seq<Block>, inodes: seq<Inode>, p: nat, inode: Inode,
                    gone: seq<nat>, i: nat)
    requires Store(sup, d0, inodes) && Released(sup, d0, d1, gone) && p < |inodes| && i < |inodes|
    requires Blocks(inodes[p]) == Blocks(inode) + gone
    ensures Holds(sup, Bits(sup, d1), Blocks(inodes[p := inode][i]))
  {
    var was, now := Blocks(inodes[i]), Blocks(inodes[p := inode][i]);
    assert Holds(sup, Bits(sup, d0), was);
    forall k | 0 <= k < |now| ensures now[k] !in gone {
      assert now[k] in now;
      if now[k] in gone {
        GoneElsewhere(sup, d0, inodes, p, inode, gone, now[k]);
      }
    }
    KeptHolds(sup, d0, d1, was, |now|, gone);
    assert was[..|now|] == now;
  }

  lemma KeptHolds(sup: Super, d0: seq<Block>, d1: seq<Block>, blocks: seq<nat>, n: nat, gone: seq<nat>)
    requires Released(sup, d0, d1, gone) && Holds(sup, Bits(sup, d0), blocks) && n <= |blocks|
    requires forall k :: 0 <= k < n ==> blocks[k] !in gone
    ensures Holds(sup, Bits(sup, d1), blocks[..n])
  {
    var kept := blocks[..n];
    assert forall i, j {:trigger Differ(kept[i], kept[j])} :: 0 <= i < j < n ==> Differ(blocks[i], blocks[j]);
  }

  /** The blocks `q` on `d1` hold the bytes of the blocks `p` on `d0`, as far as
      there are any, and zeros after them. */
  ghost predicate KeptBytes(d0: seq<Block>, p: seq<nat>, d1: seq<Block>, q: seq<nat>) {
    forall k {:trigger ByteAt(d1, q, k)} :: 0 <= k < 512 * |q| ==>
      ByteAt(d1, q, k) == if k < 512 * |p| then ByteAt(d0, p, k) else 0
  }

  /** The extents with exactly `need` blocks: more of them, or the first ones. */
  ghost predicate Refitted(sup: Super, bits: seq<bool>, es: seq<Extent>, need: nat, es': seq<Extent>) {
    if need <= |Phys(es)| then FuseAlloc.IsCut(es, need, es')
    else exists g {:trigger FuseAlloc.Filled(sup, need, FuseAlloc.Filling(bits, es), g)} ::
      FuseAlloc.Filled(sup, need, FuseAlloc.Filling(bits, es), g) && es' == g.es
  }

  lemma RefittedOnce(sup: Super, bits: seq<bool>, es: seq<Extent>, need: nat, es': seq<Extent>, es2: seq<Extent>)
    requires Refitted(sup, bits, es, need, es') && Refitted(sup, bits, es, need, es2)
    ensures es2 == es'
  {
    if need <= |Phys(es)| {
      FuseAlloc.CutOnce(es, need, es', es2);
    } else {
      var a := FuseAlloc.Filling(bits, es);
      var g :| FuseAlloc.Filled(sup, need, a, g) && es' == g.es;
      var g2 :| FuseAlloc.Filled(sup, need, a, g2) && es2 == g2.es;
      FuseAlloc.FilledOnce(sup, need, a, g, g2);
    }
  }

  lemma RefittedGrown(sup: Super, bits: seq<bool>, es: seq<Extent>, need: nat, bits': seq<bool>, es': seq<Extent>)
    requires need > |Phys(es)|
    requires FuseAlloc.Filled(sup, need, FuseAlloc.Filling(bits, es), FuseAlloc.Filling(bits', es'))
    ensures Refitted(sup, bits, es, need, es')
  {
    assert FuseAlloc.Filling(bits', es').es == es';
  }

  /** Gives a file exactly `need` blocks. */
  method ResizeBlocks(vol: Volume, f: nat, need: nat) returns (ok: bool, inode': Inode)
    requires Store(vol.sup, vol.disk, vol.inodes) && Conserved(vol.sup, vol.disk, vol.inodes)
    requires f < |vol.inodes| && vol.inodes[f].used && vol.inodes[f].kind.File?
    modifies vol`disk
    ensures !ok ==> FuseAlloc.RolledBack(vol.sup, old(vol.disk), vol.disk)
    ensures ok <==> FuseAlloc.Fits(vol.sup, Bits(vol.sup, old(vol.disk)), vol.inodes[f].extents, need)
    ensures ok ==> FileResized(vol.sup, old(vol.disk), vol.disk, vol.inodes, f, inode', need)
    ensures ok ==> Refitted(vol.sup, Bits(vol.sup, old(vol.disk)), vol.inodes[f].extents, need,
                            inode'.extents)
  {
    var inode := vol.inodes[f];
    ghost var d0 := vol.disk;
    assert Shaped(inode) && Holds(vol.sup, Bits(vol.sup, d0), Blocks(inode));
    var current := BlockCount(inode.extents);
    if need > current {
      var grown, es, added := FuseAlloc.EnsureBlocks(vol, inode.extents, need);
      if !grown {
        return false, inode;
      }
      inode' := inode.(extents := es);
      RefittedGrown(vol.sup, Bits(vol.sup, d0), inode.extents, need, Bits(vol.sup, vol.disk), es);
      ResizedUp(vol.sup, d0, vol.disk, vol.inodes, f, inode', added);
      return true, inode';
    }
    FuseAlloc.AlreadyFits(vol.sup, Bits(vol.sup, d0), inode.extents, need);
    if need < current {
      var es := FuseAlloc.ShrinkBlocks(vol, inode.extents, need);
      inode' := inode.(extents := es);
      ResizedDown(vol.sup, d0, vol.disk, vol.inodes, f, inode', Blocks(inode)[need..]);
    } else {
      inode' := inode;
      TookNothing(vol.sup, d0);
      assert Blocks(inode) + [] == Blocks(inode);
      ResizedUp(vol.sup, d0, d0, vol.inodes, f, inode, []);
    }
    ok := true;
  }

  ghost predicate FileResized(sup: Super, d0: seq<Block>, d1: seq<Block>, inodes: seq<Inode>, f: nat, inode: Inode,
                              need: nat) {
    && f < |inodes| && inode == inodes[f].(extents := inode.extents) && |Blocks(inode)| == need <= 4096
    && Store(sup, d1, inodes[f := inode]) && Conserved(sup, d1, inodes[f := inode]) && OthersSame(d0, d1, inodes, f)
    && KeptBytes(d0, Blocks(inodes[f]), d1, Blocks(inode))
  }

  lemma ResizedUp(sup: Super, d0: seq<Block>, d1: seq<Block>, inodes: seq<Inode>, f: nat, inode: Inode, added: seq<nat>)
    requires Store(sup, d0, inodes) && Conserved(sup, d0, inodes) && Took(sup, d0, d1, added)
    requires f < |inodes| && inodes[f].used && inodes[f].kind.File?
    requires inode == inodes[f].(extents := inode.extents) && Packed(inode.extents)
    requires Blocks(inode) == Blocks(inodes[f]) + added
    ensures FileResized(sup, d0, d1, inodes, f, inode, |Blocks(inode)|)
  {
    var blocks := Blocks(inodes[f]);
    GrownFits(sup, d0, d1, inodes, f, inode.extents, added);
    OwnedGrow(sup, d0, d1, added, inodes, f, inode);
    ConservedGrow(sup, d0, d1, added, inodes, f, inode);
    TookUndisturbed(sup, d0, d1, added, inodes);
    assert Holds(sup, Bits(sup, d0), Blocks(inodes[f]));
    forall i | 0 <= i < |added|
      ensures 0 <= added[i] < |d1| && d1[added[i]] == ZeroBlock()
    {
      assert added[i] in added;
    }
    forall k | 0 <= k < 512 * |Blocks(inode)|
      ensures ByteAt(d1, Blocks(inode), k) == if k < 512 * |blocks| then ByteAt(d0, blocks, k) else 0
    {
      GrownByte(d0, d1, blocks, added, k);
    }
  }

  lemma ResizedDown(sup: Super, d0: seq<Block>, d1: seq<Block>, inodes: seq<Inode>, f: nat, inode: Inode,
                    gone: seq<nat>)
    requires Store(sup, d0, inodes) && Conserved(sup, d0, inodes) && Released(sup, d0, d1, gone)
    requires f < |inodes| && inodes[f].used && inodes[f].kind.File?
    requires inode == inodes[f].(extents := inode.extents) && Packed(inode.extents)
    requires Blocks(inodes[f]) == Blocks(inode) + gone
    ensures FileResized(sup, d0, d1, inodes, f, inode, |Blocks(inode)|)
  {
    var blocks := Blocks(inodes[f]);
    assert Shaped(inodes[f]) && Holds(sup, Bits(sup, d0), blocks);
    OwnedShrink(sup, d0, d1, inodes, f, inode, gone);
    ConservedDrop(sup, d0, d1, gone, inodes, f, inode);
    DistinctBound(blocks, sup.totalBlocks);
    assert SameOn(d0, d1, blocks);
    forall k | 0 <= k < 512 * |Blocks(inode)|
      ensures ByteAt(d1, Blocks(inode), k) == ByteAt(d0, blocks, k)
    {
      assert Blocks(inode)[k / 512] == blocks[k / 512];
    }
  }

  function ZeroFrom(blk: Block, tail: nat): (r: Block)
    requires tail <= 512
    ensures forall k :: 0 <= k < 512 ==> r[k] == if k < tail then blk[k] else 0
  {
    blk[..tail] + ZeroBlock()[tail..]
  }

  /** The blocks on `d` are those on `d1` with the bytes from `size` on cleared. */
  ghost predicate TailCleared(d1: seq<Block>, d: seq<Block>, phys: seq<nat>, size: nat) {
    forall k {:trigger ByteAt(d, phys, k)} :: 0 <= k < 512 * |phys| ==>
      ByteAt(d, phys, k) == if k < size then ByteAt(d1, phys, k) else 0
  }

  /** Clears what follows the last byte in the last block; `r` is the size as far as the
      blocks can tell. */
  method ClearTail(vol: Volume, es: seq<Extent>, need: nat, size: nat, ghost r: nat)
    requires Within(Phys(es), 0, |vol.disk|) && NoDup(Phys(es)) && |Phys(es)| == need && r % 512 == size % 512
    modifies vol`disk
    ensures Confined(old(vol.disk), vol.disk, Phys(es))
    ensures need == (r + 511) / 512 ==> TailCleared(old(vol.disk), vol.disk, Phys(es), r)
  {
    if need > 0 && size % 512 != 0 {
      var last := need - 1;
      var x := LogicalToPhysical(es, last);
      ghost var d1, phys := vol.disk, Phys(es);
      vol.disk := vol.disk[x := ZeroFrom(vol.disk[x], size % 512)];
      assert phys[last] in phys;
      if need == (r + 511) / 512 {
        forall k | 0 <= k < 512 * |phys|
          ensures ByteAt(vol.disk, phys, k) == if k < r then ByteAt(d1, phys, k) else 0
        {
          if k / 512 != last {
            assert Differ(phys[k / 512], phys[last]);
          }
        }
      }
    }
  }

  /** The contents of a tight file after truncation. */
  lemma TruncatedContent(d0: seq<Block>, p: seq<nat>, size0: nat, d1: seq<Block>, d2: seq<Block>, q: seq<nat>,
                         size: nat)
    requires Tight(d0, p, size0) && KeptBytes(d0, p, d1, q) && TailCleared(d1, d2, q, size)
    requires |q| == (size + 511) / 512 && size <= MAX_SIZE
    ensures Tight(d2, q, size) && Content(d2, q, size) == Resized(Content(d0, p, size0), size)
  {
    var before, after := Content(d0, p, size0), Content(d2, q, size);
    forall k | 0 <= k < size ensures after[k] == Resized(before, size)[k] {
      assert after[k] == ByteAt(d2, q, k);
      assert ByteAt(d1, q, k) == if k < 512 * |p| then ByteAt(d0, p, k) else 0;
      assert k < size0 ==> before[k] == ByteAt(d0, p, k);
    }
  }

  /** What a successful truncation does: as far as the blocks can tell, the size is the
      one asked for modulo 2 to the 41. */
  ghost predicate Truncated(a: Abs, a': Abs, f: nat, size: nat) {
    && IsFileNode(a, f) && IsFileNode(a', f) && a' == a[f := a'[f]]
    && var r := size % TWO_41;
       a[f].tight ==>
         if r <= LAST_END then a'[f] == FileNode(Resized(a[f].data, r), true)
         else !a'[f].tight && |a'[f].data| == r % TWO_32
  }

  /** That is what was asked for exactly if the size is at most the largest end. */
  lemma TruncatedRight(a: Abs, a': Abs, f: nat, size: nat)
    requires Truncated(a, a', f, size) && a[f].tight
    ensures a'[f] == FileNode(Resized(a[f].data, size), true) <==> size <= LAST_END
  {}

  /** Truncating any file to 2 to the 41 bytes succeeds and empties it. */
  lemma TruncatedToNothing(sup: Super, d: seq<Block>, inodes: seq<Inode>, f: nat, a': Abs)
    requires OnDisk(sup, d) && f < |inodes| && inodes[f].used && inodes[f].kind.File?
    ensures SizeFits(sup, d, inodes, f, TWO_41)
    ensures Truncated(AbsOf(d, inodes), a', f, TWO_41) && AbsOf(d, inodes)[f].tight ==> a'[f] == FileNode([], true)
  {
    FuseAlloc.AlreadyFits(sup, Bits(sup, d), inodes[f].extents, 0);
    assert Need(TWO_41) == 0;
  }

  /** Which extents a truncation leads to. */
  ghost predicate TruncateSketched(sup: Super, bits: seq<bool>, l: seq<Sketch>, f: nat, size: nat, l': seq<Sketch>) {
    f < |l| && exists es {:trigger Refitted(sup, bits, l[f].es, Need(size), es)} ::
      && Refitted(sup, bits, l[f].es, Need(size), es)
      && l' == l[f := l[f].(es := if size == 0 then FuseAlloc.Cleared(4) else es)]
  }

  method TruncateFile(vol: Volume, path: seq<Name>, size: nat) returns (ok: bool)
    requires Intact(vol.sup, vol.disk, vol.inodes) && IsPath(path) && size <= TWO_63 - 512
    modifies vol
    ensures Intact(vol.sup, vol.disk, vol.inodes)
    ensures ok ==> Walk(old(Abstract(vol)), 0, path) >= 0
    ensures ok ==> Truncated(old(Abstract(vol)), Abstract(vol), Walk(old(Abstract(vol)), 0, path), size)
    ensures !ok ==> Abstract(vol) == old(Abstract(vol)) && vol.inodes == old(vol.inodes)
    ensures ok <==> old(SizeFits(vol.sup, vol.disk, vol.inodes, Walk(Abstract(vol), 0, path), size))
    ensures ok ==> TruncateSketched(vol.sup, Bits(vol.sup, old(vol.disk)), Sketches(old(vol.inodes)),
                                    Walk(old(Abstract(vol)), 0, path), size, Sketches(vol.inodes))
  {
    var f := LookupPath(vol, path);
    AbstractAt(vol.disk, vol.inodes, f);
    assert f >= 0 ==> Shaped(vol.inodes[f]);
    if f < 0 || vol.inodes[f].kind != File {
      return false;
    }
    ghost var d0, inodes := vol.disk, vol.inodes;
    var inode;
    ok, inode := ResizeBlocks(vol, f, Need(size));
    if !ok {
      RolledBackKeeps(vol.sup, d0, vol.disk, vol.inodes);
      AbsKept(d0, vol.disk, vol.inodes);
      return;
    }
    SetSize(vol, f, inode, size, d0);
  }

  /** Clears the tail of a resized file and writes its inode. */
  method SetSize(vol: Volume, f: nat, inode: Inode, size: nat, ghost d0: seq<Block>)
    requires Intact(vol.sup, d0, vol.inodes) && f < |vol.inodes| && vol.inodes[f].used && vol.inodes[f].kind.File?
    requires size <= TWO_63 - 512 && FileResized(vol.sup, d0, vol.disk, vol.inodes, f, inode, Need(size))
    requires Refitted(vol.sup, Bits(vol.sup, d0), vol.inodes[f].extents, Need(size), inode.extents)
    modifies vol
    ensures Intact(vol.sup, vol.disk, vol.inodes)
    ensures Truncated(AbsOf(d0, old(vol.inodes)), Abstract(vol), f, size)
    ensures TruncateSketched(vol.sup, Bits(vol.sup, d0), Sketches(old(vol.inodes)), f, size, Sketches(vol.inodes))
  {
    ghost var d1, inodes := vol.disk, vol.inodes;
    NeedWraps(size);
    ResizedOwns(vol.sup, d0, d1, inodes, f, inode, Need(size));
    ClearTail(vol, inode.extents, Need(size), size, size % TWO_41);
    var inode' := WithSize(inode, size);
    SizeApplied(vol.sup, d0, d1, vol.disk, inodes, f, inode, inode', size);
    TruncatedSketch(vol.sup, Bits(vol.sup, d0), inodes, f, inode, inode', size);
    vol.inodes := vol.inodes[f := inode'];
  }

  lemma TruncatedSketch(sup: Super, bits: seq<bool>, inodes: seq<Inode>, f: nat, inode: Inode, inode': Inode, size: nat)
    requires f < |inodes| && inodes[f].used && inode'.used && inode'.kind == inodes[f].kind
    requires Refitted(sup, bits, inodes[f].extents, Need(size), inode.extents)
    requires inode'.extents == if size == 0 then FuseAlloc.Cleared(4) else inode.extents
    ensures TruncateSketched(sup, bits, Sketches(inodes), f, size, Sketches(inodes[f := inode']))
  {
    var l := Sketches(inodes);
    SketchesUpdate(inodes, f, inode');
    assert l[f].es == inodes[f].extents && l[f].(es := inode'.extents) == SketchOf(inode');
    assert Refitted(sup, bits, l[f].es, Need(size), inode.extents);
  }

  /** The inode with its new size; an empty file has no extents. */
  method WithSize(inode: Inode, size: nat) returns (inode': Inode)
    requires inode.used && inode.kind.File? && Shaped(inode) && (size == 0 ==> Blocks(inode) == [])
    ensures inode' == inode.(extents := inode'.extents, size := size % TWO_32) && Blocks(inode') == Blocks(inode)
    ensures Shaped(inode') && inode'.extents == if size == 0 then FuseAlloc.Cleared(4) else inode.extents
  {
    inode' := inode.(size := size % TWO_32);
    if size == 0 {
      inode' := inode'.(extents := FuseAlloc.Cleared(4));
      PhysEmpty(FuseAlloc.Cleared(4));
    }
  }

  lemma ResizedOwns(sup: Super, d0: seq<Block>, d1: seq<Block>, inodes: seq<Inode>, f: nat, inode: Inode, need: nat)
    requires FileResized(sup, d0, d1, inodes, f, inode, need) && inodes[f].used
    ensures Blocks(inode) == Phys(inode.extents) && Within(Blocks(inode), 0, |d1|) && NoDup(Blocks(inode))
    ensures Shaped(inode)
    ensures |Phys(inode.extents)| == need && inode.used && inode.kind == inodes[f].kind
  {
    var grown := inodes[f := inode];
    assert Holds(sup, Bits(sup, d1), Blocks(grown[f])) && Shaped(grown[f]);
  }

  lemma SizeApplied(sup: Super, d0: seq<Block>, d1: seq<Block>, d2: seq<Block>, inodes: seq<Inode>, f: nat,
                    inode: Inode, inode': Inode, size: nat)
    requires Intact(sup, d0, inodes) && f < |inodes| && inodes[f].used && inodes[f].kind.File?
    requires size <= TWO_63 - 512 && FileResized(sup, d0, d1, inodes, f, inode, Need(size))
    requires Confined(d1, d2, Blocks(inode))
    requires size % TWO_41 <= LAST_END ==> TailCleared(d1, d2, Blocks(inode), size % TWO_41)
    requires inode' == inode.(extents := inode'.extents, size := size % TWO_32) && Blocks(inode') == Blocks(inode)
    requires Shaped(inode')
    ensures Intact(sup, d2, inodes[f := inode'])
    ensures Truncated(AbsOf(d0, inodes), AbsOf(d2, inodes[f := inode']), f, size)
  {
    SizeStored(sup, d0, d1, d2, inodes, f, inode, inode');
    FileStep(sup, d0, d2, inodes, f, inode');
    SizeSet(d0, d1, d2, inodes, f, inode', size);
  }

  /** Writing blocks of its own and then the inode itself leaves ownership and all
      other files alone. */
  lemma SizeStored(sup: Super, d0: seq<Block>, d1: seq<Block>, d2: seq<Block>, inodes: seq<Inode>, f: nat, inode: Inode,
                   inode': Inode)
    requires f < |inodes| && Store(sup, d1, inodes[f := inode]) && Conserved(sup, d1, inodes[f := inode])
    requires OthersSame(d0, d1, inodes, f)
    requires Confined(d1, d2, Blocks(inode)) && Blocks(inode') == Blocks(inode) && Shaped(inode')
    ensures Store(sup, d2, inodes[f := inode']) && Conserved(sup, d2, inodes[f := inode'])
    ensures OthersSame(d0, d2, inodes, f)
  {
    var grown := inodes[f := inode];
    WroteOwn(sup, d1, d2, grown, f);
    WroteConserved(sup, d1, d2, grown, f);
    ConservedSame(sup, d2, d2, grown, f, inode');
    TookNothing(sup, d2);
    assert Blocks(inode') == Blocks(grown[f]) + [];
    OwnedGrow(sup, d2, d2, [], grown, f, inode');
    assert grown[f := inode'] == inodes[f := inode'];
    OthersTwice(d0, d1, d2, inodes, grown, f);
  }

  lemma OthersTwice(d0: seq<Block>, d1: seq<Block>, d2: seq<Block>, inodes: seq<Inode>, grown: seq<Inode>, f: nat)
    requires f < |inodes| == |grown| && grown == inodes[f := grown[f]]
    requires OthersSame(d0, d1, inodes, f) && OthersSame(d1, d2, grown, f)
    ensures OthersSame(d0, d2, inodes, f)
  {
    forall i | 0 <= i < |inodes| && i != f
      ensures Within(Blocks(inodes[i]), 0, |d0|) && SameOn(d0, d2, Blocks(inodes[i]))
    {
      assert Blocks(grown[i]) == Blocks(inodes[i]);
    }
  }

  lemma SizeSet(d0: seq<Block>, d1: seq<Block>, d2: seq<Block>, inodes: seq<Inode>, f: nat, inode: Inode, size: nat)
    requires f < |inodes| && inodes[f].used && inodes[f].kind.File? && inode.used && inode.kind.File?
    requires size <= TWO_63 - 512 && inode.size == size % TWO_32
    requires KeptBytes(d0, Blocks(inodes[f]), d1, Blocks(inode))
    requires size % TWO_41 <= LAST_END ==> TailCleared(d1, d2, Blocks(inode), size % TWO_41)
    requires |Blocks(inode)| == Need(size) <= 4096
    requires AbsOf(d2, inodes[f := inode]) == AbsOf(d0, inodes)[f := NodeOf(d2, inode)]
    ensures Truncated(AbsOf(d0, inodes), AbsOf(d2, inodes[f := inode]), f, size)
  {
    var r := size % TWO_41;
    AbstractAt(d0, inodes, f);
    NeedWraps(size);
    if Tight(d0, Blocks(inodes[f]), inodes[f].size) && r <= LAST_END {
      assert r <= 4096 * 512 && inode.size == r;
      TruncatedContent(d0, Blocks(inodes[f]), inodes[f].size, d1, d2, Blocks(inode), r);
    }
  }
}
