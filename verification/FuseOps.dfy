/** The FUSE implementation of NXFS (NXFS/nxfs.c): every operation, successful or
    not, leaves exactly the metadata blocks and the blocks of inodes in use marked
    in the bitmap. */
module FuseOps {
  import opened Bitmap
  import opened Extents
  import opened Contents
  import opened NxfsAlloc
  import opened NxfsGrow
  import opened Coverage
  import opened NxfsDir
  import opened NxfsState
  import opened NxfsTree
  import opened NxfsLayout
  import opened NxfsDirOps
  import opened NxfsOps
  import opened NxfsPaths
  import opened NxfsRemove
  import FuseAlloc
  import opened FuseLayout

  const FREE_NODE := Inode(false, 0, NoKind, 0, FuseAlloc.Cleared(4))
  const FILE_NODE := Inode(true, 0, File, 1, FuseAlloc.Cleared(4))
  const DIR_NODE := Inode(true, 512, Dir, 2, FuseAlloc.Cleared(4))

  // ----- conservation -----

  /** The bitmap marks the metadata blocks, the blocks of inodes in use, and
      nothing else. */
  ghost predicate Conserved(sup: Super, d: seq<Block>, inodes: seq<Inode>) {
    && OnDisk(sup, d) && FuseAlloc.Small(sup)
    && forall b {:trigger Accounted(sup, d, inodes, b)} :: 0 <= b < sup.totalBlocks ==> Accounted(sup, d, inodes, b)
  }

  ghost predicate Accounted(sup: Super, d: seq<Block>, inodes: seq<Inode>, b: nat)
    requires OnDisk(sup, d) && b < sup.totalBlocks
  {
    Bits(sup, d)[b] <==> b < sup.dataStart || Claimed(inodes, b)
  }

  lemma ConservedGrow(sup: Super, d0: seq<Block>, d1: seq<Block>, added: seq<nat>, inodes: seq<Inode>, p: nat,
                      inode: Inode)
    requires Conserved(sup, d0, inodes) && Took(sup, d0, d1, added) && p < |inodes|
    requires Blocks(inode) == Blocks(inodes[p]) + added
    ensures Conserved(sup, d1, inodes[p := inode])
  {
    var after := inodes[p := inode];
    forall b | 0 <= b < sup.totalBlocks ensures Accounted(sup, d1, after, b) {
      assert Accounted(sup, d0, inodes, b);
      ClaimedUpdate(inodes, p, inode, b);
    }
  }

  /** An inode gives up the blocks `gone` and their bits are cleared. */
  lemma ConservedDrop(sup: Super, d0: seq<Block>, d1: seq<Block>, gone: seq<nat>, inodes: seq<Inode>, p: nat,
                      inode: Inode)
    requires Store(sup, d0, inodes) && Conserved(sup, d0, inodes) && Released(sup, d0, d1, gone) && p < |inodes|
    requires Blocks(inodes[p]) == Blocks(inode) + gone
    ensures Conserved(sup, d1, inodes[p := inode])
  {
    var after := inodes[p := inode];
    assert Holds(sup, Bits(sup, d0), Blocks(inodes[p]));
    forall b | 0 <= b < sup.totalBlocks ensures Accounted(sup, d1, after, b) {
      assert Accounted(sup, d0, inodes, b);
      ClaimedUpdate(inodes, p, inode, b);
      if b in gone {
        GoneElsewhere(sup, d0, inodes, p, inode, gone, b);
      }
    }
  }

  lemma ConservedSame(sup: Super, d0: seq<Block>, d1: seq<Block>, inodes: seq<Inode>, p: nat, inode: Inode)
    requires Conserved(sup, d0, inodes) && OnDisk(sup, d1) && Bits(sup, d1) == Bits(sup, d0)
    requires p < |inodes| && Blocks(inode) == Blocks(inodes[p])
    ensures Conserved(sup, d1, inodes[p := inode])
  {
    var after := inodes[p := inode];
    forall b | 0 <= b < sup.totalBlocks ensures Accounted(sup, d1, after, b) {
      assert Accounted(sup, d0, inodes, b);
      ClaimedUpdate(inodes, p, inode, b);
    }
  }

  /** After a rollback every inode is as it was. */
  lemma RolledBackKeeps(sup: Super, d0: seq<Block>, d1: seq<Block>, inodes: seq<Inode>)
    requires Store(sup, d0, inodes) && Conserved(sup, d0, inodes) && FuseAlloc.RolledBack(sup, d0, d1)
    ensures Store(sup, d1, inodes) && Conserved(sup, d1, inodes) && Undisturbed(d0, d1, inodes)
  {
    forall i | 0 <= i < |inodes|
      ensures Within(Blocks(inodes[i]), 0, |d0|) && SameOn(d0, d1, Blocks(inodes[i]))
    {
      assert Holds(sup, Bits(sup, d0), Blocks(inodes[i]));
    }
    forall b | 0 <= b < sup.totalBlocks ensures Accounted(sup, d1, inodes, b) {
      assert Accounted(sup, d0, inodes, b);
    }
  }

  // ----- directory entries -----

  /** A slot for a new entry: the first free one, or the first of one new block. */
  method FindFreeSlot(vol: Volume, dir: Inode)
    returns (ok: bool, dir': Inode, block: nat, slot: nat, ghost added: seq<nat>)
    requires OnDisk(vol.sup, vol.disk) && FuseAlloc.Small(vol.sup)
    requires dir.kind.Dir? && Shaped(dir) && Holds(vol.sup, Bits(vol.sup, vol.disk), Blocks(dir))
    modifies vol`disk
    ensures !ok ==> dir' == dir && FuseAlloc.RolledBack(vol.sup, old(vol.disk), vol.disk)
    ensures ok <==> RoomFor(vol.sup, Bits(vol.sup, old(vol.disk)), Slots(old(vol.disk), Blocks(dir)), dir.extents)
    ensures ok ==> Took(vol.sup, old(vol.disk), vol.disk, added)
    ensures ok ==> dir' == dir.(extents := dir'.extents) && Shaped(dir') && Blocks(dir') == Blocks(dir) + added
    ensures ok ==> slot < 16 && block < |Blocks(dir')|
    ensures ok && added == [] ==> FirstMatch(Slots(old(vol.disk), Blocks(dir)), [], true, 16 * block + slot)
    ensures ok && added != [] ==> block == |Blocks(dir)| && slot == 0
    ensures ok ==>
      Widened(vol.sup, Bits(vol.sup, old(vol.disk)), dir.extents, FullDir(Slots(old(vol.disk), Blocks(dir))),
                           Bits(vol.sup, vol.disk), dir'.extents)
  {
    TookNothing(vol.sup, vol.disk);
    var found, _, b, s := FindDirEntrySlot(vol, dir.extents, [], true);
    FullIsNoMatch(Slots(vol.disk, Blocks(dir)));
    if found {
      assert Blocks(dir) + [] == Blocks(dir);
      return true, dir, b, s, [];
    }
    var blocks := BlockCount(dir.extents);
    FuseAlloc.OneFits(vol.sup, Bits(vol.sup, vol.disk), dir.extents);
    var es;
    ok, es, added := FuseAlloc.EnsureBlocks(vol, dir.extents, blocks + 1);
    if !ok {
      return false, dir, 0, 0, added;
    }
    return true, dir.(extents := es), blocks, 0, added;
  }

  /** A directory with these slots can take one more entry: it has a free slot, or
      there is a data block for it and an extent slot for the block. */
  ghost predicate RoomFor(sup: Super, bits: seq<bool>, slots: seq<DirSlot>, es: seq<Extent>) {
    !FullDir(slots) || (!DataFull(sup, bits) && EmptySlots(es) > 0)
  }

  /** Finds a slot for an entry whose name is not in the directory yet. */
  method PrepareEntry(vol: Volume, p: nat, dir: Inode, name: Name, child: nat)
    returns (ok: bool, dir': Inode, block: nat, slot: nat, ghost added: seq<nat>)
    requires Store(vol.sup, vol.disk, vol.inodes) && Conserved(vol.sup, vol.disk, vol.inodes)
    requires p < |vol.inodes| && vol.inodes[p] == dir && dir.kind.Dir? && UniqueNames(Entries(vol.disk, dir))
    requires name != [] && 0 !in name && |name| <= 27 && child < |vol.inodes|
    requires name !in NameMap(Entries(vol.disk, dir))
    modifies vol`disk
    ensures !ok ==> FuseAlloc.RolledBack(vol.sup, old(vol.disk), vol.disk)
    ensures ok <==> RoomFor(vol.sup, Bits(vol.sup, old(vol.disk)), Entries(old(vol.disk), dir), dir.extents)
    ensures ok ==>
      Insertable(vol.sup, old(vol.disk), vol.disk, vol.inodes, p, dir', added, block, slot, DirSlot(child, name))
    ensures OnDisk(vol.sup, vol.disk)
    ensures ok ==> Widened(vol.sup, Bits(vol.sup, old(vol.disk)), dir.extents, FullDir(Entries(old(vol.disk), dir)),
                           Bits(vol.sup, vol.disk), dir'.extents)
  {
    assert Holds(vol.sup, Bits(vol.sup, vol.disk), Blocks(vol.inodes[p])) && Shaped(vol.inodes[p]);
    ok, dir', block, slot, added := FindFreeSlot(vol, dir);
    if ok {
      var blocks := BlockCount(dir'.extents);
      dir' := dir'.(size := blocks * 512);
    }
  }

  /** Adds an entry whose name is not in the directory yet. */
  method AddEntry(vol: Volume, p: nat, dir: Inode, name: Name, child: nat)
    returns (ok: bool, dir': Inode, ghost k: nat, ghost n: nat)
    requires Store(vol.sup, vol.disk, vol.inodes) && Conserved(vol.sup, vol.disk, vol.inodes)
    requires p < |vol.inodes| && vol.inodes[p] == dir && dir.kind.Dir? && UniqueNames(Entries(vol.disk, dir))
    requires name != [] && 0 !in name && |name| <= 27 && child < |vol.inodes|
    requires name !in NameMap(Entries(vol.disk, dir))
    modifies vol
    ensures Store(vol.sup, vol.disk, vol.inodes) && Conserved(vol.sup, vol.disk, vol.inodes)
    ensures |vol.inodes| == |old(vol.inodes)|
    ensures !ok ==> Unchanged(old(vol.disk), old(vol.inodes), vol.disk, vol.inodes) && dir' == dir
    ensures ok <==> RoomFor(vol.sup, Bits(vol.sup, old(vol.disk)), Entries(old(vol.disk), dir), dir.extents)
    ensures ok ==> dir' == vol.inodes[p]
    ensures ok ==> EntryAdded(old(vol.disk), old(vol.inodes), vol.disk, vol.inodes, p, DirSlot(child, name), k, n)
    ensures ok ==> Widened(vol.sup, Bits(vol.sup, old(vol.disk)), dir.extents, FullDir(Entries(old(vol.disk), dir)),
                           Bits(vol.sup, vol.disk), dir'.extents)
  {
    var block, slot;
    ghost var added;
    ok, dir', block, slot, added := PrepareEntry(vol, p, dir, name, child);
    k, n := 0, 0;
    if !ok {
      dir' := dir;
      RolledBackKeeps(vol.sup, old(vol.disk), vol.disk, vol.inodes);
      return;
    }
    k, n := 16 * block + slot, 16 * |added|;
    ghost var d1 := vol.disk;
    WriteEntry(vol, p, dir', block, slot, DirSlot(child, name), old(vol.disk), added);
    ConservedAdded(vol.sup, old(vol.disk), d1, vol.disk, added, old(vol.inodes), p, dir');
  }

  /** Taking blocks for an inode and then writing no bitmap block. */
  lemma ConservedAdded(sup: Super, d0: seq<Block>, d1: seq<Block>, d2: seq<Block>, added: seq<nat>, inodes: seq<Inode>,
                       p: nat, inode: Inode)
    requires Conserved(sup, d0, inodes) && Took(sup, d0, d1, added) && p < |inodes|
    requires Blocks(inode) == Blocks(inodes[p]) + added && OnDisk(sup, d2) && Bits(sup, d2) == Bits(sup, d1)
    ensures Conserved(sup, d2, inodes[p := inode])
  {
    ConservedGrow(sup, d0, d1, added, inodes, p, inode);
    ConservedSame(sup, d1, d2, inodes[p := inode], p, inode);
    assert inodes[p := inode][p := inode] == inodes[p := inode];
  }

  // ----- create, mkdir, unlink, rmdir -----

  /** The invariant of a mounted volume between operations. */
  ghost predicate Intact(sup: Super, d: seq<Block>, inodes: seq<Inode>) {
    Valid(sup, d, inodes) && Conserved(sup, d, inodes)
  }

  lemma EmptyNodes(d: seq<Block>)
    ensures Blocks(FREE_NODE) == Blocks(FILE_NODE) == Blocks(DIR_NODE) == [] && Phys(DIR_NODE.extents) == []
    ensures Shaped(FREE_NODE) && Shaped(FILE_NODE) && Shaped(DIR_NODE)
    ensures NodeOf(d, FILE_NODE) == FileNode([], true)
  {
    PhysEmpty(FuseAlloc.Cleared(4));
  }

  /** Throws a draft away: frees its blocks and clears its inode. */
  method DiscardDraft(vol: Volume, c: nat, node: Inode, ghost a: Abs)
    requires Draft(vol.sup, vol.disk, vol.inodes, c, node, a) && Conserved(vol.sup, vol.disk, vol.inodes)
    modifies vol
    ensures Intact(vol.sup, vol.disk, vol.inodes) && Abstract(vol) == a
    ensures vol.inodes == old(vol.inodes)[c := FREE_NODE]
  {
    ghost var d0, inodes := vol.disk, vol.inodes;
    EmptyNodes(vol.disk);
    assert Holds(vol.sup, Bits(vol.sup, vol.disk), Blocks(vol.inodes[c]));
    FuseAlloc.FreeExtents(vol, node.extents);
    assert Blocks(inodes[c]) == Blocks(FREE_NODE) + Phys(node.extents);
    ConservedDrop(vol.sup, d0, vol.disk, Phys(node.extents), inodes, c, FREE_NODE);
    DropInode(vol.sup, d0, vol.disk, inodes, c, FREE_NODE);
    vol.inodes := vol.inodes[c := FREE_NODE];
  }

  /** Adds the entry for a drafted inode. */
  method PublishDraft(vol: Volume, p: nat, parent: Inode, name: Name, c: nat, node: Inode, ghost a: Abs)
    returns (ok: bool)
    requires Draft(vol.sup, vol.disk, vol.inodes, c, node, a) && vol.inodes[c].used
    requires Conserved(vol.sup, vol.disk, vol.inodes)
    requires IsDirNode(a, p) && name !in a[p].entries
    requires p < |vol.inodes| && vol.inodes[p] == parent && parent.kind.Dir? && parent.used
    requires name != [] && 0 !in name && |name| <= 27 && !IsDot(name)
    modifies vol
    ensures Conserved(vol.sup, vol.disk, vol.inodes)
    ensures ok ==> Valid(vol.sup, vol.disk, vol.inodes)
    ensures ok ==> Abstract(vol) == a[c := NodeOf(old(vol.disk), node)][p := DirNode(a[p].entries[name := c])]
    ensures |vol.inodes| == |old(vol.inodes)| && vol.inodes == old(vol.inodes)[p := vol.inodes[p]]
    ensures ok ==> vol.inodes[p] == parent.(extents := vol.inodes[p].extents, size := vol.inodes[p].size)
    ensures !ok ==> Draft(vol.sup, vol.disk, vol.inodes, c, node, a) && vol.inodes == old(vol.inodes)
    ensures ok <==> RoomFor(vol.sup, Bits(vol.sup, old(vol.disk)), Entries(old(vol.disk), parent), parent.extents)
    ensures ok ==> Widened(vol.sup, Bits(vol.sup, old(vol.disk)), parent.extents,
                           FullDir(Entries(old(vol.disk), parent)), Bits(vol.sup, vol.disk), vol.inodes[p].extents)
  {
    assert ViewOf(vol.disk, vol.inodes)[p] == Entries(vol.disk, parent);
    AbstractAt(vol.disk, vol.inodes, p);
    assert (Abstract(vol) - {c})[p] == Abstract(vol)[p];
    var added, _, k, n := AddEntry(vol, p, parent, name, c);
    ok := added;
    if ok {
      DraftPublished(vol.sup, old(vol.disk), old(vol.inodes), vol.disk, vol.inodes, p, name, c, node, a, k, n);
    } else {
      DraftUnchanged(vol.sup, old(vol.disk), vol.disk, vol.inodes, c, node, a);
    }
  }

  /** Checks common to create and mkdir: the parent directory and a free inode, or
      -1 twice. */
  method PrepareNode(vol: Volume, path: seq<Name>) returns (p: int, c: int)
    requires Valid(vol.sup, vol.disk, vol.inodes) && IsPath(path)
    ensures p >= 0 && c >= 0 <==> Creatable(vol.disk, vol.inodes, path)
    ensures c >= 0 ==> p >= 0 && FirstUnused(vol.inodes, c)
    ensures c >= 0 ==> path != [] && p == Walk(Abstract(vol), 0, Parent(path)) && !IsDot(Last(path))
    ensures c >= 0 ==> CanAdd(Abstract(vol), p, Last(path)) && Walk(Abstract(vol), 0, path) == -1
    ensures c >= 0 ==> p < |vol.inodes| && vol.inodes[p].used && vol.inodes[p].kind.Dir?
  {
    var existing := LookupPath(vol, path);
    p, c := -1, -1;
    if path == [] || |path[|path| - 1]| > 27 || path[|path| - 1] == DOT || path[|path| - 1] == DOTDOT {
      return;
    }
    p := ResolveParent(vol, path);
    if p < 0 {
      return;
    }
    ParentDir(vol.sup, vol.disk, vol.inodes, path, p);
    if existing >= 0 {
      return -1, -1;
    }
    NamesExist(vol.sup, vol.disk, vol.inodes, p, path[|path| - 1]);
    c := FindFreeInode(vol);
  }

  /** A file can be created: its entry finds room in the parent directory. */
  ghost predicate FileFits(sup: Super, d: seq<Block>, inodes: seq<Inode>, path: seq<Name>) {
    && OnDisk(sup, d) && Creatable(d, inodes, path)
    && var parent := ParentInode(d, inodes, path); RoomFor(sup, Bits(sup, d), Entries(d, parent), parent.extents)
  }

  /** A directory can be made: there is a block for it, and with the first free block
      gone its entry still finds room in the parent directory. */
  ghost predicate DirFits(sup: Super, d: seq<Block>, inodes: seq<Inode>, path: seq<Name>) {
    && OnDisk(sup, d) && Creatable(d, inodes, path)
    && var parent := ParentInode(d, inodes, path);
       exists b: nat {:trigger FirstFit(sup, Bits(sup, d), 1, b)} :: FirstFit(sup, Bits(sup, d), 1, b)
         && RoomFor(sup, Marked(Bits(sup, d), b, 1, true), Entries(d, parent), parent.extents)
  }

  /** Making a directory is decided by the first free block. */
  lemma DirOutcome(sup: Super, d: seq<Block>, inodes: seq<Inode>, path: seq<Name>, b: nat)
    requires OnDisk(sup, d) && Creatable(d, inodes, path)
    requires DataFull(sup, Bits(sup, d)) || FirstFit(sup, Bits(sup, d), 1, b)
    ensures DataFull(sup, Bits(sup, d)) ==> !DirFits(sup, d, inodes, path)
    ensures var parent, bits := ParentInode(d, inodes, path), Marked(Bits(sup, d), b, 1, true);
            !DataFull(sup, Bits(sup, d)) ==>
              (DirFits(sup, d, inodes, path) <==> RoomFor(sup, bits, Entries(d, parent), parent.extents))
  {
    var bits := Bits(sup, d);
    if DataFull(sup, bits) {
      FullIsNoFit(sup, bits);
      assert forall x: nat {:trigger FirstFit(sup, bits, 1, x)} :: FirstFit(sup, bits, 1, x) ==> FreeRun(bits, x, 1);
    } else {
      OnlyFirst(sup, bits, b);
    }
  }

  /** Where things are after creating a file: a new inode without blocks, the lowest one
      unused, and an entry in the parent directory, which grew only if it was full. */
  ghost predicate FileLaid(sup: Super, d: seq<Block>, inodes: seq<Inode>, path: seq<Name>, d': seq<Block>,
                           inodes': seq<Inode>) {
    && OnDisk(sup, d) && OnDisk(sup, d') && Creatable(d, inodes, path)
    && var p := Walk(AbsOf(d, inodes), 0, Parent(path));
    && p >= 0 && exists c: nat {:trigger FirstUnused(inodes, c)} ::
         && FirstUnused(inodes, c)
         && NewEntry(sup, Bits(sup, d), Sketches(inodes), p, ParentFull(d, inodes, path), c, SketchOf(FILE_NODE),
                     Bits(sup, d'), Sketches(inodes'))
  }

  /** After making a directory: a new inode with one block, and an entry in the parent
      directory. */
  ghost predicate DirLaid(sup: Super, d: seq<Block>, inodes: seq<Inode>, path: seq<Name>, d': seq<Block>,
                          inodes': seq<Inode>) {
    && OnDisk(sup, d) && OnDisk(sup, d') && Creatable(d, inodes, path)
    && var p := Walk(AbsOf(d, inodes), 0, Parent(path));
    && p >= 0 && exists c: nat, g {:trigger FirstUnused(inodes, c), FirstFill(sup, Bits(sup, d), g)} ::
         && FirstUnused(inodes, c) && FirstFill(sup, Bits(sup, d), g)
         && NewEntry(sup, g.bits, Sketches(inodes), p, ParentFull(d, inodes, path), c, Sketch(true, Dir, g.es),
                     Bits(sup, d'), Sketches(inodes'))
  }

  /** A new directory gets its first block. */
  ghost predicate FirstFill(sup: Super, bits: seq<bool>, g: FuseAlloc.Filling) {
    FuseAlloc.Filled(sup, 1, FuseAlloc.Filling(bits, DIR_NODE.extents), g)
  }

  lemma EnteredLaid(sup: Super, bits: seq<bool>, inodes: seq<Inode>, p: nat, full: bool, c: nat, node: Inode,
                    bits': seq<bool>, parent': Inode)
    requires p < |inodes| && c < |inodes| && c != p && inodes[p].used && parent'.used && parent'.kind == inodes[p].kind
    requires Widened(sup, bits, inodes[p].extents, full, bits', parent'.extents)
    ensures NewEntry(sup, bits, Sketches(inodes), p, full, c, SketchOf(node), bits',
                     Sketches(inodes[c := node][p := parent']))
  {
    var l := Sketches(inodes);
    SketchesUpdate(inodes, c, node);
    SketchesUpdate(inodes[c := node], p, parent');
    assert l[p].es == inodes[p].extents;
    assert l[p].(es := parent'.extents) == SketchOf(parent');
  }

  lemma NotEntered(inodes: seq<Inode>, c: nat)
    requires c < |inodes| && !inodes[c].used && Shaped(inodes[c])
    ensures Sketches(inodes[c := FREE_NODE]) == Sketches(inodes)
  {
    SketchesUpdate(inodes, c, FREE_NODE);
    assert SketchOf(FREE_NODE) == SketchOf(inodes[c]);
  }

  /** Creates an empty file. */
  method CreateFile(vol: Volume, path: seq<Name>) returns (ok: bool, ghost ino: nat)
    requires Intact(vol.sup, vol.disk, vol.inodes) && IsPath(path)
    modifies vol
    ensures Intact(vol.sup, vol.disk, vol.inodes)
    ensures ok ==> Created(old(Abstract(vol)), Abstract(vol), path, ino, FileNode([], true)) && !IsDot(Last(path))
    ensures !ok ==> Abstract(vol) == old(Abstract(vol))
    ensures ok <==> old(FileFits(vol.sup, vol.disk, vol.inodes, path))
    ensures ok ==> old(FirstUnused(vol.inodes, ino))
    ensures ok ==> FileLaid(vol.sup, old(vol.disk), old(vol.inodes), path, vol.disk, vol.inodes)
    ensures !ok ==> Sketches(vol.inodes) == Sketches(old(vol.inodes))
  {
    var p, c := PrepareNode(vol, path);
    if p < 0 || c < 0 {
      return false, 0;
    }
    ParentDir(vol.sup, vol.disk, vol.inodes, path, p);
    AbstractAt(vol.disk, vol.inodes, c);
    ok := CreateFileIn(vol, p, vol.inodes[p], path[|path| - 1], c);
    ino := c;
  }

  /** Writes a new file as inode `c` and puts it under `name` in directory `p`. */
  method CreateFileIn(vol: Volume, p: nat, parent: Inode, name: Name, c: nat) returns (ok: bool)
    requires Intact(vol.sup, vol.disk, vol.inodes) && c < |vol.inodes| && !vol.inodes[c].used
    requires p < |vol.inodes| && vol.inodes[p] == parent && parent.used && parent.kind.Dir?
    requires CanAdd(Abstract(vol), p, name) && 0 !in name && !IsDot(name)
    modifies vol
    ensures Intact(vol.sup, vol.disk, vol.inodes)
    ensures var a := old(Abstract(vol));
            Abstract(vol) == if ok then a[c := FileNode([], true)][p := DirNode(a[p].entries[name := c])] else a
    ensures ok <==> RoomFor(vol.sup, Bits(vol.sup, old(vol.disk)), Entries(old(vol.disk), parent), parent.extents)
    ensures ok ==> NewEntry(vol.sup, Bits(vol.sup, old(vol.disk)), Sketches(old(vol.inodes)), p,
                            FullDir(Entries(old(vol.disk), parent)), c, SketchOf(FILE_NODE),
                            Bits(vol.sup, vol.disk), Sketches(vol.inodes))
    ensures !ok ==> Sketches(vol.inodes) == Sketches(old(vol.inodes))
  {
    ghost var a := Abstract(vol);
    assert Shaped(vol.inodes[c]);
    TookNothing(vol.sup, vol.disk);
    EmptyNodes(vol.disk);
    DraftWritten(vol.sup, vol.disk, vol.disk, vol.inodes, c, FILE_NODE, []);
    ConservedSame(vol.sup, vol.disk, vol.disk, vol.inodes, c, FILE_NODE);
    vol.inodes := vol.inodes[c := FILE_NODE];
    ok := PublishDraft(vol, p, parent, name, c, FILE_NODE, a);
    if !ok {
      DiscardDraft(vol, c, FILE_NODE, a);
      assert vol.inodes == old(vol.inodes)[c := FREE_NODE];
      NotEntered(old(vol.inodes), c);
    } else {
      EnteredLaid(vol.sup, Bits(vol.sup, old(vol.disk)), old(vol.inodes), p, FullDir(Entries(old(vol.disk), parent)), c,
                  FILE_NODE, Bits(vol.sup, vol.disk), vol.inodes[p]);
      assert vol.inodes == old(vol.inodes)[c := FILE_NODE][p := vol.inodes[p]];
    }
  }

  /** Adds "." or ".." to a directory being set up that has a free slot. */
  method AddDotEntry(vol: Volume, c: nat, dir: Inode, name: Name, target: nat, ghost a: Abs)
    returns (ok: bool, dir': Inode, ghost k: nat, ghost n: nat)
    requires Draft(vol.sup, vol.disk, vol.inodes, c, dir, a) && vol.inodes[c].used && dir.kind.Dir?
    requires Conserved(vol.sup, vol.disk, vol.inodes) && !FullDir(Entries(vol.disk, dir))
    requires IsDot(name) && target < |vol.inodes| && name !in NameMap(Entries(vol.disk, dir))
    modifies vol
    ensures ok && Draft(vol.sup, vol.disk, vol.inodes, c, dir', a) && vol.inodes[c].used && dir'.kind.Dir?
    ensures Conserved(vol.sup, vol.disk, vol.inodes) && Bits(vol.sup, vol.disk) == Bits(vol.sup, old(vol.disk))
    ensures OnlyDraft(old(vol.disk), old(vol.inodes), vol.disk, vol.inodes, c)
    ensures NodeOf(vol.disk, dir') == DirNode(NameMap(Entries(old(vol.disk), dir))[name := target])
    ensures k < |Entries(old(vol.disk), dir)| + n && dir'.extents == dir.extents && dir'.used
    ensures Entries(vol.disk, dir') == (Entries(old(vol.disk), dir) + FreeSlots(n))[k := DirSlot(target, name)]
  {
    assert ViewOf(vol.disk, vol.inodes)[c] == Entries(vol.disk, dir);
    ok, dir', k, n := AddEntry(vol, c, dir, name, target);
    DraftDot(vol.sup, old(vol.disk), old(vol.inodes), vol.disk, vol.inodes, c, dir, a, DirSlot(target, name), k, n);
    OnlyDraftView(old(vol.disk), old(vol.inodes), vol.disk, vol.inodes, c);
  }

  /** The first block of an empty extent array: the lowest free one. */
  method FirstBlock(vol: Volume, es: seq<Extent>) returns (ok: bool, es': seq<Extent>, ghost b: nat)
    requires OnDisk(vol.sup, vol.disk) && FuseAlloc.Small(vol.sup) && Packed(es) && Phys(es) == [] && EmptySlots(es) > 0
    modifies vol`disk
    ensures ok <==> !DataFull(vol.sup, Bits(vol.sup, old(vol.disk)))
    ensures ok ==> |es'| == |es| && Packed(es') && Phys(es') == [b] && Took(vol.sup, old(vol.disk), vol.disk, [b])
    ensures ok ==> FirstFit(vol.sup, Bits(vol.sup, old(vol.disk)), 1, b)
    ensures ok ==> Bits(vol.sup, vol.disk) == Marked(Bits(vol.sup, old(vol.disk)), b, 1, true)
    ensures ok ==> FuseAlloc.Filled(vol.sup, 1, FuseAlloc.Filling(Bits(vol.sup, old(vol.disk)), es),
                                    FuseAlloc.Filling(Bits(vol.sup, vol.disk), es'))
    ensures !ok ==> FuseAlloc.RolledBack(vol.sup, old(vol.disk), vol.disk)
  {
    FuseAlloc.OneFits(vol.sup, Bits(vol.sup, vol.disk), es);
    ghost var added;
    ok, es', added := FuseAlloc.EnsureBlocks(vol, es, 1);
    b := 0;
    if ok {
      b := added[0];
      assert [] + added == added == [b];
      TookOne(vol.sup, old(vol.disk), vol.disk, added);
    }
  }

  /** Gives a new directory its first block and writes its inode. */
  method DraftDir(vol: Volume, c: nat) returns (ok: bool, dir: Inode, ghost b: nat)
    requires Intact(vol.sup, vol.disk, vol.inodes) && c < |vol.inodes| && !vol.inodes[c].used
    modifies vol
    ensures !ok ==> Intact(vol.sup, vol.disk, vol.inodes) && Abstract(vol) == old(Abstract(vol))
    ensures !ok ==> vol.inodes == old(vol.inodes)
    ensures ok ==> Draft(vol.sup, vol.disk, vol.inodes, c, dir, old(Abstract(vol)))
    ensures ok ==> Conserved(vol.sup, vol.disk, vol.inodes)
    ensures ok ==> vol.inodes == old(vol.inodes)[c := dir] && dir.used && dir.kind.Dir?
    ensures ok ==> Entries(vol.disk, dir) == FreeSlots(16) && FirstFit(vol.sup, Bits(vol.sup, old(vol.disk)), 1, b)
    ensures ok ==> Bits(vol.sup, vol.disk) == Marked(Bits(vol.sup, old(vol.disk)), b, 1, true)
    ensures ok ==> OnlyDraft(old(vol.disk), old(vol.inodes), vol.disk, vol.inodes, c)
    ensures ok ==> FirstFill(vol.sup, Bits(vol.sup, old(vol.disk)),
                             FuseAlloc.Filling(Bits(vol.sup, vol.disk), dir.extents))
    ensures ok <==> !DataFull(vol.sup, Bits(vol.sup, old(vol.disk)))
  {
    EmptyNodes(vol.disk);
    NewDirSlots();
    dir := DIR_NODE;
    var es;
    ok, es, b := FirstBlock(vol, dir.extents);
    if !ok {
      RolledBackKeeps(vol.sup, old(vol.disk), vol.disk, vol.inodes);
      AbsKept(old(vol.disk), vol.disk, vol.inodes);
      return;
    }
    dir := dir.(extents := es);
    assert [] + [b] == [b];
    DraftWritten(vol.sup, old(vol.disk), vol.disk, vol.inodes, c, dir, [b]);
    ConservedGrow(vol.sup, old(vol.disk), vol.disk, [b], vol.inodes, c, dir);
    TookUndisturbed(vol.sup, old(vol.disk), vol.disk, [b], vol.inodes);
    AbsStep(old(vol.disk), vol.disk, vol.inodes, c, dir);
    vol.inodes := vol.inodes[c := dir];
    OnlyDraftView(old(vol.disk), old(vol.inodes), vol.disk, vol.inodes, c);
  }

  lemma NewDirSlots()
    ensures EmptySlots(DIR_NODE.extents) == 4
  {
    var es := DIR_NODE.extents;
    assert es[1..] == [NO_EXTENT, NO_EXTENT, NO_EXTENT] && es[1..][1..] == [NO_EXTENT, NO_EXTENT];
  }

  /** Creates a directory holding "." and "..". */
  method MakeDir(vol: Volume, path: seq<Name>) returns (ok: bool, ghost ino: nat)
    requires Intact(vol.sup, vol.disk, vol.inodes) && IsPath(path)
    modifies vol
    ensures Intact(vol.sup, vol.disk, vol.inodes)
    ensures ok ==> MadeDir(old(Abstract(vol)), Abstract(vol), path, ino)
    ensures !ok ==> Abstract(vol) == old(Abstract(vol))
    ensures ok <==> old(DirFits(vol.sup, vol.disk, vol.inodes, path))
    ensures ok ==> old(FirstUnused(vol.inodes, ino))
    ensures ok ==> DirLaid(vol.sup, old(vol.disk), old(vol.inodes), path, vol.disk, vol.inodes)
    ensures !ok ==> Sketches(vol.inodes) == Sketches(old(vol.inodes))
  {
    var p, c := PrepareNode(vol, path);
    if p < 0 || c < 0 {
      return false, 0;
    }
    ParentDir(vol.sup, vol.disk, vol.inodes, path, p);
    AbstractAt(vol.disk, vol.inodes, c);
    ghost var b, g;
    ok, b, g := MakeDirIn(vol, p, vol.inodes[p], path[|path| - 1], c);
    DirOutcome(vol.sup, old(vol.disk), old(vol.inodes), path, b);
    ino := c;
  }

  /** Sets up a directory as inode `c` and puts it under `name` in directory `p`. */
  method MakeDirIn(vol: Volume, p: nat, parent: Inode, name: Name, c: nat)
    returns (ok: bool, ghost b: nat, ghost g: FuseAlloc.Filling)
    requires Intact(vol.sup, vol.disk, vol.inodes) && c < |vol.inodes| && !vol.inodes[c].used
    requires p < |vol.inodes| && vol.inodes[p] == parent && parent.used && parent.kind.Dir?
    requires CanAdd(Abstract(vol), p, name) && 0 !in name && !IsDot(name)
    modifies vol
    ensures Intact(vol.sup, vol.disk, vol.inodes)
    ensures var a := old(Abstract(vol));
            && (!ok ==> Abstract(vol) == a)
            && (ok ==> Abstract(vol) == a[c := DirNode(map[DOT := c, DOTDOT := p])][p :=
               DirNode(a[p].entries[name := c])])
    ensures var slots, bits := Entries(old(vol.disk), parent), Bits(vol.sup, old(vol.disk));
            && (DataFull(vol.sup, bits) || FirstFit(vol.sup, bits, 1, b))
            && (ok <==> !DataFull(vol.sup, bits) && RoomFor(vol.sup, Marked(bits, b, 1, true), slots, parent.extents))
    ensures ok ==> FirstFill(vol.sup, Bits(vol.sup, old(vol.disk)), g)
    ensures ok ==> NewEntry(vol.sup, g.bits, Sketches(old(vol.inodes)), p, FullDir(Entries(old(vol.disk), parent)), c,
                            Sketch(true, Dir, g.es), Bits(vol.sup, vol.disk), Sketches(vol.inodes))
    ensures !ok ==> Sketches(vol.inodes) == Sketches(old(vol.inodes))
  {
    ghost var a, d0, inodes := Abstract(vol), vol.disk, vol.inodes;
    assert Shaped(vol.inodes[c]);
    var dir;
    ok, dir, b := DraftDir(vol, c);
    g := FuseAlloc.Filling(Bits(vol.sup, vol.disk), dir.extents);
    if !ok {
      return;
    }
    dir := AddDots(vol, c, dir, p, a);
    assert vol.inodes == inodes[c := dir];
    assert vol.inodes[p] == parent && Entries(vol.disk, parent) == Entries(d0, parent);
    ok := EnterDir(vol, p, parent, name, c, dir, a, d0, inodes);
  }

  /** Puts a directory just set up under `name` in directory `p`, or gives it up. */
  method EnterDir(vol: Volume, p: nat, parent: Inode, name: Name, c: nat, dir: Inode, ghost a: Abs, ghost d: seq<Block>,
                  ghost inodes: seq<Inode>)
    returns (ok: bool)
    requires Draft(vol.sup, vol.disk, vol.inodes, c, dir, a) && dir.used && dir.kind.Dir? && CanAdd(a, p, name)
    requires Conserved(vol.sup, vol.disk, vol.inodes)
    requires NodeOf(vol.disk, dir) == DirNode(map[DOT := c, DOTDOT := p]) && 0 !in name && !IsDot(name)
    requires p < |inodes| && inodes[p] == parent && parent.used && parent.kind.Dir?
    requires c < |inodes| && c != p && !inodes[c].used && Shaped(inodes[c]) && vol.inodes == inodes[c := dir]
    requires Entries(vol.disk, parent) == Entries(d, parent)
    modifies vol
    ensures Intact(vol.sup, vol.disk, vol.inodes)
    ensures Abstract(vol) == if !ok then a
      else a[c := DirNode(map[DOT := c, DOTDOT := p])][p := DirNode(a[p].entries[name := c])]
    ensures ok <==> RoomFor(vol.sup, Bits(vol.sup, old(vol.disk)), Entries(d, parent), parent.extents)
    ensures ok ==> NewEntry(vol.sup, Bits(vol.sup, old(vol.disk)), Sketches(inodes), p, FullDir(Entries(d, parent)), c,
                            Sketch(true, Dir, dir.extents), Bits(vol.sup, vol.disk), Sketches(vol.inodes))
    ensures !ok ==> Sketches(vol.inodes) == Sketches(inodes)
  {
    ok := PublishDraft(vol, p, parent, name, c, dir, a);
    if !ok {
      DiscardDraft(vol, c, dir, a);
      assert vol.inodes == inodes[c := FREE_NODE];
      NotEntered(inodes, c);
    } else {
      ghost var d2, inodes2 := vol.disk, vol.inodes;
      SetLinks(vol, p, vol.inodes[p].nlink + 1);
      ConservedSame(vol.sup, d2, vol.disk, inodes2, p, vol.inodes[p]);
      EnteredLaid(vol.sup, Bits(vol.sup, old(vol.disk)), inodes, p, FullDir(Entries(d, parent)), c, dir,
                  Bits(vol.sup, vol.disk), vol.inodes[p]);
      assert vol.inodes == inodes[c := dir][p := vol.inodes[p]];
    }
  }

  /** The dot entries of a new directory, whose only block is still empty. */
  method AddDots(vol: Volume, c: nat, dir: Inode, p: nat, ghost a: Abs) returns (dir': Inode)
    requires Draft(vol.sup, vol.disk, vol.inodes, c, dir, a) && vol.inodes[c].used && dir.kind.Dir? && p < |vol.inodes|
    requires Conserved(vol.sup, vol.disk, vol.inodes) && Entries(vol.disk, dir) == FreeSlots(16)
    modifies vol
    ensures Draft(vol.sup, vol.disk, vol.inodes, c, dir', a) && vol.inodes[c].used && dir'.kind.Dir?
    ensures Conserved(vol.sup, vol.disk, vol.inodes) && Bits(vol.sup, vol.disk) == Bits(vol.sup, old(vol.disk))
    ensures OnlyDraft(old(vol.disk), old(vol.inodes), vol.disk, vol.inodes, c)
    ensures NodeOf(vol.disk, dir') == DirNode(map[DOT := c, DOTDOT := p]) && dir'.extents == dir.extents && dir'.used
  {
    FreshNames(16);
    RoomForDots();
    var ok;
    ghost var k, n;
    ok, dir', k, n := AddDotEntry(vol, c, dir, DOT, c, a);
    RoomForOneMore(k, n, DirSlot(c, DOT));
    ok, dir', k, n := AddDotEntry(vol, c, dir', DOTDOT, p, a);
  }

  /** Frees inode `c` and its blocks, then removes the one entry that names it. */
  method RemoveInode(vol: Volume, path: seq<Name>, p: nat, c: nat)
    requires Intact(vol.sup, vol.disk, vol.inodes) && path != [] && IsPath(path) && !IsDot(Last(path))
    requires p == Walk(Abstract(vol), 0, Parent(path)) && IsDirNode(Abstract(vol), p)
    requires p < |vol.inodes| && vol.inodes[p].used && vol.inodes[p].kind.Dir?
    requires c == Walk(Abstract(vol), 0, path) && c < |vol.inodes| && vol.inodes[c].used
    requires NoLinks(Entries(vol.disk, vol.inodes[c]))
    modifies vol
    ensures Intact(vol.sup, vol.disk, vol.inodes) && Removed(old(Abstract(vol)), Abstract(vol), path)
    ensures p < |vol.inodes| && vol.inodes[p].used && vol.inodes[p].kind.Dir?
    ensures Sketches(vol.inodes) == Sketches(old(vol.inodes))[c := NO_SKETCH]
  {
    var parent, name := vol.inodes[p], path[|path| - 1];
    ghost var d0, inodes := vol.disk, vol.inodes;
    ParentDir(vol.sup, vol.disk, vol.inodes, path, p);
    assert ViewOf(d0, inodes)[p] == Entries(d0, parent);
    NamedInode(d0, inodes, p, name, c);
    assert Holds(vol.sup, Bits(vol.sup, d0), Blocks(inodes[p]));
    FreeInode(vol, c);
    ghost var d1, inodes1 := vol.disk, vol.inodes;
    NodeKept(d0, d1, parent);
    var found, dir, b, j := DirRemoveEntry(vol, p, parent, name);
    EmptyNodes(d0);
    RemovedChild(vol.sup, d0, d1, inodes, path, p, c, dir, vol.disk, b, j, FREE_NODE);
    EntryCleared(vol.sup, d1, inodes1, p, name, dir, vol.disk, b, j);
    ConservedSame(vol.sup, d1, vol.disk, inodes1, p, dir);
    SketchesUpdate(inodes, c, FREE_NODE);
    SketchesUpdate(inodes1, p, dir);
    assert SketchOf(dir) == SketchOf(inodes1[p]) && SketchOf(FREE_NODE) == NO_SKETCH;
    assert Sketches(inodes1)[p := SketchOf(dir)] == Sketches(inodes1);
  }

  /** Frees an inode's blocks and clears its table entry. */
  method FreeInode(vol: Volume, c: nat)
    requires Intact(vol.sup, vol.disk, vol.inodes) && c < |vol.inodes| && vol.inodes[c].used
    modifies vol
    ensures Store(vol.sup, vol.disk, vol.inodes) && Conserved(vol.sup, vol.disk, vol.inodes)
    ensures vol.inodes == old(vol.inodes)[c := FREE_NODE]
    ensures Released(vol.sup, old(vol.disk), vol.disk, Blocks(old(vol.inodes)[c]))
    ensures Undisturbed(old(vol.disk), vol.disk, old(vol.inodes))
  {
    ghost var d0, inodes := vol.disk, vol.inodes;
    assert Holds(vol.sup, Bits(vol.sup, d0), Blocks(inodes[c]));
    EmptyNodes(d0);
    FuseAlloc.FreeExtents(vol, vol.inodes[c].extents);
    OwnedDrop(vol.sup, d0, vol.disk, inodes, c, FREE_NODE);
    assert Blocks(inodes[c]) == Blocks(FREE_NODE) + Blocks(inodes[c]);
    ConservedDrop(vol.sup, d0, vol.disk, Blocks(inodes[c]), inodes, c, FREE_NODE);
    vol.inodes := vol.inodes[c := FREE_NODE];
  }

  /** The inode a path named holds nothing any more; every other inode holds what it held. */
  ghost predicate SketchGone(d: seq<Block>, inodes: seq<Inode>, path: seq<Name>, inodes': seq<Inode>) {
    var c := Walk(AbsOf(d, inodes), 0, path);
    0 <= c < |inodes| && Sketches(inodes') == Sketches(inodes)[c := NO_SKETCH]
  }

  /** Removes a file. */
  method UnlinkFile(vol: Volume, path: seq<Name>) returns (ok: bool)
    requires Intact(vol.sup, vol.disk, vol.inodes) && IsPath(path)
    modifies vol
    ensures Intact(vol.sup, vol.disk, vol.inodes)
    ensures ok <==>
      path != [] && !IsDot(Last(path)) && IsFileNode(old(Abstract(vol)), Walk(old(Abstract(vol)), 0, path))
    ensures ok ==> Removed(old(Abstract(vol)), Abstract(vol), path)
    ensures ok ==> SketchGone(old(vol.disk), old(vol.inodes), path, vol.inodes)
    ensures !ok ==> vol.disk == old(vol.disk) && vol.inodes == old(vol.inodes)
  {
    if path == [] || path[|path| - 1] == DOT || path[|path| - 1] == DOTDOT {
      return false;
    }
    var c := LookupPath(vol, path);
    AbstractAt(vol.disk, vol.inodes, c);
    assert c >= 0 ==> Shaped(vol.inodes[c]);
    var p := ResolveParent(vol, path);
    if p < 0 || c < 0 || vol.inodes[c].kind != File {
      ParentNeeded(vol.sup, vol.disk, vol.inodes, path);
      return false;
    }
    RemoveInode(vol, path, p, c);
    return true;
  }

  /** Removes a directory that holds nothing but its dot entries. */
  method RemoveDir(vol: Volume, path: seq<Name>) returns (ok: bool)
    requires Intact(vol.sup, vol.disk, vol.inodes) && IsPath(path)
    modifies vol
    ensures Intact(vol.sup, vol.disk, vol.inodes)
    ensures ok <==>
      path != [] && !IsDot(Last(path)) && IsEmptyDir(old(Abstract(vol)), Walk(old(Abstract(vol)), 0, path))
    ensures ok ==> Removed(old(Abstract(vol)), Abstract(vol), path)
    ensures ok ==> SketchGone(old(vol.disk), old(vol.inodes), path, vol.inodes)
    ensures !ok ==> vol.disk == old(vol.disk) && vol.inodes == old(vol.inodes)
  {
    if path == [] || path[|path| - 1] == DOT || path[|path| - 1] == DOTDOT {
      return false;
    }
    var c := LookupPath(vol, path);
    AbstractAt(vol.disk, vol.inodes, c);
    var p := ResolveParent(vol, path);
    if p < 0 || c < 0 || vol.inodes[c].kind != Dir {
      ParentNeeded(vol.sup, vol.disk, vol.inodes, path);
      return false;
    }
    assert ViewOf(vol.disk, vol.inodes)[c] == Entries(vol.disk, vol.inodes[c]);
    assert Holds(vol.sup, Bits(vol.sup, vol.disk), Blocks(vol.inodes[c]));
    var empty := HoldsOnlyDots(vol, vol.inodes[c]);
    if !empty {
      return false;
    }
    OnlyDotsNoLinks(Entries(vol.disk, vol.inodes[c]));
    RemoveInode(vol, path, p, c);
    ghost var d, inodes := vol.disk, vol.inodes;
    if vol.inodes[p].nlink > 0 {
      SetLinks(vol, p, vol.inodes[p].nlink - 1);
      ConservedSame(vol.sup, d, vol.disk, inodes, p, vol.inodes[p]);
      SketchesUpdate(inodes, p, vol.inodes[p]);
      assert SketchOf(vol.inodes[p]) == SketchOf(inodes[p]);
      assert Sketches(inodes)[p := SketchOf(inodes[p])] == Sketches(inodes);
    }
    return true;
  }

  /** Scans every slot of a directory for a name other than the dots. */
  method HoldsOnlyDots(vol: Volume, dir: Inode) returns (empty: bool)
    requires dir.used && dir.kind.Dir? && Within(Blocks(dir), 0, |vol.disk|)
    ensures empty <==> NameMap(Entries(vol.disk, dir)).Keys <= {DOT, DOTDOT}
  {
    ghost var slots := Entries(vol.disk, dir);
    var blocks := BlockCount(dir.extents);
    for b := 0 to blocks
      invariant forall k :: 0 <= k < 16 * b ==> !Link(slots[k])
    {
      var phys := LogicalToPhysical(dir.extents, b);
      for j := 0 to 16
        invariant forall k :: 0 <= k < 16 * b + j ==> !Link(slots[k])
      {
        SlotInBlock(vol.disk, Blocks(dir), b, j);
        var s := SlotAt(vol.disk[phys], j);
        if s.name != [] && s.name != DOT && s.name != DOTDOT {
          assert Live(slots[16 * b + j]);
          return false;
        }
      }
    }
    NoLinksOnlyDots(slots);
    return true;
  }

  lemma NoLinksOnlyDots(slots: seq<DirSlot>)
    requires forall k :: 0 <= k < |slots| ==> !Link(slots[k])
    ensures NameMap(slots).Keys <= {DOT, DOTDOT}
  {
    forall n | n in NameMap(slots) ensures n in {DOT, DOTDOT} {
      assert Maps(NameMap(slots), n);
    }
  }
}
