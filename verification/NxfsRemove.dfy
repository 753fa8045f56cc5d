/** The NXFS operations that take from the directory tree (fs/nxfs.c), unlink and
    rmdir, each as a step of the abstract file system, and the one way of removing a
    directory that breaks block ownership. */
module NxfsRemove {
  import opened Bitmap
  import opened Extents
  import opened Contents
  import opened NxfsAlloc
  import opened NxfsGrow
  import opened NxfsDir
  import opened NxfsState
  import opened NxfsTree
  import opened NxfsLayout
  import opened NxfsDirOps
  import opened NxfsOps
  import opened NxfsPaths

  /** What a successful removal of inode `c` by `path` does. */
  ghost predicate Removed(a: Abs, a': Abs, path: seq<Name>) {
    && path != []
    && var p := Walk(a, 0, Parent(path));
    && var c := Walk(a, 0, path);
    && IsDirNode(a, p) && c in a && c != p && !IsDot(Last(path)) && Last(path) in a[p].entries
    && a' == (a - {c})[p := DirNode(a[p].entries - {Last(path)})]
  }

  /** What removing a directory by its own "." leaves: the inode with all its blocks is
      back in the table, only the "." is gone, and none of its blocks is marked. */
  ghost predicate Undone(sup: Super, d: seq<Block>, inodes: seq<Inode>, d': seq<Block>, inodes': seq<Inode>, c: nat) {
    && OnDisk(sup, d) && OnDisk(sup, d') && c < |inodes| == |inodes'| && inodes[c].used
    && inodes' == inodes[c := inodes[c].(size := inodes'[c].size, nlink := inodes'[c].nlink)]
    && Bits(sup, d') == Without(Bits(sup, d), Blocks(inodes[c])) && Blocks(inodes[c]) != []
    && IsDirNode(AbsOf(d, inodes), c)
    && AbsOf(d', inodes') == AbsOf(d, inodes)[c := DirNode(AbsOf(d, inodes)[c].entries - {DOT})]
  }

  lemma UndoneIsInvalid(sup: Super, d: seq<Block>, inodes: seq<Inode>, d': seq<Block>, inodes': seq<Inode>, c: nat)
    requires Undone(sup, d, inodes, d', inodes', c)
    ensures !Store(sup, d', inodes')
  {
    var blocks := Blocks(inodes[c]);
    assert Blocks(inodes'[c]) == blocks && blocks[0] in blocks;
    assert !Holds(sup, Bits(sup, d'), Blocks(inodes'[c]));
  }

  /** Frees inode `c` and its blocks, then removes the entry of that name from what its
      parent directory was before. */
  method RemoveNode(vol: Volume, path: seq<Name>, p: nat, c: nat)
    requires Valid(vol.sup, vol.disk, vol.inodes) && path != [] && IsPath(path)
    requires p == Walk(Abstract(vol), 0, Parent(path)) && IsDirNode(Abstract(vol), p)
    requires p < |vol.inodes| && vol.inodes[p].used && vol.inodes[p].kind.Dir?
    requires c == Walk(Abstract(vol), 0, path) && c < |vol.inodes| && vol.inodes[c].used
    requires NoLinks(Entries(vol.disk, vol.inodes[c])) && (IsDot(Last(path)) ==> Last(path) == DOT && c == p)
    modifies vol
    ensures !IsDot(Last(path)) ==> Valid(vol.sup, vol.disk, vol.inodes)
    ensures !IsDot(Last(path)) ==> Removed(old(Abstract(vol)), Abstract(vol), path) && Stray(vol) == old(Stray(vol))
    ensures !IsDot(Last(path)) ==>
      LayoutOf(vol.sup, vol.disk, vol.inodes) == Dropped(LayoutOf(vol.sup, old(vol.disk), old(vol.inodes)), c)
    ensures IsDot(Last(path)) ==> Undone(vol.sup, old(vol.disk), old(vol.inodes), vol.disk, vol.inodes, c)
    ensures p < |vol.inodes| && vol.inodes[p].used && vol.inodes[p].kind.Dir?
  {
    var parent, name := vol.inodes[p], path[|path| - 1];
    ghost var d0, inodes := vol.disk, vol.inodes;
    ParentDir(vol.sup, vol.disk, vol.inodes, path, p);
    assert Holds(vol.sup, Bits(vol.sup, d0), Blocks(inodes[c])) && Holds(vol.sup, Bits(vol.sup, d0), Blocks(parent));
    var _ := FreeAllExtents(vol, vol.inodes[c].extents);
    ghost var d1 := vol.disk;
    OwnedDrop(vol.sup, d0, d1, inodes, c, FREE_INODE);
    NodeKept(d0, d1, parent);
    vol.inodes := vol.inodes[c := FREE_INODE];
    var found, dir, b, j := DirRemoveEntry(vol, p, parent, name);
    if IsDot(name) {
      RemovedItself(vol.sup, d0, d1, inodes, c, dir, vol.disk, b, j);
    } else {
      RemovedChild(vol.sup, d0, d1, inodes, path, p, c, dir, vol.disk, b, j, FREE_INODE);
    }
  }

  lemma RemovedChild(sup: Super, d0: seq<Block>, d1: seq<Block>, inodes: seq<Inode>, path: seq<Name>, p: nat, c: nat,
                     dir: Inode, d2: seq<Block>, b: nat, j: nat, free: Inode)
    requires !free.used && Shaped(free)
    requires Valid(sup, d0, inodes) && path != [] && Last(path) != [] && !IsDot(Last(path))
    requires p == Walk(AbsOf(d0, inodes), 0, Parent(path)) && IsDirNode(AbsOf(d0, inodes), p)
    requires p < |inodes| && inodes[p].used && inodes[p].kind.Dir?
    requires c == Walk(AbsOf(d0, inodes), 0, path) && c < |inodes| && inodes[c].used
    requires NoLinks(Entries(d0, inodes[c])) && Released(sup, d0, d1, Blocks(inodes[c]))
    requires Store(sup, d1, inodes[c := free]) && Entries(d1, inodes[p]) == Entries(d0, inodes[p])
    requires SlotCleared(d1, inodes[p], Last(path), d2, b, j) && dir == inodes[p].(size := dir.size)
    ensures var inodes' := inodes[c := free][p := dir];
            && Valid(sup, d2, inodes') && Removed(AbsOf(d0, inodes), AbsOf(d2, inodes'), path)
            && Strays(sup, d2, inodes') == Strays(sup, d0, inodes)
            && LayoutOf(sup, d2, inodes') == Dropped(LayoutOf(sup, d0, inodes), c)
  {
    var name, mid := Last(path), inodes[c := free];
    ParentDir(sup, d0, inodes, path, p);
    assert ViewOf(d0, inodes)[p] == Entries(d0, inodes[p]);
    NamedInode(d0, inodes, p, name, c);
    assert [] + Phys(inodes[c].extents) == Blocks(inodes[c]);
    StraysDrop(sup, d0, d1, Phys(inodes[c].extents), inodes, c, free);
    EntryCleared(sup, d1, mid, p, name, dir, d2, b, j);
    EntryGoneKeepsTree(sup, d0, d1, inodes, d2, mid[p := dir], p, name, 16 * b + j, c, free);
    DroppedLaid(sup, d0, d1, inodes, p, c, dir, d2, free);
  }

  lemma DroppedLaid(sup: Super, d0: seq<Block>, d1: seq<Block>, inodes: seq<Inode>, p: nat, c: nat, dir: Inode,
                    d2: seq<Block>, free: Inode)
    requires !free.used && Shaped(free)
    requires p < |inodes| && c < |inodes| && c != p && dir == inodes[p].(size := dir.size)
    requires Released(sup, d0, d1, Blocks(inodes[c])) && OnDisk(sup, d2) && Bits(sup, d2) == Bits(sup, d1)
    ensures LayoutOf(sup, d2, inodes[c := free][p := dir]) == Dropped(LayoutOf(sup, d0, inodes), c)
  {
    var mid := inodes[c := free];
    OutlinesUpdate(inodes, c, free);
    OutlinesUpdate(mid, p, dir);
    assert OutlineOf(dir) == OutlineOf(mid[p]) && OutlineOf(free) == UNUSED;
    assert Outlines(mid)[p := OutlineOf(dir)] == Outlines(mid);
    assert Bits(sup, d2) == Without(Bits(sup, d0), Blocks(inodes[c]));
  }

  /** The directory's inode, as it was before its blocks were freed, is written back. */
  lemma RemovedItself(sup: Super, d0: seq<Block>, d1: seq<Block>, inodes: seq<Inode>, c: nat, dir: Inode,
                      d2: seq<Block>, b: nat, j: nat)
    requires Valid(sup, d0, inodes) && c < |inodes| && inodes[c].used && inodes[c].kind.Dir?
    requires Released(sup, d0, d1, Blocks(inodes[c])) && Undisturbed(d0, d1, inodes)
    requires SlotCleared(d1, inodes[c], DOT, d2, b, j) && dir == inodes[c].(size := dir.size)
    ensures Undone(sup, d0, inodes, d2, inodes[c := FREE_INODE][c := dir], c)
  {
    var x := Blocks(inodes[c])[b];
    assert Holds(sup, Bits(sup, d0), Blocks(inodes[c]));
    BitsKept(sup, d1, d2);
    assert Bits(sup, d2) == Without(Bits(sup, d0), Blocks(inodes[c]));
    assert inodes[c := FREE_INODE][c := dir] == inodes[c := dir];
    assert ViewOf(d0, inodes)[c] == Entries(d0, inodes[c]);
    UndoneEntries(d0, d1, d2, inodes[c], dir, b, j);
    forall i {:trigger Blocks(inodes[i])} | 0 <= i < |inodes| && i != c
      ensures Within(Blocks(inodes[i]), 0, |d0|) && SameOn(d0, d2, Blocks(inodes[i]))
    {
      assert SameOn(d0, d1, Blocks(inodes[i])) && Disjoint(Blocks(inodes[i]), Blocks(inodes[c]));
      assert x in Blocks(inodes[c]);
      assert forall m :: 0 <= m < |Blocks(inodes[i])| ==> Blocks(inodes[i])[m] in Blocks(inodes[i]);
    }
    AbsStep(d0, d2, inodes, c, dir);
    AbstractAt(d0, inodes, c);
  }

  lemma UndoneEntries(d0: seq<Block>, d1: seq<Block>, d2: seq<Block>, dir: Inode, dir': Inode, b: nat, j: nat)
    requires dir.kind.Dir? && Within(Blocks(dir), 0, |d0|) && SameOn(d0, d1, Blocks(dir)) && NoDup(Blocks(dir))
    requires UniqueNames(Entries(d0, dir)) && SlotCleared(d1, dir, DOT, d2, b, j) && dir' == dir.(size := dir'.size)
    ensures NameMap(Entries(d2, dir')) == NameMap(Entries(d0, dir)) - {DOT}
  {
    NodeKept(d0, d1, dir);
    SlotsUpdated(d1, Blocks(dir), b, j, FREE_SLOT);
    assert Entries(d2, dir') == Entries(d0, dir)[16 * b + j := FREE_SLOT];
    NameMapRemove(Entries(d0, dir), 16 * b + j);
  }

  /** The inode an entry other than a dot names is neither the root nor the
      directory itself. */
  lemma NamedInode(d: seq<Block>, inodes: seq<Inode>, p: nat, name: Name, c: nat)
    requires Tree(ViewOf(d, inodes), inodes) && p < |inodes| && !IsDot(name) && name != []
    requires name in NameMap(Entries(d, inodes[p])) && NameMap(Entries(d, inodes[p]))[name] == c
    ensures 0 < c < |inodes| && c != p
  {
    var v := ViewOf(d, inodes);
    assert Maps(NameMap(v[p]), name);
    var k :| 0 <= k < |v[p]| && Live(v[p][k]) && v[p][k].name == name && v[p][k].ino == c;
    assert Link(v[p][k]);
  }

  /** Where things are after a removal: the inode and its blocks are free, every other
      inode keeps its blocks. */
  ghost predicate RemoveLaid(sup: Super, d: seq<Block>, inodes: seq<Inode>, path: seq<Name>, l': Layout)
    requires OnDisk(sup, d)
  {
    var c := Walk(AbsOf(d, inodes), 0, path);
    0 <= c < |inodes| && l' == Dropped(LayoutOf(sup, d, inodes), c)
  }

  /** Removes a file. */
  method UnlinkPath(vol: Volume, path: seq<Name>) returns (ok: bool)
    requires Valid(vol.sup, vol.disk, vol.inodes) && Dotted(Abstract(vol)) && IsPath(path)
    modifies vol
    ensures Valid(vol.sup, vol.disk, vol.inodes)
    ensures ok <==> path != [] && IsFileNode(old(Abstract(vol)), Walk(old(Abstract(vol)), 0, path))
    ensures ok ==> Removed(old(Abstract(vol)), Abstract(vol), path)
    ensures Stray(vol) == old(Stray(vol))
    ensures !ok ==> vol.disk == old(vol.disk) && vol.inodes == old(vol.inodes)
    ensures ok ==> RemoveLaid(vol.sup, old(vol.disk), old(vol.inodes), path, LayoutOf(vol.sup, vol.disk, vol.inodes))
  {
    if path == [] {
      return false;
    }
    var p := ResolveParent(vol, path);
    var c := LookupPath(vol, path);
    AbstractAt(vol.disk, vol.inodes, c);
    AbstractAt(vol.disk, vol.inodes, 0);
    assert c >= 0 ==> Shaped(vol.inodes[c]);
    if p < 0 || c < 0 || vol.inodes[c].kind != File {
      ParentNeeded(vol.sup, vol.disk, vol.inodes, path);
      return false;
    }
    if IsDot(Last(path)) {
      DotLeads(Abstract(vol), path);
    }
    RemoveNode(vol, path, p, c);
    return true;
  }

  /** A path that leads anywhere has a directory as its parent. */
  lemma ParentNeeded(sup: Super, d: seq<Block>, inodes: seq<Inode>, path: seq<Name>)
    requires Sound(sup, d, inodes) && path != []
    ensures Walk(AbsOf(d, inodes), 0, path) >= 0 ==>
      IsDirNode(AbsOf(d, inodes), Walk(AbsOf(d, inodes), 0, Parent(path)))
  {
    AbstractAt(d, inodes, 0);
    WalkSnoc(AbsOf(d, inodes), 0, Parent(path), Last(path));
    assert Parent(path) + [Last(path)] == path;
  }

  /** A directory that can be removed: not the root, and nothing in it. */
  ghost predicate Removable(a: Abs, path: seq<Name>) {
    path != [] && IsEmptyDir(a, Walk(a, 0, path)) && Walk(a, 0, path) != 0
  }

  /** It is named by its own ".". */
  ghost predicate Harmful(a: Abs, path: seq<Name>) { Removable(a, path) && Last(path) == DOT }

  /** Removes a directory that holds nothing but its dot entries; one named by its own "."
      is not removed, but loses its blocks all the same. */
  method RmdirPath(vol: Volume, path: seq<Name>) returns (ok: bool)
    requires Valid(vol.sup, vol.disk, vol.inodes) && Dotted(Abstract(vol)) && IsPath(path)
    modifies vol
    ensures ok <==> Removable(old(Abstract(vol)), path)
    ensures Valid(vol.sup, vol.disk, vol.inodes) <==> !Harmful(old(Abstract(vol)), path)
    ensures var c := Walk(old(Abstract(vol)), 0, path);
            Harmful(old(Abstract(vol)), path) ==>
              c >= 0 && Undone(vol.sup, old(vol.disk), old(vol.inodes), vol.disk, vol.inodes, c)
    ensures ok && !Harmful(old(Abstract(vol)), path) ==> Removed(old(Abstract(vol)), Abstract(vol), path)
    ensures !Harmful(old(Abstract(vol)), path) ==> Stray(vol) == old(Stray(vol))
    ensures !ok ==> vol.disk == old(vol.disk) && vol.inodes == old(vol.inodes)
    ensures ok && !Harmful(old(Abstract(vol)), path) ==>
      RemoveLaid(vol.sup, old(vol.disk), old(vol.inodes), path, LayoutOf(vol.sup, vol.disk, vol.inodes))
  {
    if path == [] {
      return false;
    }
    var p := ResolveParent(vol, path);
    var c := LookupPath(vol, path);
    AbstractAt(vol.disk, vol.inodes, c);
    AbstractAt(vol.disk, vol.inodes, 0);
    if p < 0 || c < 0 || vol.inodes[c].kind != Dir || c == 0 {
      ParentNeeded(vol.sup, vol.disk, vol.inodes, path);
      return false;
    }
    assert ViewOf(vol.disk, vol.inodes)[c] == Entries(vol.disk, vol.inodes[c]);
    assert Holds(vol.sup, Bits(vol.sup, vol.disk), Blocks(vol.inodes[c]));
    var empty := DirIsEmpty(vol, vol.inodes[c]);
    if !empty {
      return false;
    }
    if IsDot(Last(path)) {
      DotLeads(Abstract(vol), path);
    }
    OnlyDotsNoLinks(Entries(vol.disk, vol.inodes[c]));
    RemoveNode(vol, path, p, c);
    UnlinkParent(vol, p, c, old(vol.disk), old(vol.inodes), IsDot(Last(path)));
    return true;
  }

  /** One link less on the parent of a directory that was removed. */
  method UnlinkParent(vol: Volume, p: nat, ghost c: nat, ghost d: seq<Block>, ghost inodes: seq<Inode>,
                      ghost harm: bool)
    requires p < |vol.inodes| && vol.inodes[p].used && vol.inodes[p].kind.Dir?
    requires harm ==> c == p && Undone(vol.sup, d, inodes, vol.disk, vol.inodes, c)
    requires !harm ==> Valid(vol.sup, vol.disk, vol.inodes)
    modifies vol
    ensures harm ==> Undone(vol.sup, d, inodes, vol.disk, vol.inodes, c) && !Valid(vol.sup, vol.disk, vol.inodes)
    ensures !harm ==> Valid(vol.sup, vol.disk, vol.inodes) && Abstract(vol) == old(Abstract(vol))
    ensures !harm ==> Stray(vol) == old(Stray(vol))
    ensures !harm ==> LayoutOf(vol.sup, vol.disk, vol.inodes) == LayoutOf(vol.sup, old(vol.disk), old(vol.inodes))
  {
    if vol.inodes[p].nlink != 0 {
      var parent := vol.inodes[p].(nlink := vol.inodes[p].nlink - 1);
      if harm {
        UndoneLinks(vol.sup, d, inodes, vol.disk, vol.inodes, c, parent);
      } else {
        LinksSet(vol.sup, vol.disk, vol.inodes, p, parent);
      }
      OutlinesUpdate(vol.inodes, p, parent);
      assert OutlineOf(parent) == OutlineOf(vol.inodes[p]);
      assert Outlines(vol.inodes)[p := OutlineOf(vol.inodes[p])] == Outlines(vol.inodes);
      vol.inodes := vol.inodes[p := parent];
    }
    if harm {
      UndoneIsInvalid(vol.sup, d, inodes, vol.disk, vol.inodes, c);
    }
  }

  lemma UndoneLinks(sup: Super, d: seq<Block>, inodes: seq<Inode>, d': seq<Block>, inodes': seq<Inode>, c: nat,
                    inode: Inode)
    requires Undone(sup, d, inodes, d', inodes', c) && inode == inodes'[c].(nlink := inode.nlink)
    ensures Undone(sup, d, inodes, d', inodes'[c := inode], c)
  {
    AbstractAt(d, inodes, c);
    AbstractAt(d', inodes', c);
    assert NodeOf(d', inode) == NodeOf(d', inodes'[c]);
    var a := AbsOf(d', inodes');
    forall i {:trigger Has(a, i)}
      ensures Has(a, i) <==> 0 <= i < |inodes'| && inodes'[c := inode][i].used
      ensures Has(a, i) ==> a[i] == NodeOf(d', inodes'[c := inode][i])
    {
      AbstractAt(d', inodes', i);
    }
    AbsIs(d', inodes'[c := inode], a);
  }
}
