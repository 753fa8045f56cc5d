/** The NXFS operations on paths and files (fs/nxfs.c), and what every one of
    them keeps. */
module NxfsOps {
  import opened Bitmap
  import opened Extents
  import opened NxfsAlloc
  import opened NxfsGrow
  import opened NxfsDir
  import opened NxfsState
  import opened NxfsTree
  import opened NxfsDirOps

  /** Exclusive block ownership and a well-formed directory tree. */
  ghost predicate Sound(sup: Super, disk: seq<Block>, inodes: seq<Inode>) {
    Store(sup, disk, inodes) && Tree(ViewOf(disk, inodes), inodes)
  }

  /** As `Sound`, and every inode in use but the root is reachable by an entry;
      `c` may be exempt while an operation is under way. */
  ghost predicate SoundBut(sup: Super, disk: seq<Block>, inodes: seq<Inode>, c: nat) {
    Sound(sup, disk, inodes) && LinksComplete(ViewOf(disk, inodes), inodes, c)
  }

  /** The invariant of a mounted volume between operations. */
  ghost predicate Valid(sup: Super, disk: seq<Block>, inodes: seq<Inode>) {
    SoundBut(sup, disk, inodes, 0)
  }

  /** Writing a fresh inode that holds exactly the blocks just taken. */
  lemma NewInode(sup: Super, d: seq<Block>, d': seq<Block>, inodes: seq<Inode>, c: nat, inode: Inode, added: seq<nat>)
    requires Valid(sup, d, inodes) && c < |inodes| && !inodes[c].used
    requires Took(sup, d, d', added) && inode.used && Shaped(inode) && Blocks(inode) == added
    ensures SoundBut(sup, d', inodes[c := inode], c) && c != 0
    ensures Unlinked(ViewOf(d', inodes[c := inode]), c)
    ensures AbsOf(d', inodes[c := inode]) == AbsOf(d, inodes)[c := NodeOf(d', inode)]
    ensures inode.kind.Dir? ==> Entries(d', inode) == FreeSlots(16 * |added|)
  {
    assert Blocks(inode) == Blocks(inodes[c]) + added;
    OwnedGrow(sup, d, d', added, inodes, c, inode);
    TookUndisturbed(sup, d, d', added, inodes);
    AbsStep(d, d', inodes, c, inode);
    NewEntries(sup, d, d', inode, added);
    assert ViewOf(d, inodes)[c] == [];
    NewInTree(ViewOf(d, inodes), inodes, c, inode, Entries(d', inode));
  }

  /** A fresh directory has only free slots. */
  lemma NewEntries(sup: Super, d: seq<Block>, d': seq<Block>, inode: Inode, added: seq<nat>)
    requires Took(sup, d, d', added) && Blocks(inode) == added
    ensures Entries(d', inode) == if inode.kind.Dir? then FreeSlots(16 * |added|) else []
  {
    forall i | 0 <= i < |added|
      ensures 0 <= added[i] < |d'| && d'[added[i]] == ZeroBlock()
    {
      assert added[i] in added;
    }
    SlotsGrown(d, d', [], added);
    assert [] + added == added && Slots(d, []) + FreeSlots(16 * |added|) == FreeSlots(16 * |added|);
  }

  lemma NewInTree(v: View, inodes: seq<Inode>, c: nat, inode: Inode, slots: seq<DirSlot>)
    requires Tree(v, inodes) && LinksComplete(v, inodes, 0) && c < |v| && !inodes[c].used && v[c] == [] && inode.used
    requires forall k :: 0 <= k < |slots| ==> slots[k] == FREE_SLOT
    ensures Tree(v[c := slots], inodes[c := inode]) && LinksComplete(v[c := slots], inodes[c := inode], c)
    ensures Unlinked(v[c := slots], c) && c != 0
  {
    FreeIsUnlinked(v, inodes, c);
    TreeInode(v, inodes, c, inode, slots);
    CompleteAfterNew(v, inodes, c, inode, slots);
  }

  lemma CompleteAfterNew(v: View, inodes: seq<Inode>, c: nat, inode: Inode, slots: seq<DirSlot>)
    requires LinksComplete(v, inodes, 0) && |v| == |inodes| && c < |v| && v[c] == []
    ensures LinksComplete(v[c := slots], inodes[c := inode], c)
  {
    forall x | 0 < x < |inodes| && x != c && inodes[x].used ensures Linked(v[c := slots], x) {
      assert Linked(v, x);
      LinkedKept(v, v[c := slots], x);
    }
  }

  /** The bitmap lost exactly the blocks `gone`. */
  ghost predicate Released(sup: Super, d: seq<Block>, d': seq<Block>, gone: seq<nat>) {
    && OnDisk(sup, d) && OnDisk(sup, d') && OnlyBitmap(sup, d, d')
    && forall b :: 0 <= b < sup.totalBlocks ==> Bits(sup, d')[b] == (Bits(sup, d)[b] && b !in gone)
  }

  lemma ReleasedMore(sup: Super, d: seq<Block>, d1: seq<Block>, d2: seq<Block>, gone: seq<nat>, start: nat, len: nat)
    requires Released(sup, d, d1, gone) && OnDisk(sup, d2) && OnlyBitmap(sup, d1, d2)
    requires Bits(sup, d2) == if len > 0 then Marked(Bits(sup, d1), start, len, false) else Bits(sup, d1)
    ensures Released(sup, d, d2, gone + Run(start, len))
  {
    forall b | 0 <= b < sup.totalBlocks
      ensures Bits(sup, d2)[b] == (Bits(sup, d)[b] && b !in gone + Run(start, len))
    {
      assert b in Run(start, len) <==> start <= b < start + len by {
        if start <= b < start + len {
          assert Run(start, len)[b - start] == b;
        }
      }
    }
  }

  /** Freeing an inode that no entry names, together with its blocks. */
  lemma DropInode(sup: Super, d: seq<Block>, d': seq<Block>, inodes: seq<Inode>, c: nat, free: Inode)
    requires !free.used && Shaped(free)
    requires SoundBut(sup, d, inodes, c) && 0 < c < |inodes| && Unlinked(ViewOf(d, inodes), c)
    requires Released(sup, d, d', Blocks(inodes[c]))
    requires NoLinks(Entries(d, inodes[c]))
    ensures Valid(sup, d', inodes[c := free])
    ensures AbsOf(d', inodes[c := free]) == AbsOf(d, inodes) - {c}
  {
    var v := ViewOf(d, inodes);
    OwnedDrop(sup, d, d', inodes, c, free);
    AbsStep(d, d', inodes, c, free);
    assert Entries(d', free) == [];
    TreeFree(v, inodes, c, free);
    CompleteAfterFree(v, inodes, c, free);
  }

  /** Giving up the blocks `gone` and clearing their bits leaves none of them
      stray. */
  lemma StraysDrop(sup: Super, d0: seq<Block>, d1: seq<Block>, gone: seq<nat>, inodes: seq<Inode>, p: nat, inode: Inode)
    requires Store(sup, d0, inodes) && Released(sup, d0, d1, gone) && p < |inodes|
    requires Blocks(inodes[p]) == Blocks(inode) + gone
    ensures Strays(sup, d1, inodes[p := inode]) == Strays(sup, d0, inodes)
  {
    forall b: nat | b < sup.totalBlocks
      ensures b in Strays(sup, d1, inodes[p := inode]) <==> b in Strays(sup, d0, inodes)
    {
      ClaimedUpdate(inodes, p, inode, b);
      if b in gone {
        GoneElsewhere(sup, d0, inodes, p, inode, gone, b);
        assert b in Blocks(inodes[p]);
      }
    }
  }

  lemma CompleteAfterFree(v: View, inodes: seq<Inode>, c: nat, free: Inode)
    requires !free.used && LinksComplete(v, inodes, c) && |v| == |inodes| && c < |v|
    requires NoLinks(v[c])
    ensures LinksComplete(v[c := []], inodes[c := free], 0)
  {
    forall x | 0 < x < |inodes| && x != c && inodes[x].used ensures Linked(v[c := []], x) {
      assert Linked(v, x);
      LinkedKept(v, v[c := []], x);
    }
  }

  /** Adding an entry to a directory keeps the tree well formed, provided it is
      "." or "..", or the first entry for its inode. */
  lemma EntryKeepsTree(sup: Super, d: seq<Block>, inodes: seq<Inode>, d': seq<Block>, inodes': seq<Inode>, p: nat,
                       s: DirSlot, k: nat, n: nat, c: nat)
    requires SoundBut(sup, d, inodes, c) && Store(sup, d', inodes') && EntryAdded(d, inodes, d', inodes', p, s, k, n)
    requires inodes[p].used
    requires Link(s) ==> s.ino == c && 0 < c < |inodes| && inodes[c].used && c != p && Unlinked(ViewOf(d, inodes), c)
    ensures Sound(sup, d', inodes')
    ensures if Link(s) then LinksComplete(ViewOf(d', inodes'), inodes', 0)
            else LinksComplete(ViewOf(d', inodes'), inodes', c)
    ensures !Link(s) && Unlinked(ViewOf(d, inodes), c) ==> Unlinked(ViewOf(d', inodes'), c)
  {
    var v := ViewOf(d, inodes);
    var grown := v[p := v[p] + FreeSlots(n)];
    TreeGrow(v, inodes, p, n);
    NameMapGrow(v[p], n);
    TreeAdd(grown, inodes, p, k, s);
    LinksValidAdd(grown, inodes, p, k, s);
    var w := grown[p := grown[p][k := s]];
    assert w == ViewOf(d', inodes');
    TreeInode(w, inodes, p, inodes'[p], w[p]);
    assert w[p := w[p]] == w && inodes[p := inodes'[p]] == inodes';
    CompleteAfterAdd(v, w, inodes, p, k, s, c);
  }

  lemma CompleteAfterAdd(v: View, w: View, inodes: seq<Inode>, p: nat, k: nat, s: DirSlot, c: nat)
    requires LinksComplete(v, inodes, c) && |v| == |w| == |inodes| && p < |v| && k < |w[p]| && w[p][k] == s
    requires |w[p]| >= |v[p]| && (k < |v[p]| ==> !Live(v[p][k]))
    requires forall i :: 0 <= i < |v| && i != p ==> w[i] == v[i]
    requires forall m :: 0 <= m < |v[p]| && m != k ==> w[p][m] == v[p][m]
    requires Link(s) ==> s.ino == c
    ensures LinksComplete(w, inodes, if Link(s) then 0 else c)
  {
    forall x | 0 < x < |inodes| && x != (if Link(s) then 0 else c) && inodes[x].used ensures Linked(w, x) {
      if x == c {
        assert Link(w[p][k]);
      } else {
        assert Linked(v, x);
        LinkedKept(v, w, x);
      }
    }
  }

  ghost predicate NoLinks(slots: seq<DirSlot>) {
    forall k {:trigger Link(slots[k])} :: 0 <= k < |slots| ==> !Link(slots[k])
  }

  lemma OnlyDotsNoLinks(slots: seq<DirSlot>)
    requires NameMap(slots).Keys <= {DOT, DOTDOT}
    ensures NoLinks(slots)
  {
    forall k | 0 <= k < |slots| ensures !Link(slots[k]) {
      assert Live(slots[k]) ==> slots[k].name in NameMap(slots).Keys;
    }
  }

  /** The tree without the entry in slot `k` of directory `p` and without the
      inode it names. */
  lemma TreeWithout(v: View, inodes: seq<Inode>, p: nat, k: nat, c: nat, free: Inode, inode: Inode)
    requires !free.used && Tree(v, inodes) && LinksComplete(v, inodes, 0)
    requires p < |v| && inodes[p].used && inode.used && inode.kind == inodes[p].kind
    requires 0 < c < |v| && c != p && k < |v[p]| && Link(v[p][k]) && v[p][k].ino == c && NoLinks(v[c])
    ensures Tree(v[c := []][p := v[p][k := FREE_SLOT]], inodes[c := free][p := inode])
    ensures LinksComplete(v[c := []][p := v[p][k := FREE_SLOT]], inodes[c := free][p := inode], 0)
  {
    var w := v[p := v[p][k := FREE_SLOT]];
    TreeRemove(v, inodes, p, k);
    TreeFree(w, inodes, c, free);
    TreeInode(w[c := []], inodes[c := free], p, inode, w[p]);
    assert w[c := []][p := w[p]] == v[c := []][p := w[p]];
    CompleteWithout(v, inodes, p, k, c, free, inode);
  }

  lemma CompleteWithout(v: View, inodes: seq<Inode>, p: nat, k: nat, c: nat, free: Inode, inode: Inode)
    requires !free.used && LinksComplete(v, inodes, 0) && |v| == |inodes| && p < |v| && inodes[p].used
    requires c < |v| && c != p && k < |v[p]| && v[p][k].ino == c && NoLinks(v[c])
    ensures LinksComplete(v[c := []][p := v[p][k := FREE_SLOT]], inodes[c := free][p := inode], 0)
  {
    var w := v[c := []][p := v[p][k := FREE_SLOT]];
    forall x | 0 < x < |inodes| && x != c && inodes[x].used ensures Linked(w, x) {
      assert Linked(v, x);
      LinkedKept(v, w, x);
    }
  }

  /** Removing the only entry for inode `c`, which is already free, restores the
      invariant. */
  lemma EntryGoneKeepsTree(sup: Super, d0: seq<Block>, d1: seq<Block>, inodes: seq<Inode>, d2: seq<Block>,
                           inodes2: seq<Inode>, p: nat, name: Name, k: nat, c: nat, free: Inode)
    requires !free.used && Shaped(free) && Valid(sup, d0, inodes) && 0 < c < |inodes| && c != p && p < |inodes|
    requires inodes[p].used
    requires Released(sup, d0, d1, Blocks(inodes[c])) && NoLinks(Entries(d0, inodes[c]))
    requires Store(sup, d2, inodes2) && EntryRemoved(d1, inodes[c := free], d2, inodes2, p, name, k)
    requires !IsDot(name) && name in NameMap(Entries(d0, inodes[p])) && NameMap(Entries(d0, inodes[p]))[name] == c
    ensures Valid(sup, d2, inodes2)
    ensures AbsOf(d2, inodes2) == (AbsOf(d0, inodes) - {c})[p := DirNode(NameMap(Entries(d0, inodes[p])) - {name})]
  {
    var v := ViewOf(d0, inodes);
    OwnedDrop(sup, d0, d1, inodes, c, free);
    AbsStep(d0, d1, inodes, c, free);
    NodeKept(d0, d1, inodes[p]);
    assert Entries(d1, free) == [] && Entries(d1, inodes[p]) == v[p];
    NameMapAt(v[p], k);
    assert Link(v[p][k]) && v[p][k].ino == c;
    TreeWithout(v, inodes, p, k, c, free, inodes2[p]);
    assert inodes2 == inodes[c := free][p := inodes2[p]];
  }

  method FreeAllExtents(vol: Volume, es: seq<Extent>) returns (ok: bool)
    requires OnDisk(vol.sup, vol.disk) && Within(Phys(es), 0, vol.sup.totalBlocks)
    modifies vol`disk
    ensures ok && Released(vol.sup, old(vol.disk), vol.disk, Phys(es))
  {
    for i := 0 to |es|
      invariant Released(vol.sup, old(vol.disk), vol.disk, Phys(es[..i]))
    {
      PhysSnoc(es, i);
      PhysSplit(es, i + 1);
      if es[i].len != 0 {
        assert Run(es[i].start, es[i].len)[es[i].len - 1] == Phys(es)[|Phys(es[..i])| + es[i].len - 1];
        ghost var before := vol.disk;
        var freed := FreeExtent(vol, es[i].start, es[i].len);
        ReleasedMore(vol.sup, old(vol.disk), before, vol.disk, Phys(es[..i]), es[i].start, es[i].len);
        if !freed {
          return false;
        }
      } else {
        assert Phys(es[..i]) + Run(es[i].start, 0) == Phys(es[..i]);
      }
    }
    assert es[..|es|] == es;
    return true;
  }

  method FindFreeInode(vol: Volume) returns (ino: int)
    ensures -1 <= ino < |vol.inodes|
    ensures ino >= 0 ==> !vol.inodes[ino].used && forall j :: 0 <= j < ino ==> vol.inodes[j].used
    ensures ino < 0 ==> forall j :: 0 <= j < |vol.inodes| ==> vol.inodes[j].used
  {
    for i := 0 to |vol.inodes|
      invariant forall j :: 0 <= j < i ==> vol.inodes[j].used
    {
      if !vol.inodes[i].used {
        return i;
      }
    }
    return -1;
  }

  ghost function Abstract(vol: Volume): Abs
    reads vol
  {
    AbsOf(vol.disk, vol.inodes)
  }

  /** One step of a path walk: the inode in use that `name` leads to. */
  method LookupChild(vol: Volume, ino: nat, name: Name) returns (child: int)
    requires Sound(vol.sup, vol.disk, vol.inodes) && ino in Abstract(vol) && name != []
    ensures child == Child(Abstract(vol), ino, name)
  {
    AbstractAt(vol.disk, vol.inodes, ino);
    var dir := vol.inodes[ino];
    if |name| > 27 || dir.kind != Dir {
      return -1;
    }
    assert Shaped(dir) && Holds(vol.sup, Bits(vol.sup, vol.disk), Blocks(dir));
    assert ViewOf(vol.disk, vol.inodes)[ino] == Entries(vol.disk, dir);
    FoundIsMapped(Entries(vol.disk, dir), name);
    var found, c, _, _ := FindDirEntrySlot(vol, dir.extents, name, false);
    AbstractAt(vol.disk, vol.inodes, c);
    if !found || c >= |vol.inodes| || !vol.inodes[c].used {
      return -1;
    }
    return c;
  }

  /** Resolves a path from the root. */
  method LookupPath(vol: Volume, path: seq<Name>) returns (ino: int)
    requires Sound(vol.sup, vol.disk, vol.inodes)
    requires forall i :: 0 <= i < |path| ==> path[i] != []
    ensures ino == Walk(Abstract(vol), 0, path)
    ensures ino >= 0 ==> ino in Abstract(vol)
  {
    ghost var a := Abstract(vol);
    AbstractAt(vol.disk, vol.inodes, 0);
    ino := 0;
    assert path[0..] == path;
    for i := 0 to |path|
      invariant ino >= 0 && ino in a
      invariant Walk(a, 0, path) == Walk(a, ino, path[i..])
    {
      assert path[i..][0] == path[i] && path[i..][1..] == path[i + 1..];
      var child := LookupChild(vol, ino, path[i]);
      if child < 0 {
        return -1;
      }
      ino := child;
    }
  }
}
