/** The NXFS operations that add to the directory tree (fs/nxfs.c), create and
    mkdir, each as a step of the abstract file system. */
module NxfsPaths {
  import opened Bitmap
  import opened Extents
  import opened NxfsAlloc
  import opened NxfsGrow
  import opened Coverage
  import opened NxfsDir
  import opened NxfsState
  import opened NxfsTree
  import opened NxfsLayout
  import opened NxfsDirOps
  import opened NxfsOps

  const NO_EXTENTS: seq<Extent> :=
    [NO_EXTENT, NO_EXTENT, NO_EXTENT, NO_EXTENT, NO_EXTENT, NO_EXTENT, NO_EXTENT, NO_EXTENT]
  const FREE_INODE := Inode(false, 0, NoKind, 0, NO_EXTENTS)
  const NEW_FILE := Inode(true, 0, File, 1, NO_EXTENTS)
  const NEW_DIR := Inode(true, 512, Dir, 2, NO_EXTENTS)

  /** Path components are C strings without slashes, so never empty. */
  ghost predicate IsPath(path: seq<Name>) {
    forall i :: 0 <= i < |path| ==> path[i] != [] && 0 !in path[i]
  }

  ghost function Parent(path: seq<Name>): seq<Name>
    requires path != []
  {
    path[..|path| - 1]
  }

  ghost function Last(path: seq<Name>): Name
    requires path != []
  {
    path[|path| - 1]
  }

  ghost predicate IsDirNode(a: Abs, p: int) { p in a && a[p].DirNode? }

  ghost predicate IsFileNode(a: Abs, p: int) { p in a && a[p].FileNode? }

  ghost predicate IsEmptyDir(a: Abs, p: int) { IsDirNode(a, p) && a[p].entries.Keys <= {DOT, DOTDOT} }

  ghost predicate NamedIn(a: Abs, p: int, d: int) {
    IsDirNode(a, p) && exists n :: n in a[p].entries && !IsDot(n) && a[p].entries[n] == d
  }

  /** "." leads to the directory itself and ".." to the one that names it. */
  ghost predicate DotsOf(a: Abs, d: int)
    requires IsDirNode(a, d)
  {
    var entries := a[d].entries;
    && DOT in entries && entries[DOT] == d && DOTDOT in entries
    && if d == 0 then entries[DOTDOT] == 0 else NamedIn(a, entries[DOTDOT], d)
  }

  ghost predicate Dotted(a: Abs) {
    forall d {:trigger IsDirNode(a, d)} :: IsDirNode(a, d) ==> DotsOf(a, d)
  }

  /** A path ending in a dot leads to a directory if its parent is one. */
  lemma DotLeads(a: Abs, path: seq<Name>)
    requires Dotted(a) && 0 in a && path != [] && IsDot(Last(path)) && IsDirNode(a, Walk(a, 0, Parent(path)))
    ensures IsDirNode(a, Walk(a, 0, path))
    ensures Last(path) == DOT ==> Walk(a, 0, path) == Walk(a, 0, Parent(path))
    ensures Last(path) == DOTDOT && Walk(a, 0, path) != 0 ==> NamedIn(a, Walk(a, 0, path), Walk(a, 0, Parent(path)))
  {
    WalkSnoc(a, 0, Parent(path), Last(path));
    assert Parent(path) + [Last(path)] == path;
  }

  /** `name` could be added to directory `p`. */
  ghost predicate CanAdd(a: Abs, p: int, name: Name) {
    IsDirNode(a, p) && 0 < |name| <= 27 && name !in a[p].entries
  }

  lemma EmptyNode(d: seq<Block>)
    ensures Blocks(NEW_FILE) == [] && Shaped(NEW_FILE) && NodeOf(d, NEW_FILE) == FileNode([], true)
    ensures Blocks(NEW_DIR) == [] && Shaped(NEW_DIR)
  {
    PhysEmpty(NO_EXTENTS);
  }

  /** What resolving a path through its parent says about the directory found. */
  lemma ParentDir(sup: Super, d: seq<Block>, inodes: seq<Inode>, path: seq<Name>, p: nat)
    requires Sound(sup, d, inodes) && path != [] && p == Walk(AbsOf(d, inodes), 0, Parent(path))
    requires IsDirNode(AbsOf(d, inodes), p)
    ensures p < |inodes| && inodes[p].used && inodes[p].kind.Dir?
    ensures AbsOf(d, inodes)[p] == DirNode(NameMap(Entries(d, inodes[p]))) && UniqueNames(Entries(d, inodes[p]))
    ensures Walk(AbsOf(d, inodes), 0, path) == Child(AbsOf(d, inodes), p, Last(path))
  {
    var a := AbsOf(d, inodes);
    AbstractAt(d, inodes, p);
    AbstractAt(d, inodes, 0);
    assert ViewOf(d, inodes)[p] == Entries(d, inodes[p]);
    WalkSnoc(a, 0, Parent(path), Last(path));
    assert Parent(path) + [Last(path)] == path;
  }

  /** Finds the directory a path names an entry of. */
  method ResolveParent(vol: Volume, path: seq<Name>) returns (p: int)
    requires Sound(vol.sup, vol.disk, vol.inodes) && IsPath(path)
    ensures p >= 0 ==> path != [] && p == Walk(Abstract(vol), 0, Parent(path)) && IsDirNode(Abstract(vol), p)
    ensures p >= 0 ==> p < |vol.inodes| && vol.inodes[p].used && vol.inodes[p].kind.Dir?
    ensures p < 0 ==> path == [] || !IsDirNode(Abstract(vol), Walk(Abstract(vol), 0, Parent(path)))
  {
    if path == [] {
      return -1;
    }
    p := LookupPath(vol, path[..|path| - 1]);
    if p < 0 {
      return;
    }
    AbstractAt(vol.disk, vol.inodes, p);
    if vol.inodes[p].kind != Dir {
      return -1;
    }
  }

  /** The state while inode `c` is being set up as `node`: everything else is as
      in the abstract file system `a`, and no entry names `c` yet. */
  ghost predicate Draft(sup: Super, d: seq<Block>, inodes: seq<Inode>, c: nat, node: Inode, a: Abs) {
    && 0 < c < |inodes| && c !in a && SoundBut(sup, d, inodes, c)
    && Unlinked(ViewOf(d, inodes), c) && NoLinks(Entries(d, inodes[c]))
    && Blocks(inodes[c]) == Phys(node.extents) && (inodes[c].used ==> inodes[c] == node)
    && AbsOf(d, inodes) - {c} == a
  }

  /** Nothing has been written yet. */
  lemma DraftStart(sup: Super, d: seq<Block>, d': seq<Block>, inodes: seq<Inode>, c: nat, node: Inode, added: seq<nat>)
    requires Valid(sup, d, inodes) && c < |inodes| && !inodes[c].used && Phys(node.extents) == []
    requires Took(sup, d, d', added)
    ensures Draft(sup, d', inodes, c, node, AbsOf(d, inodes))
  {
    TookUndisturbed(sup, d, d', added, inodes);
    AbsKept(d, d', inodes);
    FreeIsUnlinked(ViewOf(d, inodes), inodes, c);
    AbstractAt(d, inodes, c);
  }

  /** The inode has been written to the table. */
  lemma DraftWritten(sup: Super, d: seq<Block>, d': seq<Block>, inodes: seq<Inode>, c: nat, node: Inode,
                     added: seq<nat>)
    requires Valid(sup, d, inodes) && c < |inodes| && !inodes[c].used
    requires Took(sup, d, d', added) && node.used && Shaped(node) && Blocks(node) == added
    ensures Draft(sup, d', inodes[c := node], c, node, AbsOf(d, inodes))
    ensures AbsOf(d', inodes[c := node]) == AbsOf(d, inodes)[c := NodeOf(d', node)]
    ensures node.kind.Dir? ==> Entries(d', node) == FreeSlots(16 * |added|)
  {
    NewInode(sup, d, d', inodes, c, node, added);
    AbstractAt(d, inodes, c);
  }

  /** Marking unused blocks does not affect a draft. */
  lemma DraftUnchanged(sup: Super, d: seq<Block>, d': seq<Block>, inodes: seq<Inode>, c: nat, node: Inode, a: Abs)
    requires Draft(sup, d, inodes, c, node, a) && Store(sup, d', inodes) && Undisturbed(d, d', inodes)
    ensures Draft(sup, d', inodes, c, node, a)
  {
    AbsKept(d, d', inodes);
    assert ViewOf(d', inodes)[c] == ViewOf(d, inodes)[c];
  }

  /** Throws a draft away. */
  method Discard(vol: Volume, c: nat, node: Inode, ghost a: Abs)
    requires Draft(vol.sup, vol.disk, vol.inodes, c, node, a)
    modifies vol
    ensures Valid(vol.sup, vol.disk, vol.inodes) && Abstract(vol) == a
    ensures Released(vol.sup, old(vol.disk), vol.disk, Phys(node.extents)) && Stray(vol) == old(Stray(vol))
    ensures vol.inodes == old(vol.inodes)[c := FREE_INODE]
  {
    assert Holds(vol.sup, Bits(vol.sup, vol.disk), Blocks(vol.inodes[c]));
    var _ := FreeAllExtents(vol, node.extents);
    DropInode(vol.sup, old(vol.disk), vol.disk, vol.inodes, c, FREE_INODE);
    StraysDrop(vol.sup, old(vol.disk), vol.disk, Phys(node.extents), vol.inodes, c, FREE_INODE);
    vol.inodes := vol.inodes[c := FREE_INODE];
  }

  /** Publishes a draft under a name in directory `p`. */
  lemma DraftPublished(sup: Super, d: seq<Block>, inodes: seq<Inode>, d': seq<Block>, inodes': seq<Inode>, p: nat,
                       name: Name, c: nat, node: Inode, a: Abs, k: nat, n: nat)
    requires Draft(sup, d, inodes, c, node, a) && inodes[c].used && IsDirNode(a, p) && p < |inodes|
    requires inodes[p].kind.Dir? && inodes[p].used
    requires Store(sup, d', inodes') && EntryAdded(d, inodes, d', inodes', p, DirSlot(c, name), k, n)
    requires Live(DirSlot(c, name)) && !IsDot(name)
    ensures Valid(sup, d', inodes') && name !in a[p].entries
    ensures AbsOf(d', inodes') == a[c := NodeOf(d, node)][p := DirNode(a[p].entries[name := c])]
  {
    EntryKeepsTree(sup, d, inodes, d', inodes', p, DirSlot(c, name), k, n, c);
    AbstractAt(d, inodes, p);
    AbstractAt(d, inodes, c);
    assert AbsOf(d, inodes) == a[c := NodeOf(d, node)] by {
      var b := AbsOf(d, inodes);
      assert b - {c} == a;
      assert forall i :: i in b && i != c ==> i in b - {c};
    }
  }

  /** What a successful creation of inode `c` by `path` does. */
  ghost predicate Created(a: Abs, a': Abs, path: seq<Name>, c: nat, node: Node) {
    && path != [] && c !in a
    && var p := Walk(a, 0, Parent(path));
    && CanAdd(a, p, Last(path)) && Walk(a, 0, path) == -1
    && a' == a[c := node][p := DirNode(a[p].entries[Last(path) := c])]
  }

  ghost predicate InodesFull(inodes: seq<Inode>) {
    forall i :: 0 <= i < |inodes| ==> inodes[i].used
  }

  /** As far as names and inodes go, something new could be put under the path. */
  ghost predicate Creatable(d: seq<Block>, inodes: seq<Inode>, path: seq<Name>) {
    && path != [] && !IsDot(Last(path)) && !InodesFull(inodes)
    && CanAdd(AbsOf(d, inodes), Walk(AbsOf(d, inodes), 0, Parent(path)), Last(path))
  }

  /** The inode of the directory a path names an entry of. */
  ghost function ParentInode(d: seq<Block>, inodes: seq<Inode>, path: seq<Name>): Inode
    requires Creatable(d, inodes, path)
  {
    AbstractAt(d, inodes, Walk(AbsOf(d, inodes), 0, Parent(path)));
    inodes[Walk(AbsOf(d, inodes), 0, Parent(path))]
  }

  /** Creating a file succeeds: its entry finds room in the parent directory. */
  ghost predicate CreateFits(sup: Super, d: seq<Block>, inodes: seq<Inode>, path: seq<Name>) {
    && OnDisk(sup, d) && Creatable(d, inodes, path)
    && var parent := ParentInode(d, inodes, path); HasRoom(sup, Bits(sup, d), Entries(d, parent), parent.extents)
  }

  /** It fails and leaves blocks marked that nobody owns. */
  ghost predicate CreateSpills(sup: Super, d: seq<Block>, inodes: seq<Inode>, path: seq<Name>) {
    && OnDisk(sup, d) && Creatable(d, inodes, path)
    && var parent := ParentInode(d, inodes, path); Spills(sup, Bits(sup, d), Entries(d, parent), parent.extents)
  }

  /** Making a directory succeeds: there is a block for it, and with the first free
      block gone its entry still finds room in the parent directory. */
  ghost predicate MkdirFits(sup: Super, d: seq<Block>, inodes: seq<Inode>, path: seq<Name>) {
    && OnDisk(sup, d) && Creatable(d, inodes, path)
    && var parent := ParentInode(d, inodes, path);
       exists b: nat {:trigger FirstFit(sup, Bits(sup, d), 1, b)} :: FirstFit(sup, Bits(sup, d), 1, b)
         && HasRoom(sup, Marked(Bits(sup, d), b, 1, true), Entries(d, parent), parent.extents)
  }

  ghost predicate MkdirSpills(sup: Super, d: seq<Block>, inodes: seq<Inode>, path: seq<Name>) {
    && OnDisk(sup, d) && Creatable(d, inodes, path)
    && var parent := ParentInode(d, inodes, path);
       exists b: nat {:trigger FirstFit(sup, Bits(sup, d), 1, b)} :: FirstFit(sup, Bits(sup, d), 1, b)
         && Spills(sup, Marked(Bits(sup, d), b, 1, true), Entries(d, parent), parent.extents)
  }

  ghost predicate ParentFull(d: seq<Block>, inodes: seq<Inode>, path: seq<Name>)
    requires Creatable(d, inodes, path)
  {
    FullDir(Entries(d, ParentInode(d, inodes, path)))
  }

  /** Where things are after creating a file: a new inode without blocks, the lowest one
      unused, and an entry in the parent directory, which grew only if it was full. */
  ghost predicate CreateLaid(sup: Super, d: seq<Block>, inodes: seq<Inode>, path: seq<Name>, ok: bool, l': Layout)
    requires OnDisk(sup, d)
  {
    var l := LayoutOf(sup, d, inodes);
    if !Creatable(d, inodes, path) then !ok && l' == l
    else
      var p := Walk(AbsOf(d, inodes), 0, Parent(path));
      p >= 0 && exists c: nat {:trigger FirstUnused(inodes, c)} ::
        FirstUnused(inodes, c) && NewLaid(sup, l, p, ParentFull(d, inodes, path), c, OutlineOf(NEW_FILE), ok, l')
  }

  /** After making a directory: a new inode with one block, and an entry in the parent
      directory; the block is given back if there was no room for the entry. */
  ghost predicate MkdirLaid(sup: Super, d: seq<Block>, inodes: seq<Inode>, path: seq<Name>, ok: bool, l': Layout)
    requires OnDisk(sup, d)
  {
    var l := LayoutOf(sup, d, inodes);
    if !Creatable(d, inodes, path) then !ok && l' == l
    else
      var p := Walk(AbsOf(d, inodes), 0, Parent(path));
      p >= 0 && exists c: nat, got, g {:trigger FirstUnused(inodes, c), FirstBlock(sup, l, got, g)} ::
        FirstUnused(inodes, c) && FirstBlock(sup, l, got, g)
        && MkdirThen(sup, l, p, ParentFull(d, inodes, path), c, got, g, ok, l')
  }

  /** A new directory gets its first block, or there is none. */
  ghost predicate FirstBlock(sup: Super, l: Layout, got: bool, g: Growth) {
    Grew(sup, 1, Growth(l.bits, [], EmptySlots(NO_EXTENTS)), got, g)
  }

  ghost predicate MkdirThen(sup: Super, l: Layout, p: nat, full: bool, c: nat, got: bool, g: Growth, ok: bool,
                            l': Layout) {
    if !got then !ok && l' == Layout(g.bits, l.outs)
    else exists bits {:trigger Layout(bits, l'.outs)} ::
      && NewLaid(sup, l.(bits := g.bits), p, full, c, Outline(true, Dir, g.phys, g.slots), ok, Layout(bits, l'.outs))
      && l'.bits == if ok then bits else Without(bits, g.phys)
  }

  /** A name that leads nowhere is not in the directory. */
  lemma NamesExist(sup: Super, d: seq<Block>, inodes: seq<Inode>, p: nat, name: Name)
    requires Sound(sup, d, inodes) && IsDirNode(AbsOf(d, inodes), p) && name != [] && |name| <= 27 && !IsDot(name)
    requires Child(AbsOf(d, inodes), p, name) == -1
    ensures name !in AbsOf(d, inodes)[p].entries
  {
    var v := ViewOf(d, inodes);
    AbstractAt(d, inodes, p);
    if name in NameMap(v[p]) {
      assert Maps(NameMap(v[p]), name);
      var k :| 0 <= k < |v[p]| && Live(v[p][k]) && v[p][k].name == name && v[p][k].ino == NameMap(v[p])[name];
      assert Link(v[p][k]);
      AbstractAt(d, inodes, v[p][k].ino);
    }
  }

  /** Checks common to create and mkdir: the parent directory and a free inode,
      or -1. */
  method PrepareCreate(vol: Volume, path: seq<Name>) returns (p: int, c: int)
    requires Valid(vol.sup, vol.disk, vol.inodes) && IsPath(path)
    requires path != [] && IsDot(Last(path)) ==> Dotted(Abstract(vol))
    ensures p >= 0 && c >= 0 <==> Creatable(vol.disk, vol.inodes, path)
    ensures p >= 0 ==> path != [] && p == Walk(Abstract(vol), 0, Parent(path)) && IsDirNode(Abstract(vol), p)
    ensures p >= 0 ==> p < |vol.inodes| && vol.inodes[p].used && vol.inodes[p].kind.Dir?
    ensures p >= 0 ==> Walk(Abstract(vol), 0, path) == -1
    ensures c >= 0 ==> FirstUnused(vol.inodes, c) && p >= 0
  {
    c := -1;
    p := ResolveParent(vol, path);
    if p < 0 {
      return;
    }
    ParentDir(vol.sup, vol.disk, vol.inodes, path, p);
    var existing := LookupPath(vol, path);
    if IsDot(Last(path)) {
      DotLeads(Abstract(vol), path);
    }
    if existing >= 0 || |path[|path| - 1]| > 27 {
      return -1, -1;
    }
    NamesExist(vol.sup, vol.disk, vol.inodes, p, path[|path| - 1]);
    c := FindFreeInode(vol);
  }

  /** Creates an empty file. */
  method CreatePath(vol: Volume, path: seq<Name>) returns (ok: bool, ino: nat)
    requires Valid(vol.sup, vol.disk, vol.inodes) && IsPath(path)
    requires path != [] && IsDot(Last(path)) ==> Dotted(Abstract(vol))
    modifies vol
    ensures Valid(vol.sup, vol.disk, vol.inodes)
    ensures ok ==> Created(old(Abstract(vol)), Abstract(vol), path, ino, FileNode([], true))
    ensures !ok ==> Abstract(vol) == old(Abstract(vol))
    ensures ok <==> old(CreateFits(vol.sup, vol.disk, vol.inodes, path))
    ensures Spilled(old(Stray(vol)), Stray(vol), old(CreateSpills(vol.sup, vol.disk, vol.inodes, path)))
    ensures ok ==> old(FirstUnused(vol.inodes, ino)) && ino < |vol.inodes| && vol.inodes[ino] == NEW_FILE
    ensures CreateLaid(vol.sup, old(vol.disk), old(vol.inodes), path, ok, LayoutOf(vol.sup, vol.disk, vol.inodes))
  {
    ghost var a := Abstract(vol);
    ino := 0;
    var p, c := PrepareCreate(vol, path);
    if p < 0 || c < 0 {
      return false, 0;
    }
    ParentDir(vol.sup, vol.disk, vol.inodes, path, p);
    AbstractAt(vol.disk, vol.inodes, c);
    assert Shaped(vol.inodes[c]);
    ghost var parent';
    ok, parent' := CreateIn(vol, p, vol.inodes[p], path[|path| - 1], c);
    CreatedLaid(vol.sup, old(vol.disk), old(vol.inodes), path, p, c, ok, parent', vol.disk, vol.inodes);
    return ok, if ok then c else 0;
  }

  /** Writes a new file as inode `c` and puts it under `name` in directory `p`. */
  method CreateIn(vol: Volume, p: nat, parent: Inode, name: Name, c: nat) returns (ok: bool, ghost parent': Inode)
    requires Valid(vol.sup, vol.disk, vol.inodes) && c < |vol.inodes| && !vol.inodes[c].used
    requires p < |vol.inodes| && vol.inodes[p] == parent && parent.used && parent.kind.Dir?
    requires CanAdd(Abstract(vol), p, name) && 0 !in name && !IsDot(name)
    modifies vol
    ensures Valid(vol.sup, vol.disk, vol.inodes)
    ensures var a := old(Abstract(vol));
            Abstract(vol) == if ok then a[c := FileNode([], true)][p := DirNode(a[p].entries[name := c])] else a
    ensures vol.inodes ==
            if ok then old(vol.inodes)[c := NEW_FILE][p := parent'] else old(vol.inodes)[c := FREE_INODE]
    ensures Outcome(vol.sup, old(vol.disk), parent, name, ok, Bits(vol.sup, vol.disk), parent')
    ensures Spilled(old(Stray(vol)), Stray(vol), AddSpills(vol.sup, Bits(vol.sup, old(vol.disk)),
                                                           Entries(old(vol.disk), parent), parent.extents, name))
  {
    ghost var a := Abstract(vol);
    TookNothing(vol.sup, vol.disk);
    EmptyNode(vol.disk);
    DraftWritten(vol.sup, vol.disk, vol.disk, vol.inodes, c, NEW_FILE, []);
    StraysSame(vol.sup, vol.disk, vol.disk, vol.inodes, c, NEW_FILE);
    vol.inodes := vol.inodes[c := NEW_FILE];
    ok := Publish(vol, p, parent, name, c, NEW_FILE, a);
    parent' := vol.inodes[p];
    if !ok {
      ghost var d := vol.disk;
      Discard(vol, c, NEW_FILE, a);
      ReleasedNothing(vol.sup, d, vol.disk);
    }
  }

  lemma ReleasedNothing(sup: Super, d: seq<Block>, d': seq<Block>)
    requires Released(sup, d, d', [])
    ensures Bits(sup, d') == Bits(sup, d)
  {}

  /** What adding the entry says about the layout. */
  lemma CreatedLaid(sup: Super, d: seq<Block>, inodes: seq<Inode>, path: seq<Name>, p: nat, c: nat, ok: bool,
                    parent': Inode, d': seq<Block>, inodes': seq<Inode>)
    requires OnDisk(sup, d) && OnDisk(sup, d') && Creatable(d, inodes, path)
    requires p == Walk(AbsOf(d, inodes), 0, Parent(path)) && p < |inodes| && c != p && FirstUnused(inodes, c)
    requires Shaped(inodes[c]) && NameFits(Entries(d, inodes[p]), Last(path))
    requires Outcome(sup, d, inodes[p], Last(path), ok, Bits(sup, d'), parent')
    requires inodes' == if ok then inodes[c := NEW_FILE][p := parent'] else inodes[c := FREE_INODE]
    ensures CreateLaid(sup, d, inodes, path, ok, LayoutOf(sup, d', inodes'))
  {
    var l, l' := LayoutOf(sup, d, inodes), LayoutOf(sup, d', inodes');
    if ok {
      OutlinesUpdate(inodes, c, NEW_FILE);
      OutlinesUpdate(inodes[c := NEW_FILE], p, parent');
    } else {
      OutlinesUpdate(inodes, c, FREE_INODE);
      assert l'.outs == l.outs;
    }
    assert Entered(sup, l.bits, l.outs[p], ParentFull(d, inodes, path), ok, l'.bits, OutlineOf(parent'));
  }

  /** Adds the entry for a drafted inode. */
  method Publish(vol: Volume, p: nat, parent: Inode, name: Name, c: nat, node: Inode, ghost a: Abs) returns (ok: bool)
    requires Draft(vol.sup, vol.disk, vol.inodes, c, node, a) && vol.inodes[c].used && IsDirNode(a, p)
    requires p < |vol.inodes| && vol.inodes[p] == parent && parent.kind.Dir? && parent.used
    requires name != [] && 0 !in name && |name| <= 27 && !IsDot(name)
    modifies vol
    ensures ok ==> Valid(vol.sup, vol.disk, vol.inodes) && name !in a[p].entries
    ensures ok ==> Abstract(vol) == a[c := NodeOf(old(vol.disk), node)][p := DirNode(a[p].entries[name := c])]
    ensures !ok ==> Draft(vol.sup, vol.disk, vol.inodes, c, node, a)
    ensures |vol.inodes| == |old(vol.inodes)| && vol.inodes == old(vol.inodes)[p := vol.inodes[p]]
    ensures ok ==> vol.inodes[p].used && vol.inodes[p].kind.Dir?
    ensures OnDisk(vol.sup, vol.disk)
    ensures Outcome(vol.sup, old(vol.disk), parent, name, ok, Bits(vol.sup, vol.disk), vol.inodes[p])
    ensures !ok ==> vol.inodes == old(vol.inodes)
    ensures Spilled(old(Stray(vol)), Stray(vol), AddSpills(vol.sup, Bits(vol.sup, old(vol.disk)),
                                                           Entries(old(vol.disk), parent), parent.extents, name))
  {
    assert ViewOf(vol.disk, vol.inodes)[p] == Entries(vol.disk, parent);
    AbstractAt(vol.disk, vol.inodes, p);
    var added, _, k, n := DirAddEntry(vol, p, parent, name, c);
    ok := added;
    if ok {
      DraftPublished(vol.sup, old(vol.disk), old(vol.inodes), vol.disk, vol.inodes, p, name, c, node, a, k, n);
    } else {
      DraftUnchanged(vol.sup, old(vol.disk), vol.disk, vol.inodes, c, node, a);
    }
  }

  /** One more "." or ".." entry in a directory being set up. */
  lemma DraftDot(sup: Super, d: seq<Block>, inodes: seq<Inode>, d': seq<Block>, inodes': seq<Inode>, c: nat,
                 node: Inode, a: Abs, s: DirSlot, k: nat, n: nat)
    requires Draft(sup, d, inodes, c, node, a) && inodes[c].used && inodes[c].kind.Dir?
    requires Store(sup, d', inodes') && EntryAdded(d, inodes, d', inodes', c, s, k, n) && IsDot(s.name)
    ensures Draft(sup, d', inodes', c, inodes'[c], a)
    ensures NodeOf(d', inodes'[c]) == DirNode(NameMap(Entries(d, node))[s.name := s.ino])
  {
    EntryKeepsTree(sup, d, inodes, d', inodes', c, s, k, n, c);
    AbstractAt(d', inodes', c);
    var was := Entries(d, inodes[c]);
    var now := Entries(d', inodes'[c]);
    assert forall m {:trigger Link(now[m])} :: 0 <= m < |now| ==>
      (m == k && now[m] == s) || (m < |was| && now[m] == was[m]) || now[m] == FREE_SLOT;
    assert forall m {:trigger Link(was[m])} :: 0 <= m < |was| ==> !Link(was[m]);
  }

  /** Adds "." or ".." to a directory being set up. */
  method AddDot(vol: Volume, c: nat, dir: Inode, name: Name, target: nat, ghost a: Abs)
    returns (ok: bool, dir': Inode, ghost k: nat, ghost n: nat)
    requires Draft(vol.sup, vol.disk, vol.inodes, c, dir, a) && vol.inodes[c].used && dir.kind.Dir?
    requires IsDot(name) && target < |vol.inodes| && name !in NameMap(Entries(vol.disk, dir))
    requires !FullDir(Entries(vol.disk, dir))
    modifies vol
    ensures ok && Draft(vol.sup, vol.disk, vol.inodes, c, dir', a) && vol.inodes[c].used && dir'.kind.Dir?
    ensures OnlyDraft(old(vol.disk), old(vol.inodes), vol.disk, vol.inodes, c)
    ensures NodeOf(vol.disk, dir') == DirNode(NameMap(Entries(old(vol.disk), dir))[name := target])
    ensures Bits(vol.sup, vol.disk) == Bits(vol.sup, old(vol.disk)) && Stray(vol) == old(Stray(vol))
    ensures OutlineOf(dir') == OutlineOf(dir) && k < |Entries(old(vol.disk), dir)| + n
    ensures Entries(vol.disk, dir') == (Entries(old(vol.disk), dir) + FreeSlots(n))[k := DirSlot(target, name)]
  {
    assert ViewOf(vol.disk, vol.inodes)[c] == Entries(vol.disk, dir);
    ok, dir', k, n := DirAddEntry(vol, c, dir, name, target);
    DraftDot(vol.sup, old(vol.disk), old(vol.inodes), vol.disk, vol.inodes, c, dir, a, DirSlot(target, name), k, n);
    OnlyDraftView(old(vol.disk), old(vol.inodes), vol.disk, vol.inodes, c);
  }

  /** Nothing but inode `c` changed: neither the other inodes nor the directories
      they hold. */
  ghost predicate OnlyDraft(d: seq<Block>, inodes: seq<Inode>, d': seq<Block>, inodes': seq<Inode>, c: nat) {
    && |inodes'| == |inodes|
    && forall i {:trigger inodes'[i]} :: 0 <= i < |inodes| && i != c ==>
         inodes'[i] == inodes[i] && Entries(d', inodes[i]) == Entries(d, inodes[i])
  }

  lemma OnlyDraftView(d: seq<Block>, inodes: seq<Inode>, d': seq<Block>, inodes': seq<Inode>, c: nat)
    requires c < |inodes| && |inodes'| == |inodes| && inodes' == inodes[c := inodes'[c]]
    requires ViewOf(d', inodes') == ViewOf(d, inodes)[c := Entries(d', inodes'[c])]
    ensures OnlyDraft(d, inodes, d', inodes', c)
  {
    forall i | 0 <= i < |inodes| && i != c
      ensures inodes'[i] == inodes[i] && Entries(d', inodes[i]) == Entries(d, inodes[i])
    {
      assert ViewOf(d', inodes')[i] == ViewOf(d, inodes)[i];
    }
  }

  lemma RoomForDots()
    ensures !FullDir(FreeSlots(16))
  {
    assert !Live(FreeSlots(16)[0]);
  }

  lemma RoomForOneMore(k: nat, n: nat, s: DirSlot)
    requires k < 16 + n
    ensures !FullDir((FreeSlots(16) + FreeSlots(n))[k := s])
  {
    var slots := (FreeSlots(16) + FreeSlots(n))[k := s];
    assert !Live(slots[if k == 0 then 1 else 0]);
  }

  /** Gives a new directory its first block, the first free one there is, and writes
      its inode. */
  method DraftDir(vol: Volume, c: nat) returns (ok: bool, dir: Inode, ghost b: nat, ghost g: Growth)
    requires Valid(vol.sup, vol.disk, vol.inodes) && c < |vol.inodes| && !vol.inodes[c].used
    modifies vol
    ensures Draft(vol.sup, vol.disk, vol.inodes, c, dir, old(Abstract(vol))) && Stray(vol) == old(Stray(vol))
    ensures OnlyDraft(old(vol.disk), old(vol.inodes), vol.disk, vol.inodes, c)
    ensures ok <==> !DataFull(vol.sup, Bits(vol.sup, old(vol.disk)))
    ensures ok ==> vol.inodes[c].used && dir.kind.Dir? && Entries(vol.disk, dir) == FreeSlots(16)
    ensures ok ==> FirstFit(vol.sup, Bits(vol.sup, old(vol.disk)), 1, b)
    ensures ok ==> Bits(vol.sup, vol.disk) == Marked(Bits(vol.sup, old(vol.disk)), b, 1, true)
    ensures FirstBlock(vol.sup, LayoutOf(vol.sup, old(vol.disk), old(vol.inodes)), ok, g)
    ensures Bits(vol.sup, vol.disk) == g.bits && (ok ==> OutlineOf(dir) == Outline(true, Dir, g.phys, g.slots))
    ensures !ok ==> vol.inodes == old(vol.inodes)
  {
    b := 0;
    EmptyNode(vol.disk);
    SlotsOfNew();
    OneBlock(vol.sup, Bits(vol.sup, vol.disk), NO_EXTENTS);
    var grown, es, added, left := EnsureBlocks(vol, NO_EXTENTS, 1);
    assert [] + added == added;
    g := Growth(Bits(vol.sup, vol.disk), added, left);
    dir := NEW_DIR;
    if !grown {
      DraftStart(vol.sup, old(vol.disk), vol.disk, vol.inodes, c, dir, added);
      StraysMore(vol.sup, old(vol.disk), vol.disk, added, vol.inodes);
      TookUndisturbed(vol.sup, old(vol.disk), vol.disk, added, vol.inodes);
      AbsKept(old(vol.disk), vol.disk, vol.inodes);
      SameView(old(vol.disk), vol.disk, vol.inodes, c);
      return false, dir, 0, g;
    }
    dir := NEW_DIR.(extents := es);
    DraftWritten(vol.sup, old(vol.disk), vol.disk, vol.inodes, c, dir, added);
    StraysGrow(vol.sup, old(vol.disk), vol.disk, added, vol.inodes, c, dir);
    TookUndisturbed(vol.sup, old(vol.disk), vol.disk, added, vol.inodes);
    AbsStep(old(vol.disk), vol.disk, vol.inodes, c, dir);
    vol.inodes := vol.inodes[c := dir];
    OnlyDraftView(old(vol.disk), old(vol.inodes), vol.disk, vol.inodes, c);
    TookOne(vol.sup, old(vol.disk), vol.disk, added);
    ok, b := true, added[0];
  }

  lemma SlotsOfNew()
    ensures EmptySlots(NO_EXTENTS) > 0
  {
    NoSlots(NO_EXTENTS);
  }

  lemma SameView(d: seq<Block>, d': seq<Block>, inodes: seq<Inode>, c: nat)
    requires c < |inodes| && ViewOf(d', inodes) == ViewOf(d, inodes)
    ensures OnlyDraft(d, inodes, d', inodes, c)
  {
    assert ViewOf(d, inodes)[c := ViewOf(d, inodes)[c]] == ViewOf(d, inodes);
    OnlyDraftView(d, inodes, d', inodes, c);
  }

  /** The dot entries of a new directory, whose only block is still empty. */
  method AddDots(vol: Volume, c: nat, dir: Inode, p: nat, ghost a: Abs) returns (dir': Inode)
    requires Draft(vol.sup, vol.disk, vol.inodes, c, dir, a) && vol.inodes[c].used && dir.kind.Dir? && p < |vol.inodes|
    requires Entries(vol.disk, dir) == FreeSlots(16)
    modifies vol
    ensures Draft(vol.sup, vol.disk, vol.inodes, c, dir', a) && vol.inodes[c].used && dir'.kind.Dir?
    ensures Bits(vol.sup, vol.disk) == Bits(vol.sup, old(vol.disk)) && Stray(vol) == old(Stray(vol))
    ensures OnlyDraft(old(vol.disk), old(vol.inodes), vol.disk, vol.inodes, c)
    ensures NodeOf(vol.disk, dir') == DirNode(map[DOT := c, DOTDOT := p]) && OutlineOf(dir') == OutlineOf(dir)
  {
    FreshNames(16);
    RoomForDots();
    var ok;
    ghost var k, n;
    ok, dir', k, n := AddDot(vol, c, dir, DOT, c, a);
    RoomForOneMore(k, n, DirSlot(c, DOT));
    ok, dir', k, n := AddDot(vol, c, dir', DOTDOT, p, a);
  }

  /** A new directory with its first block and its dot entries, not named yet. */
  method InitDir(vol: Volume, c: nat, p: nat) returns (ok: bool, dir: Inode, ghost b: nat, ghost g: Growth)
    requires Valid(vol.sup, vol.disk, vol.inodes) && c < |vol.inodes| && !vol.inodes[c].used && p < |vol.inodes|
    modifies vol
    ensures Draft(vol.sup, vol.disk, vol.inodes, c, dir, old(Abstract(vol))) && Stray(vol) == old(Stray(vol))
    ensures OnlyDraft(old(vol.disk), old(vol.inodes), vol.disk, vol.inodes, c)
    ensures ok <==> !DataFull(vol.sup, Bits(vol.sup, old(vol.disk)))
    ensures ok ==> vol.inodes[c].used && NodeOf(vol.disk, dir) == DirNode(map[DOT := c, DOTDOT := p])
    ensures ok ==> FirstFit(vol.sup, Bits(vol.sup, old(vol.disk)), 1, b)
    ensures ok ==> Bits(vol.sup, vol.disk) == Marked(Bits(vol.sup, old(vol.disk)), b, 1, true)
    ensures FirstBlock(vol.sup, LayoutOf(vol.sup, old(vol.disk), old(vol.inodes)), ok, g)
    ensures Bits(vol.sup, vol.disk) == g.bits && (ok ==> OutlineOf(dir) == Outline(true, Dir, g.phys, g.slots))
    ensures !ok ==> vol.inodes == old(vol.inodes)
  {
    ok, dir, b, g := DraftDir(vol, c);
    if ok {
      dir := AddDots(vol, c, dir, p, old(Abstract(vol)));
    }
  }

  lemma FreshNames(n: nat)
    ensures NameMap(FreeSlots(n)) == map[] && UniqueNames(FreeSlots(n))
  {
    assert forall k {:trigger Live(FreeSlots(n)[k])} :: 0 <= k < n ==> !Live(FreeSlots(n)[k]);
    NameMapIs(FreeSlots(n), map[]);
  }

  /** Changing an inode's link count changes nothing else. */
  method SetLinks(vol: Volume, p: nat, nlink: nat)
    requires Valid(vol.sup, vol.disk, vol.inodes) && p < |vol.inodes| && vol.inodes[p].used && vol.inodes[p].kind.Dir?
    modifies vol
    ensures Valid(vol.sup, vol.disk, vol.inodes) && Abstract(vol) == old(Abstract(vol))
    ensures vol.disk == old(vol.disk) && vol.inodes == old(vol.inodes)[p := old(vol.inodes)[p].(nlink := nlink)]
    ensures Stray(vol) == old(Stray(vol))
  {
    LinksSet(vol.sup, vol.disk, vol.inodes, p, vol.inodes[p].(nlink := nlink));
    vol.inodes := vol.inodes[p := vol.inodes[p].(nlink := nlink)];
  }

  lemma LinksSet(sup: Super, d: seq<Block>, inodes: seq<Inode>, p: nat, inode: Inode)
    requires Valid(sup, d, inodes) && p < |inodes| && inodes[p].used && inodes[p].kind.Dir?
    requires inode == inodes[p].(nlink := inode.nlink)
    ensures Valid(sup, d, inodes[p := inode]) && AbsOf(d, inodes[p := inode]) == AbsOf(d, inodes)
    ensures Strays(sup, d, inodes[p := inode]) == Strays(sup, d, inodes)
  {
    var v := ViewOf(d, inodes);
    assert Shaped(inodes[p]);
    TookNothing(sup, d);
    assert Blocks(inode) == Blocks(inodes[p]) + [];
    OwnedGrow(sup, d, d, [], inodes, p, inode);
    UndisturbedSame(sup, d, inodes);
    AbsStep(d, d, inodes, p, inode);
    AbstractAt(d, inodes, p);
    assert Entries(d, inode) == Entries(d, inodes[p]) == v[p] && v[p := v[p]] == v;
    TreeInode(v, inodes, p, inode, v[p]);
    assert AbsOf(d, inodes)[p := NodeOf(d, inode)] == AbsOf(d, inodes);
    StraysSame(sup, d, d, inodes, p, inode);
  }

  ghost predicate MadeDir(a: Abs, a': Abs, path: seq<Name>, c: nat) {
    && path != [] && !IsDot(Last(path))
    && var p := Walk(a, 0, Parent(path));
    && p >= 0 && Created(a, a', path, c, DirNode(map[DOT := c, DOTDOT := p]))
  }

  /** Creates a directory holding "." and "..". */
  method MkdirPath(vol: Volume, path: seq<Name>) returns (ok: bool, ino: nat)
    requires Valid(vol.sup, vol.disk, vol.inodes) && IsPath(path)
    modifies vol
    ensures Valid(vol.sup, vol.disk, vol.inodes)
    ensures ok ==> MadeDir(old(Abstract(vol)), Abstract(vol), path, ino)
    ensures !ok ==> Abstract(vol) == old(Abstract(vol))
    ensures ok <==> old(MkdirFits(vol.sup, vol.disk, vol.inodes, path))
    ensures Spilled(old(Stray(vol)), Stray(vol), old(MkdirSpills(vol.sup, vol.disk, vol.inodes, path)))
    ensures ok ==> old(FirstUnused(vol.inodes, ino))
    ensures MkdirLaid(vol.sup, old(vol.disk), old(vol.inodes), path, ok, LayoutOf(vol.sup, vol.disk, vol.inodes))
  {
    ghost var a := Abstract(vol);
    if path != [] && (path[|path| - 1] == DOT || path[|path| - 1] == DOTDOT) {
      return false, 0;
    }
    var p, c := PrepareCreate(vol, path);
    if p < 0 || c < 0 {
      return false, 0;
    }
    ParentDir(vol.sup, vol.disk, vol.inodes, path, p);
    AbstractAt(vol.disk, vol.inodes, c);
    assert Shaped(vol.inodes[c]);
    ghost var b, got, g;
    ok, b, got, g := MkdirIn(vol, p, vol.inodes[p], path[|path| - 1], c);
    assert FirstUnused(old(vol.inodes), c);
    MkdirOutcome(vol.sup, old(vol.disk), old(vol.inodes), path, b);
    return ok, if ok then c else 0;
  }

  /** Sets up a directory as inode `c` and puts it under `name` in directory `p`. */
  method MkdirIn(vol: Volume, p: nat, parent: Inode, name: Name, c: nat)
    returns (ok: bool, ghost b: nat, ghost got: bool, ghost g: Growth)
    requires Valid(vol.sup, vol.disk, vol.inodes) && c < |vol.inodes| && !vol.inodes[c].used
    requires p < |vol.inodes| && vol.inodes[p] == parent && parent.used && parent.kind.Dir?
    requires CanAdd(Abstract(vol), p, name) && 0 !in name && !IsDot(name)
    modifies vol
    ensures Valid(vol.sup, vol.disk, vol.inodes)
    ensures var a := old(Abstract(vol));
            && (!ok ==> Abstract(vol) == a)
            && (ok ==> Abstract(vol) == a[c := DirNode(map[DOT := c, DOTDOT := p])][p :=
               DirNode(a[p].entries[name := c])])
    ensures var slots, bits := Entries(old(vol.disk), parent), Bits(vol.sup, old(vol.disk));
            && (DataFull(vol.sup, bits) || FirstFit(vol.sup, bits, 1, b))
            && (ok <==> !DataFull(vol.sup, bits) && HasRoom(vol.sup, Marked(bits, b, 1, true), slots, parent.extents))
            && Spilled(old(Stray(vol)), Stray(vol),
                       !DataFull(vol.sup, bits) && Spills(vol.sup, Marked(bits, b, 1, true), slots, parent.extents))
    ensures var l := LayoutOf(vol.sup, old(vol.disk), old(vol.inodes));
            && FirstBlock(vol.sup, l, got, g)
            && MkdirThen(vol.sup, l, p, FullDir(Entries(old(vol.disk), parent)), c, got, g, ok,
                         LayoutOf(vol.sup, vol.disk, vol.inodes))
  {
    ghost var a, d0, inodes := Abstract(vol), vol.disk, vol.inodes;
    var dir;
    ParentNames(vol.sup, vol.disk, vol.inodes, p, name);
    ok, dir, b, g := InitDir(vol, c, p);
    got := ok;
    if !ok {
      Discard(vol, c, dir, a);
      NothingMade(vol.sup, d0, inodes, c, dir, g, vol.disk, vol.inodes);
      return;
    }
    assert vol.inodes == inodes[c := dir];
    assert vol.inodes[p] == parent && Entries(vol.disk, parent) == Entries(d0, parent);
    ok := EnterDir(vol, p, parent, name, c, dir, a, g, d0, inodes);
  }

  /** Puts a directory just set up under `name` in directory `p`, or gives it up. */
  method EnterDir(vol: Volume, p: nat, parent: Inode, name: Name, c: nat, dir: Inode, ghost a: Abs, ghost g: Growth,
                  ghost d: seq<Block>, ghost inodes: seq<Inode>)
    returns (ok: bool)
    requires Draft(vol.sup, vol.disk, vol.inodes, c, dir, a) && dir.used && CanAdd(a, p, name)
    requires NodeOf(vol.disk, dir) == DirNode(map[DOT := c, DOTDOT := p]) && 0 !in name && !IsDot(name)
    requires p < |inodes| && inodes[p] == parent && parent.used && parent.kind.Dir?
    requires c < |inodes| && c != p && !inodes[c].used && Shaped(inodes[c]) && vol.inodes == inodes[c := dir]
    requires OnDisk(vol.sup, d) && Entries(vol.disk, parent) == Entries(d, parent) && NameFits(Entries(d, parent), name)
    requires Bits(vol.sup, vol.disk) == g.bits && OutlineOf(dir) == Outline(true, Dir, g.phys, g.slots)
    modifies vol
    ensures Valid(vol.sup, vol.disk, vol.inodes)
    ensures Abstract(vol) == if !ok then a
      else a[c := DirNode(map[DOT := c, DOTDOT := p])][p := DirNode(a[p].entries[name := c])]
    ensures ok <==> HasRoom(vol.sup, g.bits, Entries(d, parent), parent.extents)
    ensures Spilled(old(Stray(vol)), Stray(vol), Spills(vol.sup, g.bits, Entries(d, parent), parent.extents))
    ensures MkdirThen(vol.sup, LayoutOf(vol.sup, d, inodes), p, FullDir(Entries(d, parent)), c, true, g, ok,
                      LayoutOf(vol.sup, vol.disk, vol.inodes))
  {
    ghost var d1 := vol.disk;
    ok := Publish(vol, p, parent, name, c, dir, a);
    assert ok <==> HasRoom(vol.sup, g.bits, Entries(d, parent), parent.extents);
    if !ok {
      GiveUpDir(vol, p, name, c, dir, a, g, d, inodes, d1);
    } else {
      CountDir(vol, p, name, c, dir, g, d, inodes, d1);
    }
  }

  /** One link more on the parent of a directory that was entered there. */
  method CountDir(vol: Volume, p: nat, ghost name: Name, ghost c: nat, ghost dir: Inode, ghost g: Growth,
                  ghost d: seq<Block>, ghost inodes: seq<Inode>, ghost d1: seq<Block>)
    requires Valid(vol.sup, vol.disk, vol.inodes) && p < |inodes| == |vol.inodes| && c < |inodes| && c != p
    requires vol.inodes == inodes[c := dir][p := vol.inodes[p]] && vol.inodes[p].used && vol.inodes[p].kind.Dir?
    requires OnDisk(vol.sup, d) && OnDisk(vol.sup, d1)
    requires Entries(d1, inodes[p]) == Entries(d, inodes[p]) && NameFits(Entries(d, inodes[p]), name)
    requires Bits(vol.sup, d1) == g.bits && OutlineOf(dir) == Outline(true, Dir, g.phys, g.slots)
    requires Outcome(vol.sup, d1, inodes[p], name, true, Bits(vol.sup, vol.disk), vol.inodes[p])
    modifies vol
    ensures Valid(vol.sup, vol.disk, vol.inodes) && Abstract(vol) == old(Abstract(vol)) && Stray(vol) == old(Stray(vol))
    ensures MkdirThen(vol.sup, LayoutOf(vol.sup, d, inodes), p, FullDir(Entries(d, inodes[p])), c, true, g, true,
                      LayoutOf(vol.sup, vol.disk, vol.inodes))
  {
    ghost var parent' := vol.inodes[p];
    SetLinks(vol, p, vol.inodes[p].nlink + 1);
    Made(vol.sup, d, inodes, p, c, dir, g, d1, name, parent', vol.disk, vol.inodes);
  }

  /** Throws away a directory there was no room for in its parent. */
  method GiveUpDir(vol: Volume, ghost p: nat, ghost name: Name, c: nat, dir: Inode, ghost a: Abs, ghost g: Growth,
                   ghost d: seq<Block>, ghost inodes: seq<Inode>, ghost d1: seq<Block>)
    requires Draft(vol.sup, vol.disk, vol.inodes, c, dir, a) && dir.used
    requires p < |inodes| && c < |inodes| && c != p && !inodes[c].used && Shaped(inodes[c])
    requires vol.inodes == inodes[c := dir] && OnDisk(vol.sup, d) && OnDisk(vol.sup, d1)
    requires Entries(d1, inodes[p]) == Entries(d, inodes[p]) && NameFits(Entries(d, inodes[p]), name)
    requires Bits(vol.sup, d1) == g.bits && OutlineOf(dir) == Outline(true, Dir, g.phys, g.slots)
    requires Outcome(vol.sup, d1, inodes[p], name, false, Bits(vol.sup, vol.disk), inodes[p])
    modifies vol
    ensures Valid(vol.sup, vol.disk, vol.inodes) && Abstract(vol) == a && Stray(vol) == old(Stray(vol))
    ensures MkdirThen(vol.sup, LayoutOf(vol.sup, d, inodes), p, FullDir(Entries(d, inodes[p])), c, true, g, false,
                      LayoutOf(vol.sup, vol.disk, vol.inodes))
  {
    ghost var d2 := vol.disk;
    Discard(vol, c, dir, a);
    NotMade(vol.sup, d, inodes, p, c, dir, g, d1, name, d2, vol.disk, vol.inodes);
  }

  lemma ParentNames(sup: Super, d: seq<Block>, inodes: seq<Inode>, p: nat, name: Name)
    requires Valid(sup, d, inodes) && p < |inodes| && inodes[p].used && inodes[p].kind.Dir?
    requires CanAdd(AbsOf(d, inodes), p, name)
    ensures NameFits(Entries(d, inodes[p]), name)
  {
    AbstractAt(d, inodes, p);
  }

  /** No block for the directory. */
  lemma NothingMade(sup: Super, d: seq<Block>, inodes: seq<Inode>, c: nat, dir: Inode, g: Growth, d': seq<Block>,
                    inodes': seq<Inode>)
    requires OnDisk(sup, d) && OnDisk(sup, d') && c < |inodes| && !inodes[c].used && Shaped(inodes[c])
    requires Bits(sup, d') == g.bits && inodes' == inodes[c := FREE_INODE]
    ensures LayoutOf(sup, d', inodes') == Layout(g.bits, LayoutOf(sup, d, inodes).outs)
  {
    OutlinesUpdate(inodes, c, FREE_INODE);
    assert OutlineOf(FREE_INODE) == OutlineOf(inodes[c]);
    assert Outlines(inodes') == Outlines(inodes);
  }

  /** No room for the entry: the directory's block is given back. */
  lemma NotMade(sup: Super, d: seq<Block>, inodes: seq<Inode>, p: nat, c: nat, dir: Inode, g: Growth, d1: seq<Block>,
                name: Name, d2: seq<Block>, d': seq<Block>, inodes': seq<Inode>)
    requires OnDisk(sup, d) && OnDisk(sup, d1) && OnDisk(sup, d2) && c < |inodes| && p < |inodes| && c != p
    requires !inodes[c].used && Shaped(inodes[c]) && Bits(sup, d1) == g.bits
    requires OutlineOf(dir) == Outline(true, Dir, g.phys, g.slots) && Entries(d1, inodes[p]) == Entries(d, inodes[p])
    requires NameFits(Entries(d, inodes[p]), name)
    requires Outcome(sup, d1, inodes[p], name, false, Bits(sup, d2), inodes[p])
    requires Released(sup, d2, d', g.phys) && inodes' == inodes[c := FREE_INODE]
    ensures MkdirThen(sup, LayoutOf(sup, d, inodes), p, FullDir(Entries(d, inodes[p])), c, true, g, false,
                      LayoutOf(sup, d', inodes'))
  {
    var l, l' := LayoutOf(sup, d, inodes), LayoutOf(sup, d', inodes');
    OutlinesUpdate(inodes, c, FREE_INODE);
    assert OutlineOf(FREE_INODE) == OutlineOf(inodes[c]);
    assert l'.outs == l.outs;
    var mid := Layout(Bits(sup, d2), l'.outs);
    assert Entered(sup, g.bits, l.outs[p], FullDir(Entries(d, inodes[p])), false, mid.bits, OutlineOf(inodes[p]));
    assert NewLaid(sup, l.(bits := g.bits), p, FullDir(Entries(d, inodes[p])), c, OutlineOf(dir), false, mid);
    assert l'.bits == Without(mid.bits, g.phys);
  }

  lemma Made(sup: Super, d: seq<Block>, inodes: seq<Inode>, p: nat, c: nat, dir: Inode, g: Growth, d1: seq<Block>,
             name: Name, parent': Inode, d': seq<Block>, inodes': seq<Inode>)
    requires OnDisk(sup, d) && OnDisk(sup, d1) && OnDisk(sup, d') && c < |inodes| && p < |inodes| && c != p
    requires Bits(sup, d1) == g.bits
    requires OutlineOf(dir) == Outline(true, Dir, g.phys, g.slots) && Entries(d1, inodes[p]) == Entries(d, inodes[p])
    requires NameFits(Entries(d, inodes[p]), name)
    requires Outcome(sup, d1, inodes[p], name, true, Bits(sup, d'), parent')
    requires inodes' == inodes[c := dir][p := parent'.(nlink := parent'.nlink + 1)]
    ensures MkdirThen(sup, LayoutOf(sup, d, inodes), p, FullDir(Entries(d, inodes[p])), c, true, g, true,
                      LayoutOf(sup, d', inodes'))
  {
    var l, l' := LayoutOf(sup, d, inodes), LayoutOf(sup, d', inodes');
    var last := parent'.(nlink := parent'.nlink + 1);
    assert OutlineOf(last) == OutlineOf(parent');
    OutlinesUpdate(inodes, c, dir);
    OutlinesUpdate(inodes[c := dir], p, last);
    var mid := Layout(l'.bits, l'.outs);
    assert Entered(sup, g.bits, l.outs[p], FullDir(Entries(d, inodes[p])), true, mid.bits, OutlineOf(parent'));
    assert NewLaid(sup, l.(bits := g.bits), p, FullDir(Entries(d, inodes[p])), c, OutlineOf(dir), true, mid);
  }

  /** Making a directory is decided by the first free block. */
  lemma MkdirOutcome(sup: Super, d: seq<Block>, inodes: seq<Inode>, path: seq<Name>, b: nat)
    requires OnDisk(sup, d) && Creatable(d, inodes, path)
    requires DataFull(sup, Bits(sup, d)) || FirstFit(sup, Bits(sup, d), 1, b)
    ensures DataFull(sup, Bits(sup, d)) ==> !MkdirFits(sup, d, inodes, path) && !MkdirSpills(sup, d, inodes, path)
    ensures var parent, bits := ParentInode(d, inodes, path), Marked(Bits(sup, d), b, 1, true);
            !DataFull(sup, Bits(sup, d)) ==>
              && (MkdirFits(sup, d, inodes, path) <==> HasRoom(sup, bits, Entries(d, parent), parent.extents))
              && (MkdirSpills(sup, d, inodes, path) <==> Spills(sup, bits, Entries(d, parent), parent.extents))
  {
    var bits := Bits(sup, d);
    if DataFull(sup, bits) {
      FullIsNoFit(sup, bits);
      assert forall x: nat {:trigger FirstFit(sup, bits, 1, x)} :: FirstFit(sup, bits, 1, x) ==> FreeRun(bits, x, 1);
    } else {
      OnlyFirst(sup, bits, b);
    }
  }

  /** There is only one first fit. */
  lemma OnlyFirst(sup: Super, bits: seq<bool>, b: nat)
    requires FirstFit(sup, bits, 1, b)
    ensures forall x: nat {:trigger FirstFit(sup, bits, 1, x)} :: FirstFit(sup, bits, 1, x) ==> x == b
  {
    forall x: nat | FirstFit(sup, bits, 1, x) ensures x == b {
      assert FreeRun(bits, x, 1) && FreeRun(bits, b, 1);
    }
  }
}
