/** Whole runs of NXFS: from the image mkfs writes (tools/nxfs_host.c) through any
    sequence of operations. */
module NxfsRun {
  import opened Bitmap
  import opened Extents
  import opened Contents
  import opened NxfsAlloc
  import opened NxfsGrow
  import opened Coverage
  import opened NxfsDir
  import opened NxfsState
  import opened NxfsTree
  import opened NxfsLayout
  import opened NxfsDirOps
  import opened NxfsOps
  import opened NxfsPaths
  import opened NxfsRemove
  import opened NxfsFiles
  import opened Runs

  const MAX_INODES := 1024
  const INODE_BLOCKS := 226  // 1024 inodes of 113 bytes

  lemma {:induction false} ZeroHasNoBits(k: nat)
    ensures !BitOf(0, k)
  {
    if k > 0 {
      ZeroHasNoBits(k - 1);
    }
  }

  lemma ZeroDiskBits(sup: Super, disk: seq<Block>)
    requires OnDisk(sup, disk) && forall b :: 0 <= b < |disk| ==> disk[b] == ZeroBlock()
    ensures forall b :: 0 <= b < sup.totalBlocks ==> !Bits(sup, disk)[b]
  {
    forall b | 0 <= b < sup.totalBlocks ensures !Bits(sup, disk)[b] {
      assert Bits(sup, disk)[b] == Bit(sup, disk, b);
      ZeroHasNoBits(b % 4096 % 8);
    }
  }

  function RootBlock(): Block {
    WithSlot(WithSlot(ZeroBlock(), 0, DirSlot(0, DOT)), 1, DirSlot(0, DOTDOT))
  }

  lemma RootSlots(disk: seq<Block>, x: nat)
    requires x < |disk| && disk[x] == RootBlock()
    ensures Slots(disk, [x]) == FreeSlots(16)[0 := DirSlot(0, DOT)][1 := DirSlot(0, DOTDOT)]
  {
    var one := WithSlot(ZeroBlock(), 0, DirSlot(0, DOT));
    forall j | 0 <= j < 16
      ensures Slots(disk, [x])[j] == FreeSlots(16)[0 := DirSlot(0, DOT)][1 := DirSlot(0, DOTDOT)][j]
    {
      SlotInBlock(disk, [x], 0, j);
      SlotWritten(one, 1, DirSlot(0, DOTDOT), j);
      SlotWritten(ZeroBlock(), 0, DirSlot(0, DOT), j);
      ZeroBlockSlots(j);
    }
  }

  function RootInode(dataStart: nat): Inode {
    Inode(true, 512, Dir, 2, NO_EXTENTS[0 := Extent(dataStart, 1)])
  }

  lemma RootBlocks(dataStart: nat)
    ensures Blocks(RootInode(dataStart)) == [dataStart] && Shaped(RootInode(dataStart))
  {
    var es := NO_EXTENTS[0 := Extent(dataStart, 1)];
    assert Packed(es);
    PhysEmpty(es[1..]);
    assert Phys(es) == Run(dataStart, 1) + Phys(es[1..]);
  }

  function Copies(inode: Inode, n: nat): (t: seq<Inode>)
    ensures |t| == n && forall i :: 0 <= i < n ==> t[i] == inode
  {
    seq(n, _ => inode)
  }

  predicate IsFree(i: Inode, free: Inode) { i == free }

  /** The state mkfs leaves behind: the metadata blocks and the root's block in
      use, everything else free, one empty root directory. */
  ghost predicate Formatted(sup: Super, disk: seq<Block>, inodes: seq<Inode>, free: Inode) {
    && OnDisk(sup, disk) && disk[sup.dataStart] == RootBlock()
    && (forall b :: 0 <= b < sup.totalBlocks ==> Bits(sup, disk)[b] == (b <= sup.dataStart))
    && 0 < |inodes| <= 0x1_0000_0000 && !free.used && Shaped(free)
    && inodes[0].used && inodes[0].kind.Dir? && Shaped(inodes[0]) && Blocks(inodes[0]) == [sup.dataStart]
    && forall i {:trigger IsFree(inodes[i], free)} :: 0 < i < |inodes| ==> IsFree(inodes[i], free)
  }

  /** Writing the root directory into an image whose metadata is marked. */
  lemma RootWritten(sup: Super, d: seq<Block>, inodes: seq<Inode>, root: Inode, free: Inode)
    requires OnDisk(sup, d) && forall b :: 0 <= b < sup.totalBlocks ==> Bits(sup, d)[b] == (b <= sup.dataStart)
    requires 0 < |inodes| <= 0x1_0000_0000 && !free.used && Shaped(free)
    requires root.used && root.kind.Dir? && Shaped(root) && Blocks(root) == [sup.dataStart]
    requires forall i :: 0 <= i < |inodes| ==> inodes[i] == free
    ensures Formatted(sup, d[sup.dataStart := RootBlock()], inodes[0 := root], free)
  {
    BitsKept(sup, d, d[sup.dataStart := RootBlock()]);
  }

  lemma FormattedStore(sup: Super, disk: seq<Block>, inodes: seq<Inode>, free: Inode)
    requires Formatted(sup, disk, inodes, free)
    ensures Store(sup, disk, inodes)
  {
    forall i | 0 <= i < |inodes| ensures Shaped(inodes[i]) && Holds(sup, Bits(sup, disk), Blocks(inodes[i])) {
      if i == 0 {
        assert Holds(sup, Bits(sup, disk), [sup.dataStart]);
      } else {
        assert IsFree(inodes[i], free);
      }
    }
    forall i, j | 0 <= i < |inodes| && 0 <= j < |inodes| && i != j
      ensures Disjoint(Blocks(inodes[i]), Blocks(inodes[j]))
    {
      assert i > 0 ==> IsFree(inodes[i], free);
      assert j > 0 ==> IsFree(inodes[j], free);
    }
  }

  /** Every marked block that belongs to no inode is a metadata block: superblock,
      bitmap or inode table. */
  ghost predicate OnlyMetadata(sup: Super, strays: set<nat>) {
    forall b :: b in strays ==> b < sup.dataStart
  }

  /** All metadata blocks are marked. */
  ghost predicate AllMetadata(sup: Super, strays: set<nat>) {
    forall b: nat {:trigger b in strays} :: b < sup.dataStart ==> b in strays
  }

  lemma FormattedStrays(sup: Super, disk: seq<Block>, inodes: seq<Inode>, free: Inode)
    requires Formatted(sup, disk, inodes, free)
    ensures OnlyMetadata(sup, Strays(sup, disk, inodes)) && AllMetadata(sup, Strays(sup, disk, inodes))
  {
    forall b: nat | b < sup.totalBlocks ensures Claimed(inodes, b) <==> b == sup.dataStart {
      if b == sup.dataStart {
        assert b in Blocks(inodes[0]);
      } else {
        forall i {:trigger Blocks(inodes[i])} | 0 <= i < |inodes| ensures b !in Blocks(inodes[i]) {
          assert i > 0 ==> IsFree(inodes[i], free);
        }
      }
    }
  }

  lemma FormattedRoot(sup: Super, disk: seq<Block>, inodes: seq<Inode>, free: Inode)
    requires Formatted(sup, disk, inodes, free)
    ensures Entries(disk, inodes[0]) == FreeSlots(16)[0 := DirSlot(0, DOT)][1 := DirSlot(0, DOTDOT)]
    ensures NodeOf(disk, inodes[0]) == DirNode(map[DOT := 0, DOTDOT := 0])
    ensures UniqueNames(Entries(disk, inodes[0])) && NoLinks(Entries(disk, inodes[0]))
  {
    RootSlots(disk, sup.dataStart);
    RootNames();
  }

  lemma FormattedTree(sup: Super, disk: seq<Block>, inodes: seq<Inode>, free: Inode)
    requires Formatted(sup, disk, inodes, free)
    ensures Tree(ViewOf(disk, inodes), inodes) && LinksComplete(ViewOf(disk, inodes), inodes, 0)
    ensures AbsOf(disk, inodes) == map[0 := DirNode(map[DOT := 0, DOTDOT := 0])]
  {
    var v := ViewOf(disk, inodes);
    FormattedRoot(sup, disk, inodes, free);
    forall i | 0 <= i < |v| ensures UniqueNames(v[i]) && NoLinks(v[i]) && (i > 0 ==> !inodes[i].used) {
      assert i > 0 ==> IsFree(inodes[i], free) && v[i] == [];
    }
    assert forall i, k {:trigger Link(v[i][k])} :: 0 <= i < |v| && 0 <= k < |v[i]| ==> !Link(v[i][k]);
    AbsIs(disk, inodes, map[0 := DirNode(map[DOT := 0, DOTDOT := 0])]);
  }

  lemma RootNames()
    ensures var root := FreeSlots(16)[0 := DirSlot(0, DOT)][1 := DirSlot(0, DOTDOT)];
            UniqueNames(root) && NameMap(root) == map[DOT := 0, DOTDOT := 0]
  {
    FreshNames(16);
    var one := FreeSlots(16)[0 := DirSlot(0, DOT)];
    NameMapAdd(FreeSlots(16), 0, DirSlot(0, DOT));
    NameMapAdd(one, 1, DirSlot(0, DOTDOT));
  }

  /** Formats a zeroed image of `total` blocks. */
  method Mkfs(total: nat) returns (ok: bool, vol: Volume)
    requires total < 0x8000_0000
    ensures ok <==> 1 + (total + 4095) / 4096 + INODE_BLOCKS < total
    ensures ok ==> fresh(vol) && Valid(vol.sup, vol.disk, vol.inodes) && vol.sup.totalBlocks == total
    ensures ok ==> Abstract(vol) == map[0 := DirNode(map[DOT := 0, DOTDOT := 0])]
    ensures ok ==> forall b :: 0 <= b < total ==> Bits(vol.sup, vol.disk)[b] == (b <= vol.sup.dataStart)
    ensures ok ==> OnlyMetadata(vol.sup, Stray(vol)) && AllMetadata(vol.sup, Stray(vol))
    ensures ok ==> vol.sup.dataStart == 1 + (total + 4095) / 4096 + INODE_BLOCKS && |vol.inodes| == MAX_INODES
    ensures ok ==> !FullDir(Entries(vol.disk, vol.inodes[0]))
  {
    var inodeStart := 1 + (total + 4095) / 4096;
    var sup := Super(total, 1, inodeStart, inodeStart + INODE_BLOCKS);
    vol := new Volume(sup, seq(total, _ => ZeroBlock()), Copies(FREE_INODE, MAX_INODES));
    if sup.dataStart >= sup.totalBlocks {
      return false, vol;
    }
    ZeroDiskBits(sup, vol.disk);
    for b := 0 to sup.dataStart + 1
      invariant vol.sup == sup && OnDisk(sup, vol.disk) && vol.inodes == Copies(FREE_INODE, MAX_INODES)
      invariant forall x :: 0 <= x < sup.totalBlocks ==> Bits(sup, vol.disk)[x] == (x < b)
    {
      var _ := BitmapSetRange(vol, b, 1, true);
    }
    RootBlocks(sup.dataStart);
    PhysEmpty(NO_EXTENTS);
    RootWritten(sup, vol.disk, vol.inodes, RootInode(sup.dataStart), FREE_INODE);
    vol.disk := vol.disk[sup.dataStart := RootBlock()];
    vol.inodes := vol.inodes[0 := RootInode(sup.dataStart)];
    FormattedStore(sup, vol.disk, vol.inodes, FREE_INODE);
    FormattedTree(sup, vol.disk, vol.inodes, FREE_INODE);
    FormattedStrays(sup, vol.disk, vol.inodes, FREE_INODE);
    FormattedRoot(sup, vol.disk, vol.inodes, FREE_INODE);
    assert !Live(Entries(vol.disk, vol.inodes[0])[2]);
    ok := true;
  }

  // ----- runs -----

  datatype Op =
    | Create(path: seq<Name>)
    | Mkdir(path: seq<Name>)
    | Unlink(path: seq<Name>)
    | Rmdir(path: seq<Name>)
    | Write(path: seq<Name>, offset: nat, buf: seq<Byte>)
    | Truncate(path: seq<Name>)

  /** A request a caller may make: C-string components, 32-bit offset and length. */
  ghost predicate Legal(op: Op) {
    IsPath(op.path) && (op.Write? ==> op.offset < 0x1_0000_0000 && |op.buf| < 0x1_0000_0000)
  }

  ghost predicate Bounded(op: Op) {
    op.Write? ==> op.buf == [] || op.offset + |op.buf| <= MAX_SIZE
  }

  ghost predicate AllTight(a: Abs) {
    forall i :: i in a && a[i].FileNode? ==> a[i].tight
  }

  ghost function AbsAt(s: State): Abs { AbsOf(s.disk, s.inodes) }

  /** The invariant of a run: block ownership is exclusive, the tree is well formed, and
      every directory has its dots. */
  ghost predicate Whole(sup: Super, s: State) {
    Valid(sup, s.disk, s.inodes) && Dotted(AbsAt(s))
  }

  /** When an operation succeeds, in terms of the volume before it. */
  ghost predicate Succeeds(sup: Super, s: State, op: Op) {
    var a := AbsAt(s);
    var x := Walk(a, 0, op.path);
    match op
    case Create(path) => CreateFits(sup, s.disk, s.inodes, path)
    case Mkdir(path) => MkdirFits(sup, s.disk, s.inodes, path)
    case Unlink(path) => path != [] && IsFileNode(a, x)
    case Rmdir(path) => Removable(a, path)
    case Write(path, offset, buf) => 0 <= x < |s.inodes| && WriteFits(sup, s.disk, s.inodes[x], offset, |buf|)
    case Truncate(path) => IsFileNode(a, x)
  }

  /** When an operation leaves blocks marked that nobody owns. */
  ghost predicate OpSpills(sup: Super, s: State, op: Op) {
    var x := Walk(AbsAt(s), 0, op.path);
    match op
    case Create(path) => CreateSpills(sup, s.disk, s.inodes, path)
    case Mkdir(path) => MkdirSpills(sup, s.disk, s.inodes, path)
    case Write(path, offset, buf) => 0 <= x < |s.inodes| && WriteSpills(sup, s.disk, s.inodes[x], offset, |buf|)
    case _ => false
  }

  /** When an operation breaks block ownership. */
  ghost predicate Harms(s: State, op: Op) { op.Rmdir? && Harmful(AbsAt(s), op.path) }

  /** The lowest number that is no inode. */
  ghost predicate Lowest(a: Abs, c: nat) { c !in a && forall j: nat :: j < c ==> j in a }

  ghost predicate MadeFile(a: Abs, a': Abs, path: seq<Name>, c: nat) {
    Created(a, a', path, c, FileNode([], true)) && !IsDot(Last(path))
  }

  /** What one operation does to the abstract file system: its own effect if it
      succeeds, nothing if it fails. */
  ghost predicate AbsOp(a: Abs, op: Op, ok: bool, a': Abs) {
    if !ok then
      a' == a
    else
      match op
      case Create(path) => exists c: nat :: Lowest(a, c) && MadeFile(a, a', path, c)
      case Mkdir(path) => exists c: nat :: Lowest(a, c) && MadeDir(a, a', path, c)
      case Unlink(path) => IsFileNode(a, Walk(a, 0, path)) && Removed(a, a', path)
      case Rmdir(path) => Removable(a, path) && Removed(a, a', path)
      case Write(path, offset, buf) =>
        if buf == [] then a' == a else Walk(a, 0, path) >= 0 && Wrote(a, a', Walk(a, 0, path), offset, buf)
      case Truncate(path) => IsFileNode(a, Walk(a, 0, path)) && a' == a[Walk(a, 0, path) := FileNode([], true)]
  }

  /** What it does to the bitmap and to the blocks of every inode. */
  ghost predicate LaidOut(sup: Super, s: State, op: Op, ok: bool, l': Layout)
    requires OnDisk(sup, s.disk)
  {
    var l, x := LayoutOf(sup, s.disk, s.inodes), Walk(AbsAt(s), 0, op.path);
    match op
    case Create(path) => CreateLaid(sup, s.disk, s.inodes, path, ok, l')
    case Mkdir(path) => MkdirLaid(sup, s.disk, s.inodes, path, ok, l')
    case Unlink(path) => if ok then RemoveLaid(sup, s.disk, s.inodes, path, l') else l' == l
    case Rmdir(path) => if ok then RemoveLaid(sup, s.disk, s.inodes, path, l') else l' == l
    case Write(path, offset, buf) =>
      if 0 <= x < |s.inodes| then WriteLaid(sup, l, x, offset, |buf|, ok, l') else l' == l
    case Truncate(path) => l' == if ok && 0 <= x < |s.inodes| then Emptied(l, x) else l
  }

  /** What an operation does that breaks nothing. */
  ghost predicate Sane(sup: Super, s: State, op: Op, ok: bool, s': State)
    requires OnDisk(sup, s.disk)
  {
    && Whole(sup, s') && AbsOp(AbsAt(s), op, ok, AbsAt(s'))
    && LaidOut(sup, s, op, ok, LayoutOf(sup, s'.disk, s'.inodes))
    && Spilled(Strays(sup, s.disk, s.inodes), Strays(sup, s'.disk, s'.inodes), OpSpills(sup, s, op))
  }

  /** One operation of a run: it succeeds exactly when it can, keeps the invariant unless
      it removes a directory by its own ".", has its effect, and spills blocks exactly
      when it must. */
  ghost predicate Step(sup: Super, s: State, op: Op, ok: bool, s': State) {
    && Whole(sup, s) && (ok <==> Succeeds(sup, s, op))
    && if Harms(s, op) then
         var c := Walk(AbsAt(s), 0, op.path);
         c >= 0 && Undone(sup, s.disk, s.inodes, s'.disk, s'.inodes, c)
       else
         Sane(sup, s, op, ok, s')
  }

  ghost function Steps(sup: Super): (State, Op, bool, State) -> bool {
    (s, op, ok, s') => Step(sup, s, op, ok, s')
  }

  /** Ownership is lost exactly by removing a directory by its own ".". */
  lemma StepKeeps(sup: Super, s: State, op: Op, ok: bool, s': State)
    requires Step(sup, s, op, ok, s')
    ensures Whole(sup, s') <==> !Harms(s, op)
    ensures Valid(sup, s'.disk, s'.inodes) <==> !Harms(s, op)
  {
    if Harms(s, op) {
      UndoneIsInvalid(sup, s.disk, s.inodes, s'.disk, s'.inodes, Walk(AbsAt(s), 0, op.path));
    }
  }

  lemma TightAfter(a: Abs, op: Op, ok: bool, a': Abs)
    requires AbsOp(a, op, ok, a') && AllTight(a) && Bounded(op)
    ensures AllTight(a')
  {}

  // ----- the dots -----

  lemma DotsKept(a: Abs, a': Abs, d: int)
    requires IsDirNode(a, d) && DotsOf(a, d) && IsDirNode(a', d)
    requires DOT in a'[d].entries && a'[d].entries[DOT] == d
    requires DOTDOT in a'[d].entries && a'[d].entries[DOTDOT] == a[d].entries[DOTDOT]
    requires d != 0 ==> NamedIn(a', a[d].entries[DOTDOT], d)
    ensures DotsOf(a', d)
  {}

  lemma DottedCreated(a: Abs, a': Abs, path: seq<Name>, c: nat, node: Node)
    requires Dotted(a) && Created(a, a', path, c, node) && !IsDot(Last(path)) && c != 0
    requires node.DirNode? ==> node.entries == map[DOT := c, DOTDOT := Walk(a, 0, Parent(path))]
    ensures Dotted(a')
  {
    var p, name := Walk(a, 0, Parent(path)), Last(path);
    forall d {:trigger IsDirNode(a', d)} | IsDirNode(a', d) ensures DotsOf(a', d) {
      if d == c {
        assert a'[p].entries[name] == c;
      } else {
        assert IsDirNode(a, d) && DotsOf(a, d);
        var q := a[d].entries[DOTDOT];
        if d != 0 {
          assert NamedIn(a, q, d);
          var n :| n in a[q].entries && !IsDot(n) && a[q].entries[n] == d;
          assert n in a'[q].entries && a'[q].entries[n] == d;
        }
        DotsKept(a, a', d);
      }
    }
  }

  lemma DottedRemoved(a: Abs, a': Abs, path: seq<Name>)
    requires Dotted(a) && Removed(a, a', path) && Walk(a, 0, path) != 0
    requires IsDirNode(a, Walk(a, 0, path)) ==> IsEmptyDir(a, Walk(a, 0, path))
    requires a[Walk(a, 0, Parent(path))].entries[Last(path)] == Walk(a, 0, path)
    ensures Dotted(a')
  {
    var c, name := Walk(a, 0, path), Last(path);
    forall d {:trigger IsDirNode(a', d)} | IsDirNode(a', d) ensures DotsOf(a', d) {
      assert IsDirNode(a, d) && DotsOf(a, d);
      var q := a[d].entries[DOTDOT];
      if d != 0 {
        assert NamedIn(a, q, d);
        var n :| n in a[q].entries && !IsDot(n) && a[q].entries[n] == d;
        assert q != c;
        assert n in a'[q].entries && a'[q].entries[n] == d;
      }
      DotsKept(a, a', d);
    }
  }

  lemma DottedFile(a: Abs, a': Abs, f: nat)
    requires Dotted(a) && IsFileNode(a, f) && f in a' && a' == a[f := a'[f]] && a'[f].FileNode?
    ensures Dotted(a')
  {
    forall d {:trigger IsDirNode(a', d)} | IsDirNode(a', d) ensures DotsOf(a', d) {
      assert IsDirNode(a, d) && DotsOf(a, d);
      if d != 0 {
        assert NamedIn(a, a[d].entries[DOTDOT], d);
      }
      DotsKept(a, a', d);
    }
  }

  /** Every operation that succeeds without harm keeps the dots in place. */
  lemma DottedAfter(a: Abs, op: Op, ok: bool, a': Abs)
    requires Dotted(a) && AbsOp(a, op, ok, a') && IsDirNode(a, 0)
    ensures Dotted(a')
  {
    if ok {
      match op {
        case Create(path) =>
          var c: nat :| Lowest(a, c) && MadeFile(a, a', path, c);
          DottedCreated(a, a', path, c, FileNode([], true));
        case Mkdir(path) =>
          var c: nat :| Lowest(a, c) && MadeDir(a, a', path, c);
          DottedCreated(a, a', path, c, DirNode(map[DOT := c, DOTDOT := Walk(a, 0, Parent(path))]));
        case Unlink(path) =>
          RemovedChildOf(a, a', path);
          DottedRemoved(a, a', path);
        case Rmdir(path) =>
          RemovedChildOf(a, a', path);
          DottedRemoved(a, a', path);
        case Write(path, offset, buf) =>
          if buf != [] {
            DottedFile(a, a', Walk(a, 0, path));
          }
        case Truncate(path) =>
          DottedFile(a, a', Walk(a, 0, path));
      }
    }
  }

  lemma RemovedChildOf(a: Abs, a': Abs, path: seq<Name>)
    requires Removed(a, a', path) && 0 in a
    ensures a[Walk(a, 0, Parent(path))].entries[Last(path)] == Walk(a, 0, path)
  {
    WalkSnoc(a, 0, Parent(path), Last(path));
    assert Parent(path) + [Last(path)] == path;
  }

  // ----- one operation -----

  lemma LowestIs(d: seq<Block>, inodes: seq<Inode>, c: nat)
    requires FirstUnused(inodes, c)
    ensures Lowest(AbsOf(d, inodes), c)
  {
    AbstractAt(d, inodes, c);
    forall j: nat | j < c ensures j in AbsOf(d, inodes) {
      AbstractAt(d, inodes, j);
    }
  }

  /** An operation that keeps the invariant and has its effect keeps the dots too. */
  lemma IsStep(sup: Super, s: State, op: Op, ok: bool, s': State)
    requires Whole(sup, s) && (ok <==> Succeeds(sup, s, op)) && !Harms(s, op)
    requires Valid(sup, s'.disk, s'.inodes) && AbsOp(AbsAt(s), op, ok, AbsAt(s'))
    requires LaidOut(sup, s, op, ok, LayoutOf(sup, s'.disk, s'.inodes))
    requires Spilled(Strays(sup, s.disk, s.inodes), Strays(sup, s'.disk, s'.inodes), OpSpills(sup, s, op))
    ensures Step(sup, s, op, ok, s')
  {
    AbstractAt(s.disk, s.inodes, 0);
    DottedAfter(AbsAt(s), op, ok, AbsAt(s'));
  }

  method DoCreate(vol: Volume, path: seq<Name>) returns (ok: bool)
    requires Whole(vol.sup, Now(vol)) && IsPath(path)
    modifies vol
    ensures Step(vol.sup, old(Now(vol)), Create(path), ok, Now(vol))
  {
    var c;
    ok, c := CreatePath(vol, path);
    if ok {
      LowestIs(old(vol.disk), old(vol.inodes), c);
      assert MadeFile(old(Abstract(vol)), Abstract(vol), path, c);
    }
    IsStep(vol.sup, old(Now(vol)), Create(path), ok, Now(vol));
  }

  method DoMkdir(vol: Volume, path: seq<Name>) returns (ok: bool)
    requires Whole(vol.sup, Now(vol)) && IsPath(path)
    modifies vol
    ensures Step(vol.sup, old(Now(vol)), Mkdir(path), ok, Now(vol))
  {
    var c;
    ok, c := MkdirPath(vol, path);
    if ok {
      LowestIs(old(vol.disk), old(vol.inodes), c);
      assert MadeDir(old(Abstract(vol)), Abstract(vol), path, c);
    }
    IsStep(vol.sup, old(Now(vol)), Mkdir(path), ok, Now(vol));
  }

  method DoUnlink(vol: Volume, path: seq<Name>) returns (ok: bool)
    requires Whole(vol.sup, Now(vol)) && IsPath(path)
    modifies vol
    ensures Step(vol.sup, old(Now(vol)), Unlink(path), ok, Now(vol))
  {
    ok := UnlinkPath(vol, path);
    IsStep(vol.sup, old(Now(vol)), Unlink(path), ok, Now(vol));
  }

  method DoRmdir(vol: Volume, path: seq<Name>) returns (ok: bool)
    requires Whole(vol.sup, Now(vol)) && IsPath(path)
    modifies vol
    ensures Step(vol.sup, old(Now(vol)), Rmdir(path), ok, Now(vol))
  {
    ghost var s := Now(vol);
    ok := RmdirPath(vol, path);
    if !Harms(s, Rmdir(path)) {
      IsStep(vol.sup, s, Rmdir(path), ok, Now(vol));
    }
  }

  /** Opens the file a path names and writes to it. */
  method WritePath(vol: Volume, path: seq<Name>, offset: nat, buf: seq<Byte>) returns (ok: bool)
    requires Whole(vol.sup, Now(vol)) && IsPath(path)
    requires offset < 0x1_0000_0000 && |buf| < 0x1_0000_0000
    modifies vol
    ensures Step(vol.sup, old(Now(vol)), Write(path, offset, buf), ok, Now(vol))
  {
    var f := LookupPath(vol, path);
    AbstractAt(vol.disk, vol.inodes, f);
    ok := false;
    if f >= 0 {
      var wrote, _, _ := WriteFileRange(vol, f, vol.inodes[f], offset, buf);
      ok := wrote;
    }
    IsStep(vol.sup, old(Now(vol)), Write(path, offset, buf), ok, Now(vol));
  }

  method TruncatePath(vol: Volume, path: seq<Name>) returns (ok: bool)
    requires Whole(vol.sup, Now(vol)) && IsPath(path)
    modifies vol
    ensures Step(vol.sup, old(Now(vol)), Truncate(path), ok, Now(vol))
  {
    var f := LookupPath(vol, path);
    AbstractAt(vol.disk, vol.inodes, f);
    assert f >= 0 ==> Shaped(vol.inodes[f]);
    ok := false;
    if f >= 0 {
      var emptied, _ := TruncateInode(vol, f, vol.inodes[f]);
      ok := emptied;
    }
    IsStep(vol.sup, old(Now(vol)), Truncate(path), ok, Now(vol));
  }

  method Apply(vol: Volume, op: Op) returns (ok: bool)
    requires Whole(vol.sup, Now(vol)) && Legal(op)
    modifies vol
    ensures Step(vol.sup, old(Now(vol)), op, ok, Now(vol))
  {
    match op {
      case Create(path) =>
        ok := DoCreate(vol, path);
      case Mkdir(path) =>
        ok := DoMkdir(vol, path);
      case Unlink(path) =>
        ok := DoUnlink(vol, path);
      case Rmdir(path) =>
        ok := DoRmdir(vol, path);
      case Write(path, offset, buf) =>
        ok := WritePath(vol, path, offset, buf);
      case Truncate(path) =>
        ok := TruncatePath(vol, path);
    }
  }

  // ----- whole runs -----

  /** The stray blocks are the metadata until the first spill, and never again. */
  lemma StraysStep(sup: Super, before: set<nat>, after: set<nat>, spills: bool)
    requires AllMetadata(sup, before) && Spilled(before, after, spills)
    ensures AllMetadata(sup, after) && (OnlyMetadata(sup, after) <==> OnlyMetadata(sup, before) && !spills)
  {
    if spills {
      var x :| x in after && x !in before;
      if OnlyMetadata(sup, before) {
        assert x >= sup.dataStart;
      }
    }
  }

  ghost predicate SpilledBefore(sup: Super, trace: seq<State>, ops: seq<Op>, n: nat) {
    n <= |trace| && n <= |ops| && exists i {:trigger ops[i]} :: 0 <= i < n && OpSpills(sup, trace[i], ops[i])
  }

  lemma SpilledNext(sup: Super, trace: seq<State>, ops: seq<Op>, n: nat)
    requires n < |trace| && n < |ops|
    ensures SpilledBefore(sup, trace, ops, n + 1) <==>
      SpilledBefore(sup, trace, ops, n) || OpSpills(sup, trace[n], ops[n])
  {}

  lemma StepStrays(sup: Super, s: State, op: Op, ok: bool, s': State)
    requires Step(sup, s, op, ok, s') && Whole(sup, s') && AllMetadata(sup, Strays(sup, s.disk, s.inodes))
    ensures var before, after := Strays(sup, s.disk, s.inodes), Strays(sup, s'.disk, s'.inodes);
            AllMetadata(sup, after)
            && (OnlyMetadata(sup, after) <==> OnlyMetadata(sup, before) && !OpSpills(sup, s, op))
  {
    StepKeeps(sup, s, op, ok, s');
    StraysStep(sup, Strays(sup, s.disk, s.inodes), Strays(sup, s'.disk, s'.inodes), OpSpills(sup, s, op));
  }

  /** Over every run, a marked block without an owner is metadata exactly if no
      operation so far has met the condition for spilling. */
  lemma {:induction false} RanStrays(sup: Super, ops: seq<Op>, done: seq<bool>, trace: seq<State>, n: nat)
    requires Ran(Steps(sup), ops, done, trace) && n < |trace| && Whole(sup, trace[0]) && Whole(sup, trace[n])
    requires var strays := Strays(sup, trace[0].disk, trace[0].inodes);
      OnlyMetadata(sup, strays) && AllMetadata(sup, strays)
    ensures var strays := Strays(sup, trace[n].disk, trace[n].inodes);
            AllMetadata(sup, strays) && (OnlyMetadata(sup, strays) <==> !SpilledBefore(sup, trace, ops, n))
  {
    if n > 0 {
      var s, s', op := trace[n - 1], trace[n], ops[n - 1];
      assert Steps(sup)(s, op, done[n - 1], s');
      RanStrays(sup, ops, done, trace, n - 1);
      StepStrays(sup, s, op, done[n - 1], s');
      SpilledNext(sup, trace, ops, n - 1);
    }
  }

  /** Over every run whose writes end at or below the largest size, files have exactly
      the blocks their bytes need and zeros after them. */
  lemma {:induction false} RanTight(sup: Super, ops: seq<Op>, done: seq<bool>, trace: seq<State>, n: nat)
    requires Ran(Steps(sup), ops, done, trace) && n < |trace| && AllTight(AbsAt(trace[0])) && Whole(sup, trace[n])
    requires forall i {:trigger ops[i]} :: 0 <= i < n ==> Bounded(ops[i])
    ensures AllTight(AbsAt(trace[n]))
  {
    if n > 0 {
      var s, s', op := trace[n - 1], trace[n], ops[n - 1];
      assert Steps(sup)(s, op, done[n - 1], s');
      StepKeeps(sup, s, op, done[n - 1], s');
      RanTight(sup, ops, done, trace, n - 1);
      TightAfter(AbsAt(s), op, done[n - 1], AbsAt(s'));
    }
  }

  /** The invariant holds in every state of a run but the last, and there exactly if the
      last operation did not break it; in that case all operations were performed. */
  ghost predicate StopsAtHarm(sup: Super, ops: seq<Op>, done: seq<bool>, trace: seq<State>) {
    && |done| <= |ops| && |trace| == |done| + 1
    && (forall i {:trigger trace[i]} :: 0 <= i < |done| ==> Whole(sup, trace[i]))
    && (forall i {:trigger ops[i]} :: 0 <= i < |done| - 1 ==> !Harms(trace[i], ops[i]))
    && (Whole(sup, trace[|done|]) <==> done == [] || !Harms(trace[|done| - 1], ops[|done| - 1]))
    && (Whole(sup, trace[|done|]) ==> |done| == |ops|)
  }

  /** No operation so far has broken anything. */
  ghost predicate Unharmed(sup: Super, ops: seq<Op>, done: seq<bool>, trace: seq<State>) {
    && |done| <= |ops| && |trace| == |done| + 1
    && (forall i {:trigger trace[i]} :: 0 <= i < |trace| ==> Whole(sup, trace[i]))
    && (forall i {:trigger ops[i]} :: 0 <= i < |done| ==> !Harms(trace[i], ops[i]))
  }

  lemma UnharmedOneMore(sup: Super, ops: seq<Op>, done: seq<bool>, trace: seq<State>, ok: bool, s: State)
    requires Unharmed(sup, ops, done, trace) && |done| < |ops| && Step(sup, trace[|done|], ops[|done|], ok, s)
    ensures if Harms(trace[|done|], ops[|done|]) then StopsAtHarm(sup, ops, done + [ok], trace + [s])
            else Unharmed(sup, ops, done + [ok], trace + [s])
  {
    StepKeeps(sup, trace[|done|], ops[|done|], ok, s);
    var trace' := trace + [s];
    assert forall i {:trigger trace'[i]} :: 0 <= i < |trace| ==> trace'[i] == trace[i];
    assert forall i {:trigger ops[i]} :: 0 <= i < |trace| ==> trace'[i] == trace[i];
  }

  lemma UnharmedToTheEnd(sup: Super, ops: seq<Op>, done: seq<bool>, trace: seq<State>)
    requires Unharmed(sup, ops, done, trace) && |done| == |ops|
    ensures StopsAtHarm(sup, ops, done, trace)
  {
    assert done != [] ==> !Harms(trace[|done| - 1], ops[|done| - 1]);
  }

  /** Every marked block without an owner is metadata exactly if nothing spilled, and files
      have exactly the blocks their bytes need if all writes were bounded. */
  ghost predicate Accounted(sup: Super, ops: seq<Op>, trace: seq<State>, n: nat)
    requires n < |trace| && n <= |ops| && OnDisk(sup, trace[n].disk)
  {
    var strays := Strays(sup, trace[n].disk, trace[n].inodes);
    && AllMetadata(sup, strays) && (OnlyMetadata(sup, strays) <==> !SpilledBefore(sup, trace, ops, n))
    && ((forall i {:trigger ops[i]} :: 0 <= i < n ==> Bounded(ops[i])) ==> AllTight(AbsAt(trace[n])))
  }

  lemma RanAccounted(sup: Super, ops: seq<Op>, done: seq<bool>, trace: seq<State>, n: nat)
    requires Ran(Steps(sup), ops, done, trace) && n < |trace| && Whole(sup, trace[0]) && Whole(sup, trace[n])
    requires AbsAt(trace[0]) == map[0 := DirNode(map[DOT := 0, DOTDOT := 0])]
    requires var strays := Strays(sup, trace[0].disk, trace[0].inodes);
      OnlyMetadata(sup, strays) && AllMetadata(sup, strays)
    ensures Accounted(sup, ops, trace, n)
  {
    RanStrays(sup, ops, done, trace, n);
    if forall i {:trigger ops[i]} :: 0 <= i < n ==> Bounded(ops[i]) {
      RanTight(sup, ops, done, trace, n);
    }
  }

  /** Applies operations one after the other, up to the first that breaks block
      ownership: a directory removed by its own ".". */
  method ApplyAll(vol: Volume, ops: seq<Op>) returns (done: seq<bool>, ghost trace: seq<State>)
    requires Whole(vol.sup, Now(vol)) && forall i :: 0 <= i < |ops| ==> Legal(ops[i])
    modifies vol
    ensures Ran(Steps(vol.sup), ops, done, trace) && trace[0] == old(Now(vol)) && trace[|done|] == Now(vol)
    ensures StopsAtHarm(vol.sup, ops, done, trace)
  {
    done, trace := [], [Now(vol)];
    for n := 0 to |ops|
      invariant Unharmed(vol.sup, ops, done, trace)
      invariant Ran(Steps(vol.sup), ops, done, trace) && |done| == n && trace[0] == old(Now(vol))
      invariant trace[n] == Now(vol)
    {
      var ok := Apply(vol, ops[n]);
      UnharmedOneMore(vol.sup, ops, done, trace, ok, Now(vol));
      RanOneMore(Steps(vol.sup), ops, done, trace, ok, Now(vol));
      ghost var s := trace[n];
      done, trace := done + [ok], trace + [Now(vol)];
      if ops[n].Rmdir? && ok && ops[n].path[|ops[n].path| - 1] == DOT {
        return;
      }
      assert !Harms(s, ops[n]);
    }
    UnharmedToTheEnd(vol.sup, ops, done, trace);
  }

  /** Every sequence of operations from a freshly made image, successful or not,
      keeps block ownership exclusive and the tree well formed until a directory is
      removed by its own "."; each operation succeeds exactly when it can, follows the
      abstract file system, and changes the bitmap and the blocks of inodes in the one
      way it can.  The bitmap marks the metadata and the blocks of inodes in use and
      nothing else, exactly if no operation met the condition for spilling. */
  method RunFromMkfs(total: nat, ops: seq<Op>) returns (ok: bool, vol: Volume, done: seq<bool>, ghost trace: seq<State>)
    requires total < 0x8000_0000
    requires forall i :: 0 <= i < |ops| ==> Legal(ops[i])
    ensures ok <==> 1 + (total + 4095) / 4096 + INODE_BLOCKS < total
    ensures ok ==> vol.sup.totalBlocks == total && Ran(Steps(vol.sup), ops, done, trace) && trace[|done|] == Now(vol)
    ensures ok ==> AbsAt(trace[0]) == map[0 := DirNode(map[DOT := 0, DOTDOT := 0])]
    ensures ok ==> StopsAtHarm(vol.sup, ops, done, trace)
    ensures ok && Whole(vol.sup, Now(vol)) ==> |done| == |ops| && Accounted(vol.sup, ops, trace, |ops|)
  {
    ok, vol := Mkfs(total);
    done, trace := [], [];
    if !ok {
      return;
    }
    FreshDots();
    done, trace := ApplyAll(vol, ops);
    if Whole(vol.sup, Now(vol)) {
      RanAccounted(vol.sup, ops, done, trace, |ops|);
    }
  }

  lemma FreshDots()
    ensures Dotted(map[0 := DirNode(map[DOT := 0, DOTDOT := 0])])
  {
    var a: Abs := map[0 := DirNode(map[DOT := 0, DOTDOT := 0])];
    assert forall d {:trigger IsDirNode(a, d)} :: IsDirNode(a, d) ==> d == 0;
  }

  /** The directory "a" made, and then removed as "a/.": that succeeds, and the volume is
      broken. */
  method RmdirDotExample() returns (vol: Volume, made: bool, removed: bool)
    ensures fresh(vol) && made && removed && !Valid(vol.sup, vol.disk, vol.inodes)
  {
    var name: Name := [97];
    var ok, c;
    ok, vol := Mkfs(INODE_BLOCKS + 4);
    FreshDots();
    RoomInRoot(vol.sup, vol.disk, vol.inodes, [name]);
    OneFreeBlock(vol.sup, vol.disk, vol.inodes, [name]);
    ghost var a := Abstract(vol);
    ghost var s := Now(vol);
    made, c := MkdirPath(vol, [name]);
    LowestIs(s.disk, s.inodes, c);
    assert MadeDir(a, Abstract(vol), [name], c);
    AbstractAt(vol.disk, vol.inodes, 0);
    DottedAfter(a, Mkdir([name]), true, Abstract(vol));
    MadeInRoot(a, Abstract(vol), name, c);
    removed := RmdirPath(vol, [name, DOT]);
  }

  /** One data block is free: enough for a directory in a root that is not full. */
  lemma OneFreeBlock(sup: Super, d: seq<Block>, inodes: seq<Inode>, path: seq<Name>)
    requires OnDisk(sup, d) && CreateFits(sup, d, inodes, path) && sup.totalBlocks == sup.dataStart + 2
    requires Bits(sup, d)[sup.dataStart] && !Bits(sup, d)[sup.dataStart + 1]
    requires !FullDir(Entries(d, ParentInode(d, inodes, path)))
    ensures MkdirFits(sup, d, inodes, path)
  {
    var b := sup.dataStart + 1;
    assert FirstFit(sup, Bits(sup, d), 1, b);
  }

  lemma MadeInRoot(a: Abs, a': Abs, name: Name, c: nat)
    requires 0 in a && MadeDir(a, a', [name], c) && c != 0
    ensures Harmful(a', [name, DOT])
  {
    assert Parent([name]) == [] && [name, DOT][1..] == [DOT] && [DOT][1..] == [];
    assert Child(a', 0, name) == c && Child(a', c, DOT) == c;
    assert Walk(a', 0, [name, DOT]) == Walk(a', c, [DOT]) == c;
  }

  /** A volume with one free block, and a write of two: it fails, and the block it took
      first stays marked although nobody owns it. */
  method SpillExample() returns (vol: Volume, written: bool)
    ensures fresh(vol) && Valid(vol.sup, vol.disk, vol.inodes)
    ensures !written && !OnlyMetadata(vol.sup, Stray(vol))
  {
    var path: seq<Name> := [[97]];
    var ok;
    ok, vol := Mkfs(INODE_BLOCKS + 4);
    ghost var bits := Bits(vol.sup, vol.disk);
    RoomInRoot(vol.sup, vol.disk, vol.inodes, path);
    var created, ino := CreatePath(vol, path);
    AbstractAt(vol.disk, vol.inodes, ino);
    TwoTooMany(vol.sup, bits);
    ghost var strays := Stray(vol);
    var wrote, _, _ := WriteFileRange(vol, ino, vol.inodes[ino], 0, seq(1024, _ => 0));
    written := wrote;
    StraysStep(vol.sup, strays, Stray(vol), true);
  }

  lemma RoomInRoot(sup: Super, d: seq<Block>, inodes: seq<Inode>, path: seq<Name>)
    requires Valid(sup, d, inodes) && AbsOf(d, inodes) == map[0 := DirNode(map[DOT := 0, DOTDOT := 0])]
    requires |inodes| > 1 && !FullDir(Entries(d, inodes[0])) && path == [[97]]
    ensures Creatable(d, inodes, path) && ParentInode(d, inodes, path) == inodes[0] && CreateFits(sup, d, inodes, path)
  {
    AbstractAt(d, inodes, 1);
    assert !inodes[1].used && Parent(path) == [];
  }

  /** One data block is free: two cannot be had, and one is taken in trying. */
  lemma TwoTooMany(sup: Super, bits: seq<bool>)
    requires |bits| == sup.totalBlocks == sup.dataStart + 2 && bits[sup.dataStart] && !bits[sup.dataStart + 1]
    ensures !CanGrow(bits, sup.dataStart, NO_EXTENTS, 2) && TakesSome(sup, bits, NO_EXTENTS)
  {
    PhysEmpty(NO_EXTENTS);
    SlotsOfNew();
    if CanGrow(bits, sup.dataStart, NO_EXTENTS, 2) {
      NeedsBlocks(bits, sup.dataStart, NO_EXTENTS, 2, {sup.dataStart + 1});
    }
    assert !DataFull(sup, bits);
  }

  /** A read after a write returns the bytes of the overwritten sequence. */
  method WriteThenRead(vol: Volume, f: nat, offset: nat, buf: seq<Byte>, at: nat, n: nat)
    returns (ok: bool, out: seq<Byte>)
    requires Valid(vol.sup, vol.disk, vol.inodes) && f < |vol.inodes| && vol.inodes[f].used && vol.inodes[f].kind.File?
    requires buf != [] && offset + |buf| <= MAX_SIZE && n < 0x1_0000_0000
    requires Tight(vol.disk, Blocks(vol.inodes[f]), vol.inodes[f].size)
    requires at <= Max(vol.inodes[f].size, offset + |buf|)
    modifies vol
    ensures Valid(vol.sup, vol.disk, vol.inodes)
    ensures ok <==> old(WriteFits(vol.sup, vol.disk, vol.inodes[f], offset, |buf|))
    ensures ok ==>
      var whole := Overwrite(Content(old(vol.disk), Blocks(old(vol.inodes)[f]), old(vol.inodes)[f].size), offset, buf);
      out == whole[at..Min(|whole|, at + n)]
  {
    AbstractAt(vol.disk, vol.inodes, f);
    var inode, written;
    ok, inode, written := WriteFileRange(vol, f, vol.inodes[f], offset, buf);
    if !ok {
      return false, [];
    }
    AbstractAt(vol.disk, vol.inodes, f);
    assert Holds(vol.sup, Bits(vol.sup, vol.disk), Blocks(vol.inodes[f]));
    assert |Abstract(vol)[f].data| == inode.size && Shaped(vol.inodes[f]);
    ok, out := ReadFileRange(vol, inode, at, n);
  }
}
