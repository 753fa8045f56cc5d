/** Whole runs of the FUSE implementation of NXFS (NXFS/nxfs.c), from the image its
    own mkfs writes. */
module FuseRun {
  import opened Bitmap
  import opened Extents
  import opened NxfsAlloc
  import opened NxfsDir
  import opened NxfsState
  import opened NxfsTree
  import opened NxfsOps
  import opened NxfsPaths
  import opened NxfsRemove
  import NxfsRun
  import FuseAlloc
  import opened FuseLayout
  import opened FuseOps
  import opened FuseFiles
  import opened Runs

  const SUPER := Super(1024, 1, 2, 32)
  const ROOT := DIR_NODE.(extents := FuseAlloc.Cleared(4)[0 := Extent(32, 1)])

  lemma RootOwnsOneBlock()
    ensures Blocks(ROOT) == [32] && Shaped(ROOT)
  {
    var es := FuseAlloc.Cleared(4)[0 := Extent(32, 1)];
    assert Packed(es);
    PhysEmpty(es[1..]);
    assert Phys(es) == Run(32, 1) + Phys(es[1..]);
  }

  /** A freshly made image accounts for every block. */
  lemma FormattedConserved(d: seq<Block>, inodes: seq<Inode>)
    requires NxfsRun.Formatted(SUPER, d, inodes, FREE_NODE)
    ensures Conserved(SUPER, d, inodes)
  {
    forall b | 0 <= b < SUPER.totalBlocks ensures Accounted(SUPER, d, inodes, b) {
      if b == SUPER.dataStart {
        assert b in Blocks(inodes[0]);
      } else {
        forall i {:trigger Blocks(inodes[i])} | 0 <= i < |inodes| ensures b !in Blocks(inodes[i]) {
          assert i > 0 ==> NxfsRun.IsFree(inodes[i], FREE_NODE);
        }
      }
    }
  }

  lemma FormattedIntact(d: seq<Block>, inodes: seq<Inode>)
    requires NxfsRun.Formatted(SUPER, d, inodes, FREE_NODE)
    ensures Intact(SUPER, d, inodes) && AbsOf(d, inodes) == map[0 := DirNode(map[DOT := 0, DOTDOT := 0])]
  {
    NxfsRun.FormattedStore(SUPER, d, inodes, FREE_NODE);
    NxfsRun.FormattedTree(SUPER, d, inodes, FREE_NODE);
    FormattedConserved(d, inodes);
  }

  method Mkfs() returns (vol: Volume)
    ensures fresh(vol) && Intact(vol.sup, vol.disk, vol.inodes) && vol.sup == SUPER
    ensures Abstract(vol) == map[0 := DirNode(map[DOT := 0, DOTDOT := 0])]
  {
    vol := new Volume(SUPER, seq(1024, _ => ZeroBlock()), NxfsRun.Copies(FREE_NODE, 128));
    NxfsRun.ZeroDiskBits(SUPER, vol.disk);
    FuseAlloc.MarkRun(vol, 0, 33, true);
    RootOwnsOneBlock();
    EmptyNodes(vol.disk);
    NxfsRun.RootWritten(SUPER, vol.disk, vol.inodes, ROOT, FREE_NODE);
    vol.disk := vol.disk[32 := NxfsRun.RootBlock()];
    vol.inodes := vol.inodes[0 := ROOT];
    FormattedIntact(vol.disk, vol.inodes);
  }

  datatype Op =
    | Create(path: seq<Name>)
    | Mkdir(path: seq<Name>)
    | Unlink(path: seq<Name>)
    | Rmdir(path: seq<Name>)
    | Write(path: seq<Name>, offset: nat, buf: seq<Byte>)
    | Truncate(path: seq<Name>, size: nat)

  /** A request a caller may make: C-string components, a 64-bit signed offset, a 64-bit
      length, and a new size that can be rounded up to blocks as a 64-bit signed number. */
  ghost predicate Legal(op: Op) {
    && IsPath(op.path)
    && (op.Write? ==> op.offset < TWO_63 && |op.buf| < TWO_64)
    && (op.Truncate? ==> op.size <= TWO_63 - 512)
  }

  /** No size above the largest end is asked for. */
  ghost predicate Bounded(op: Op) {
    && (op.Write? ==> op.buf == [] || op.offset + |op.buf| <= LAST_END)
    && (op.Truncate? ==> op.size <= LAST_END)
  }

  ghost function AbsAt(s: State): Abs { AbsOf(s.disk, s.inodes) }

  /** When an operation succeeds, in terms of the volume before it. */
  ghost predicate Succeeds(sup: Super, s: State, op: Op) {
    var a := AbsAt(s);
    var x := Walk(a, 0, op.path);
    match op
    case Create(path) => FileFits(sup, s.disk, s.inodes, path)
    case Mkdir(path) => DirFits(sup, s.disk, s.inodes, path)
    case Unlink(path) => path != [] && !IsDot(Last(path)) && IsFileNode(a, x)
    case Rmdir(path) => path != [] && !IsDot(Last(path)) && IsEmptyDir(a, x)
    case Write(path, offset, buf) => buf == [] || SizeFits(sup, s.disk, s.inodes, x, offset + |buf|)
    case Truncate(path, size) => SizeFits(sup, s.disk, s.inodes, x, size)
  }

  /** What one operation does to the abstract file system: its own effect if it
      succeeds, nothing if it fails. */
  ghost predicate AbsOp(a: Abs, op: Op, ok: bool, a': Abs) {
    if !ok then
      a' == a
    else
      match op
      case Create(path) => exists c: nat :: NxfsRun.Lowest(a, c) && NxfsRun.MadeFile(a, a', path, c)
      case Mkdir(path) => exists c: nat :: NxfsRun.Lowest(a, c) && MadeDir(a, a', path, c)
      case Unlink(path) => Removed(a, a', path)
      case Rmdir(path) => Removed(a, a', path)
      case Write(path, offset, buf) =>
        if buf == [] then a' == a else Walk(a, 0, path) >= 0 && Stored(a, a', Walk(a, 0, path), offset, buf)
      case Truncate(path, size) => Walk(a, 0, path) >= 0 && Truncated(a, a', Walk(a, 0, path), size)
  }

  /** What it does to the extents of every inode. */
  ghost predicate SketchedBy(sup: Super, s: State, op: Op, ok: bool, s': State)
    requires OnDisk(sup, s.disk)
  {
    var l, l', bits := Sketches(s.inodes), Sketches(s'.inodes), Bits(sup, s.disk);
    var x := Walk(AbsAt(s), 0, op.path);
    if !ok then
      l' == l
    else
      match op
      case Create(path) => FileLaid(sup, s.disk, s.inodes, path, s'.disk, s'.inodes)
      case Mkdir(path) => DirLaid(sup, s.disk, s.inodes, path, s'.disk, s'.inodes)
      case Unlink(path) => SketchGone(s.disk, s.inodes, path, s'.inodes)
      case Rmdir(path) => SketchGone(s.disk, s.inodes, path, s'.inodes)
      case Write(path, offset, buf) =>
        if buf == [] then l' == l else x >= 0 && WriteSketched(sup, bits, l, x, offset + |buf|, l')
      case Truncate(path, size) => x >= 0 && TruncateSketched(sup, bits, l, x, size, l')
  }

  /** One operation of a run: it keeps the invariant and the account of the bitmap,
      succeeds exactly when it can, and has its effect. */
  ghost predicate Step(sup: Super, s: State, op: Op, ok: bool, s': State) {
    && Intact(sup, s.disk, s.inodes) && Intact(sup, s'.disk, s'.inodes)
    && (ok <==> Succeeds(sup, s, op))
    && AbsOp(AbsAt(s), op, ok, AbsAt(s')) && SketchedBy(sup, s, op, ok, s')
  }

  ghost function Steps(sup: Super): (State, Op, bool, State) -> bool {
    (s, op, ok, s') => Step(sup, s, op, ok, s')
  }

  lemma TightAfter(a: Abs, op: Op, ok: bool, a': Abs)
    requires AbsOp(a, op, ok, a') && NxfsRun.AllTight(a) && Bounded(op)
    ensures NxfsRun.AllTight(a')
  {}

  method DoCreate(vol: Volume, path: seq<Name>) returns (ok: bool)
    requires Intact(vol.sup, vol.disk, vol.inodes) && IsPath(path)
    modifies vol
    ensures Step(vol.sup, old(Now(vol)), Create(path), ok, Now(vol))
  {
    ghost var c;
    ok, c := CreateFile(vol, path);
    if ok {
      NxfsRun.LowestIs(old(vol.disk), old(vol.inodes), c);
      assert NxfsRun.MadeFile(old(Abstract(vol)), Abstract(vol), path, c);
    }
  }

  method DoMkdir(vol: Volume, path: seq<Name>) returns (ok: bool)
    requires Intact(vol.sup, vol.disk, vol.inodes) && IsPath(path)
    modifies vol
    ensures Step(vol.sup, old(Now(vol)), Mkdir(path), ok, Now(vol))
  {
    ghost var c;
    ok, c := MakeDir(vol, path);
    if ok {
      NxfsRun.LowestIs(old(vol.disk), old(vol.inodes), c);
      assert MadeDir(old(Abstract(vol)), Abstract(vol), path, c);
    }
  }

  method Apply(vol: Volume, op: Op) returns (ok: bool)
    requires Intact(vol.sup, vol.disk, vol.inodes) && Legal(op)
    modifies vol
    ensures Step(vol.sup, old(Now(vol)), op, ok, Now(vol))
  {
    match op {
      case Create(path) =>
        ok := DoCreate(vol, path);
      case Mkdir(path) =>
        ok := DoMkdir(vol, path);
      case Unlink(path) =>
        ok := UnlinkFile(vol, path);
      case Rmdir(path) =>
        ok := RemoveDir(vol, path);
      case Write(path, offset, buf) =>
        ok := WriteFile(vol, path, offset, buf);
      case Truncate(path, size) =>
        ok := TruncateFile(vol, path, size);
    }
  }

  /** Over every run that asks for no size above the largest end, every file has exactly
      the blocks its bytes need. */
  lemma {:induction false} RanTight(sup: Super, ops: seq<Op>, done: seq<bool>, trace: seq<State>, n: nat)
    requires Ran(Steps(sup), ops, done, trace) && n < |trace| && NxfsRun.AllTight(AbsAt(trace[0]))
    requires forall i {:trigger ops[i]} :: 0 <= i < n ==> Bounded(ops[i])
    ensures NxfsRun.AllTight(AbsAt(trace[n]))
  {
    if n > 0 {
      RanTight(sup, ops, done, trace, n - 1);
      var s, s', op := trace[n - 1], trace[n], ops[n - 1];
      assert Steps(sup)(s, op, done[n - 1], s');
      TightAfter(AbsAt(s), op, done[n - 1], AbsAt(s'));
    }
  }

  /** Every sequence of operations from a fresh image, successful or not: no block
      is leaked or owned twice, each operation succeeds exactly when it can, follows
      the abstract file system and leads to the extents it must; `done` says which
      operations succeeded.  Every file has exactly the blocks its bytes need if no
      size above the largest end was asked for. */
  method RunFromMkfs(ops: seq<Op>) returns (vol: Volume, done: seq<bool>, ghost trace: seq<State>)
    requires forall i :: 0 <= i < |ops| ==> Legal(ops[i])
    ensures Valid(vol.sup, vol.disk, vol.inodes) && Conserved(vol.sup, vol.disk, vol.inodes)
    ensures Ran(Steps(vol.sup), ops, done, trace) && |done| == |ops| && trace[|ops|] == Now(vol)
    ensures AbsAt(trace[0]) == map[0 := DirNode(map[DOT := 0, DOTDOT := 0])]
    ensures (forall i {:trigger ops[i]} :: 0 <= i < |ops| ==> Bounded(ops[i])) ==> NxfsRun.AllTight(Abstract(vol))
  {
    vol := Mkfs();
    done, trace := [], [Now(vol)];
    for n := 0 to |ops|
      invariant Intact(vol.sup, vol.disk, vol.inodes) && fresh(vol)
      invariant Ran(Steps(vol.sup), ops, done, trace) && |done| == n && trace[n] == Now(vol)
      invariant AbsAt(trace[0]) == map[0 := DirNode(map[DOT := 0, DOTDOT := 0])]
    {
      var ok := Apply(vol, ops[n]);
      RanOneMore(Steps(vol.sup), ops, done, trace, ok, Now(vol));
      done, trace := done + [ok], trace + [Now(vol)];
    }
    if forall i {:trigger ops[i]} :: 0 <= i < |ops| ==> Bounded(ops[i]) {
      RanTight(vol.sup, ops, done, trace, |ops|);
    }
  }
}
