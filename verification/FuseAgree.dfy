/** What a run of the FUSE implementation of NXFS does is determined: the same operations
    from the same extents and tree succeed or fail alike and lead to the same extents and
    tree. */
module FuseAgree {
  import opened Bitmap
  import opened NxfsAlloc
  import opened NxfsDir
  import opened NxfsState
  import opened NxfsTree
  import opened NxfsLayout
  import opened NxfsPaths
  import NxfsRun
  import NxfsAgree
  import FuseAlloc
  import opened FuseLayout
  import opened FuseOps
  import opened FuseFiles
  import opened FuseRun
  import opened Runs

  /** The same extents for every inode and the same tree; the same file contents too if
      `exact`. */
  ghost predicate Like(s: State, t: State, exact: bool) {
    && Sketches(s.inodes) == Sketches(t.inodes)
    && NxfsAgree.TreeLike(AbsAt(s), AbsAt(t)) && (exact ==> AbsAt(s) == AbsAt(t))
  }

  lemma SketchLike(s: State, t: State, i: nat)
    requires Like(s, t, false) && i < |s.inodes|
    ensures i < |t.inodes| && SketchOf(s.inodes[i]) == SketchOf(t.inodes[i])
    ensures s.inodes[i].used == t.inodes[i].used && s.inodes[i].kind == t.inodes[i].kind
    ensures s.inodes[i].used ==> s.inodes[i].extents == t.inodes[i].extents
    ensures OutlineOf(s.inodes[i]) == OutlineOf(t.inodes[i])
  {
    assert |Sketches(s.inodes)| == |Sketches(t.inodes)|;
    assert Sketches(s.inodes)[i] == Sketches(t.inodes)[i];
  }

  /** The extents determine which blocks are marked. */
  lemma BitsLike(sup: Super, s: State, t: State)
    requires Conserved(sup, s.disk, s.inodes) && Conserved(sup, t.disk, t.inodes) && Like(s, t, false)
    ensures Bits(sup, s.disk) == Bits(sup, t.disk)
  {
    forall b | 0 <= b < sup.totalBlocks ensures Bits(sup, s.disk)[b] == Bits(sup, t.disk)[b] {
      assert Accounted(sup, s.disk, s.inodes, b) && Accounted(sup, t.disk, t.inodes, b);
      ClaimedLike(s, t, b);
      assert |Sketches(s.inodes)| == |Sketches(t.inodes)|;
      ClaimedLike(t, s, b);
    }
  }

  lemma ClaimedLike(s: State, t: State, b: nat)
    requires Sketches(s.inodes) == Sketches(t.inodes)
    ensures Claimed(s.inodes, b) ==> Claimed(t.inodes, b)
  {
    if Claimed(s.inodes, b) {
      var i {:trigger Blocks(s.inodes[i])} :| 0 <= i < |s.inodes| && b in Blocks(s.inodes[i]);
      assert |Sketches(s.inodes)| == |Sketches(t.inodes)| && Sketches(s.inodes)[i] == Sketches(t.inodes)[i];
      assert Blocks(t.inodes[i]) == Blocks(s.inodes[i]);
    }
  }

  lemma LayoutLike(sup: Super, s: State, t: State)
    requires Conserved(sup, s.disk, s.inodes) && Conserved(sup, t.disk, t.inodes) && Like(s, t, false)
    ensures NxfsAgree.Like(sup, s, t, false)
  {
    BitsLike(sup, s, t);
    assert |Sketches(s.inodes)| == |Sketches(t.inodes)|;
    forall i | 0 <= i < |s.inodes| ensures Outlines(s.inodes)[i] == Outlines(t.inodes)[i] {
      SketchLike(s, t, i);
    }
    assert Outlines(s.inodes) == Outlines(t.inodes);
  }

  // ----- the conditions agree -----

  lemma RoomLike(sup: Super, s: State, t: State, path: seq<Name>)
    requires Intact(sup, s.disk, s.inodes) && Intact(sup, t.disk, t.inodes) && Like(s, t, false)
    requires Creatable(s.disk, s.inodes, path) && Creatable(t.disk, t.inodes, path)
    ensures ParentInode(s.disk, s.inodes, path).extents == ParentInode(t.disk, t.inodes, path).extents
    ensures ParentFull(s.disk, s.inodes, path) == ParentFull(t.disk, t.inodes, path)
    ensures Walk(AbsAt(s), 0, Parent(path)) == Walk(AbsAt(t), 0, Parent(path))
  {
    LayoutLike(sup, s, t);
    NxfsAgree.ParentLike(sup, s, t, path);
    var p := Walk(AbsAt(s), 0, Parent(path));
    AbstractAt(s.disk, s.inodes, p);
    SketchLike(s, t, p);
  }

  lemma FitsLike(sup: Super, s: State, t: State, path: seq<Name>)
    requires Intact(sup, s.disk, s.inodes) && Intact(sup, t.disk, t.inodes) && Like(s, t, false)
    ensures FileFits(sup, s.disk, s.inodes, path) <==> FileFits(sup, t.disk, t.inodes, path)
    ensures DirFits(sup, s.disk, s.inodes, path) <==> DirFits(sup, t.disk, t.inodes, path)
  {
    LayoutLike(sup, s, t);
    BitsLike(sup, s, t);
    NxfsAgree.CreatableLike(sup, s, t, path);
    if Creatable(s.disk, s.inodes, path) {
      RoomLike(sup, s, t, path);
    }
  }

  lemma SizeLike(sup: Super, s: State, t: State, f: int, size: nat)
    requires Intact(sup, s.disk, s.inodes) && Intact(sup, t.disk, t.inodes) && Like(s, t, false)
    ensures SizeFits(sup, s.disk, s.inodes, f, size) <==> SizeFits(sup, t.disk, t.inodes, f, size)
  {
    BitsLike(sup, s, t);
    assert |Sketches(s.inodes)| == |Sketches(t.inodes)|;
    if 0 <= f < |s.inodes| {
      SketchLike(s, t, f);
    }
  }

  /** Whether an operation succeeds is determined by the extents and the tree. */
  lemma SucceedsLike(sup: Super, s: State, t: State, op: Op)
    requires Intact(sup, s.disk, s.inodes) && Intact(sup, t.disk, t.inodes) && Like(s, t, false)
    ensures Succeeds(sup, s, op) <==> Succeeds(sup, t, op)
  {
    var x := Walk(AbsAt(s), 0, op.path);
    NxfsAgree.WalkLike(AbsAt(s), AbsAt(t), 0, op.path);
    match op {
      case Create(path) =>
        FitsLike(sup, s, t, path);
      case Mkdir(path) =>
        FitsLike(sup, s, t, path);
      case Unlink(path) =>
      case Rmdir(path) =>
      case Write(path, offset, buf) =>
        SizeLike(sup, s, t, x, offset + |buf|);
      case Truncate(path, size) =>
        SizeLike(sup, s, t, x, size);
    }
  }

  // ----- the extents agree -----

  lemma FileLaidLike(sup: Super, s: State, t: State, path: seq<Name>, s': State, t': State)
    requires Intact(sup, s.disk, s.inodes) && Intact(sup, t.disk, t.inodes) && Like(s, t, false)
    requires FileLaid(sup, s.disk, s.inodes, path, s'.disk, s'.inodes)
    requires FileLaid(sup, t.disk, t.inodes, path, t'.disk, t'.inodes)
    ensures Sketches(s'.inodes) == Sketches(t'.inodes)
  {
    LayoutLike(sup, s, t);
    BitsLike(sup, s, t);
    RoomLike(sup, s, t, path);
    var l, p, full := Sketches(s.inodes), Walk(AbsAt(s), 0, Parent(path)), ParentFull(s.disk, s.inodes, path);
    var bits, node := Bits(sup, s.disk), SketchOf(FILE_NODE);
    var c: nat :| FirstUnused(s.inodes, c)
      && NewEntry(sup, bits, l, p, full, c, node, Bits(sup, s'.disk), Sketches(s'.inodes));
    var c2: nat :| FirstUnused(t.inodes, c2)
      && NewEntry(sup, bits, l, p, full, c2, node, Bits(sup, t'.disk), Sketches(t'.inodes));
    NxfsAgree.UnusedLike(sup, s, t, c, c2);
    NewEntryOnce(sup, bits, l, p, full, c, node, Bits(sup, s'.disk), Sketches(s'.inodes), Bits(sup, t'.disk),
                 Sketches(t'.inodes));
  }

  lemma DirLaidLike(sup: Super, s: State, t: State, path: seq<Name>, s': State, t': State)
    requires Intact(sup, s.disk, s.inodes) && Intact(sup, t.disk, t.inodes) && Like(s, t, false)
    requires DirLaid(sup, s.disk, s.inodes, path, s'.disk, s'.inodes)
    requires DirLaid(sup, t.disk, t.inodes, path, t'.disk, t'.inodes)
    ensures Sketches(s'.inodes) == Sketches(t'.inodes)
  {
    LayoutLike(sup, s, t);
    BitsLike(sup, s, t);
    RoomLike(sup, s, t, path);
    var l, p, full := Sketches(s.inodes), Walk(AbsAt(s), 0, Parent(path)), ParentFull(s.disk, s.inodes, path);
    var bits := Bits(sup, s.disk);
    var c: nat, g :| FirstUnused(s.inodes, c) && FirstFill(sup, bits, g)
      && NewEntry(sup, g.bits, l, p, full, c, Sketch(true, Dir, g.es), Bits(sup, s'.disk), Sketches(s'.inodes));
    var c2: nat, g2 :| FirstUnused(t.inodes, c2) && FirstFill(sup, bits, g2)
      && NewEntry(sup, g2.bits, l, p, full, c2, Sketch(true, Dir, g2.es), Bits(sup, t'.disk), Sketches(t'.inodes));
    NxfsAgree.UnusedLike(sup, s, t, c, c2);
    FuseAlloc.FilledOnce(sup, 1, FuseAlloc.Filling(bits, DIR_NODE.extents), g, g2);
    NewEntryOnce(sup, g.bits, l, p, full, c, Sketch(true, Dir, g.es), Bits(sup, s'.disk), Sketches(s'.inodes),
                 Bits(sup, t'.disk), Sketches(t'.inodes));
  }

  lemma TruncateSketchedOnce(sup: Super, bits: seq<bool>, l: seq<Sketch>, f: nat, size: nat, l': seq<Sketch>,
                             l2: seq<Sketch>)
    requires TruncateSketched(sup, bits, l, f, size, l') && TruncateSketched(sup, bits, l, f, size, l2)
    ensures l2 == l'
  {
    var es :| Refitted(sup, bits, l[f].es, Need(size), es)
      && l' == l[f := l[f].(es := if size == 0 then FuseAlloc.Cleared(4) else es)];
    var es2 :| Refitted(sup, bits, l[f].es, Need(size), es2)
      && l2 == l[f := l[f].(es := if size == 0 then FuseAlloc.Cleared(4) else es2)];
    RefittedOnce(sup, bits, l[f].es, Need(size), es, es2);
  }

  /** The extents an operation leads to are determined. */
  lemma SketchedLike(sup: Super, s: State, t: State, op: Op, ok: bool, s': State, t': State)
    requires Intact(sup, s.disk, s.inodes) && Intact(sup, t.disk, t.inodes) && Like(s, t, false)
    requires SketchedBy(sup, s, op, ok, s') && SketchedBy(sup, t, op, ok, t')
    ensures Sketches(s'.inodes) == Sketches(t'.inodes)
  {
    if ok {
      var x, l, bits := Walk(AbsAt(s), 0, op.path), Sketches(s.inodes), Bits(sup, s.disk);
      NxfsAgree.WalkLike(AbsAt(s), AbsAt(t), 0, op.path);
      BitsLike(sup, s, t);
      match op {
        case Create(path) =>
          FileLaidLike(sup, s, t, path, s', t');
        case Mkdir(path) =>
          DirLaidLike(sup, s, t, path, s', t');
        case Unlink(path) =>
        case Rmdir(path) =>
        case Write(path, offset, buf) =>
          if buf != [] {
            WriteSketchedOnce(sup, bits, l, x, offset + |buf|, Sketches(s'.inodes), Sketches(t'.inodes));
          }
        case Truncate(path, size) =>
          TruncateSketchedOnce(sup, bits, l, x, size, Sketches(s'.inodes), Sketches(t'.inodes));
      }
    }
  }

  // ----- the trees agree -----

  lemma AbsLike(a: Abs, b: Abs, op: Op, ok: bool, a': Abs, b': Abs)
    requires NxfsAgree.TreeLike(a, b) && AbsOp(a, op, ok, a') && AbsOp(b, op, ok, b')
    ensures NxfsAgree.TreeLike(a', b') && (a == b && NxfsRun.AllTight(a) && Bounded(op) ==> a' == b')
  {
    if ok {
      NxfsAgree.WalkLike(a, b, 0, op.path);
      match op {
        case Create(path) =>
          var c: nat :| NxfsRun.Lowest(a, c) && NxfsRun.MadeFile(a, a', path, c);
          var c2: nat :| NxfsRun.Lowest(b, c2) && NxfsRun.MadeFile(b, b', path, c2);
          NxfsAgree.LowestOnce(a, b, c, c2);
          NxfsAgree.CreatedLike(a, b, path, c, FileNode([], true), a', b');
        case Mkdir(path) =>
          var c: nat :| NxfsRun.Lowest(a, c) && MadeDir(a, a', path, c);
          var c2: nat :| NxfsRun.Lowest(b, c2) && MadeDir(b, b', path, c2);
          NxfsAgree.LowestOnce(a, b, c, c2);
          NxfsAgree.WalkLike(a, b, 0, Parent(path));
          NxfsAgree.CreatedLike(a, b, path, c, DirNode(map[DOT := c, DOTDOT := Walk(a, 0, Parent(path))]), a', b');
        case Unlink(path) =>
          NxfsAgree.RemovedLike(a, b, path, a', b');
        case Rmdir(path) =>
          NxfsAgree.RemovedLike(a, b, path, a', b');
        case Write(path, offset, buf) =>
          if buf != [] {
            assert a'.Keys == a.Keys && b'.Keys == b.Keys;
          }
        case Truncate(path, size) =>
          assert a'.Keys == a.Keys && b'.Keys == b.Keys;
      }
    }
  }

  /** Two steps of the same operation from like states: both succeed or both fail, and the
      states they lead to are like again. */
  lemma StepsAgree(sup: Super, s: State, t: State, op: Op, ok: bool, s': State, ok2: bool, t': State, exact: bool)
    requires Step(sup, s, op, ok, s') && Step(sup, t, op, ok2, t') && Like(s, t, exact)
    requires exact ==> NxfsRun.AllTight(AbsAt(s)) && Bounded(op)
    ensures ok2 == ok && Like(s', t', exact)
  {
    SucceedsLike(sup, s, t, op);
    SketchedLike(sup, s, t, op, ok, s', t');
    AbsLike(AbsAt(s), AbsAt(t), op, ok, AbsAt(s'), AbsAt(t'));
  }

  ghost predicate AllBounded(ops: seq<Op>) {
    forall i {:trigger ops[i]} :: 0 <= i < |ops| ==> Bounded(ops[i])
  }

  /** Two runs of the same operations from like states agree on which operations succeed
      and go through like states. */
  lemma {:induction false} RunsAgree(sup: Super, ops: seq<Op>, done: seq<bool>, trace: seq<State>, done2: seq<bool>,
                                     trace2: seq<State>, n: nat, exact: bool)
    requires Ran(Steps(sup), ops, done, trace) && Ran(Steps(sup), ops, done2, trace2)
    requires n < |trace| && n < |trace2| && Like(trace[0], trace2[0], exact)
    requires exact ==> NxfsRun.AllTight(AbsAt(trace[0])) && AllBounded(ops)
    ensures Like(trace[n], trace2[n], exact) && done[..n] == done2[..n]
  {
    if n > 0 {
      RunsAgree(sup, ops, done, trace, done2, trace2, n - 1, exact);
      var op := ops[n - 1];
      assert Steps(sup)(trace[n - 1], op, done[n - 1], trace[n]);
      assert Steps(sup)(trace2[n - 1], op, done2[n - 1], trace2[n]);
      if exact {
        RanTight(sup, ops, done, trace, n - 1);
      }
      StepsAgree(sup, trace[n - 1], trace2[n - 1], op, done[n - 1], trace[n], done2[n - 1], trace2[n], exact);
      assert done[..n] == done[..n - 1] + [done[n - 1]] && done2[..n] == done2[..n - 1] + [done2[n - 1]];
    }
  }
}
