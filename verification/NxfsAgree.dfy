/** What an NXFS run does is determined: whichever blocks and inodes stood behind it,
    the same operations from the same layout and tree succeed or fail alike and lead to
    the same layout and tree. */
module NxfsAgree {
  import opened Bitmap
  import opened NxfsAlloc
  import opened NxfsGrow
  import opened Coverage
  import opened NxfsDir
  import opened NxfsState
  import opened NxfsTree
  import opened NxfsLayout
  import opened NxfsDirOps
  import opened NxfsOps
  import opened NxfsPaths
  import opened NxfsRemove
  import opened NxfsFiles
  import opened NxfsRun
  import opened Runs

  /** The same inodes in use, the same directories, and files in the same places. */
  ghost predicate TreeLike(a: Abs, b: Abs) {
    a.Keys == b.Keys && forall i {:trigger a[i]} {:trigger b[i]} :: i in a ==>
      if a[i].DirNode? then b[i] == a[i] else b[i].FileNode?
  }

  /** The same bitmap, the same blocks for every inode and the same tree; the same file
      contents too if `exact`. */
  ghost predicate Like(sup: Super, s: State, t: State, exact: bool) {
    && OnDisk(sup, s.disk) && OnDisk(sup, t.disk)
    && LayoutOf(sup, s.disk, s.inodes) == LayoutOf(sup, t.disk, t.inodes)
    && TreeLike(AbsAt(s), AbsAt(t)) && (exact ==> AbsAt(s) == AbsAt(t))
  }

  lemma {:induction false} WalkLike(a: Abs, b: Abs, cur: nat, path: seq<Name>)
    requires TreeLike(a, b)
    ensures Walk(a, cur, path) == Walk(b, cur, path)
    decreases |path|
  {
    if path != [] {
      assert Child(a, cur, path[0]) == Child(b, cur, path[0]);
      if Child(a, cur, path[0]) >= 0 {
        WalkLike(a, b, Child(a, cur, path[0]), path[1..]);
      }
    }
  }

  // ----- a full directory -----

  lemma NameMapSnoc(slots: seq<DirSlot>)
    requires UniqueNames(slots) && slots != []
    ensures var front, last := slots[..|slots| - 1], slots[|slots| - 1];
            && UniqueNames(front)
            && (Live(last) ==> last.name !in NameMap(front))
            && NameMap(slots) == if Live(last) then NameMap(front)[last.name := last.ino] else NameMap(front)
  {
    var n := |slots| - 1;
    var front, last := slots[..n], slots[n];
    assert forall k {:trigger Live(front[k])} :: 0 <= k < n ==> Live(front[k]) == Live(slots[k]);
    var m := if Live(last) then NameMap(front)[last.name := last.ino] else NameMap(front);
    if Live(last) {
      forall k | 0 <= k < n ensures front[k].name != last.name {
        assert Live(front[k]) ==> Live(slots[k]) && Live(slots[n]);
      }
      NameMapAbsent(front, last.name);
    }
    forall name | Maps(m, name)
      ensures exists k {:trigger Live(slots[k])} ::
        0 <= k < |slots| && Live(slots[k]) && slots[k].name == name && slots[k].ino == m[name]
    {
      if Live(last) && name == last.name {
        assert Live(slots[n]);
      } else {
        assert Maps(NameMap(front), name);
        var k :| 0 <= k < n && Live(front[k]) && front[k].name == name && front[k].ino == NameMap(front)[name];
        assert Live(slots[k]);
      }
    }
    assert forall k {:trigger Live(slots[k])} :: 0 <= k < n ==> Live(front[k]) == Live(slots[k]);
    NameMapIs(slots, m);
  }

  /** A directory is full exactly if it has as many names as slots. */
  lemma {:induction false} FullCount(slots: seq<DirSlot>)
    requires UniqueNames(slots)
    ensures |NameMap(slots)| <= |slots| && (FullDir(slots) <==> |NameMap(slots)| == |slots|)
    decreases |slots|
  {
    if slots == [] {
      NameMapIs(slots, map[]);
    } else {
      var n := |slots| - 1;
      var front, last, m := slots[..n], slots[n], NameMap(slots[..n]);
      NameMapSnoc(slots);
      FullCount(front);
      if Live(last) {
        assert m[last.name := last.ino].Keys == m.Keys + {last.name};
        assert |m[last.name := last.ino]| == |m| + 1;
      }
      assert FullDir(slots) <==> FullDir(front) && Live(last) by {
        assert forall k {:trigger Live(front[k])} :: 0 <= k < n ==> Live(front[k]) == Live(slots[k]);
        assert forall k {:trigger Live(slots[k])} :: 0 <= k < n ==> Live(front[k]) == Live(slots[k]);
      }
    }
  }

  /** Whether a directory is full can be told from its names and its blocks. */
  lemma FullLike(sup: Super, s: State, t: State, p: nat)
    requires Valid(sup, s.disk, s.inodes) && Valid(sup, t.disk, t.inodes) && Like(sup, s, t, false)
    requires p < |s.inodes| && p < |t.inodes|
    requires s.inodes[p].used && s.inodes[p].kind.Dir?
    ensures FullDir(Entries(s.disk, s.inodes[p])) <==> FullDir(Entries(t.disk, t.inodes[p]))
  {
    SlotCount(sup, s, p);
    assert Outlines(s.inodes)[p] == Outlines(t.inodes)[p];
    SlotCount(sup, t, p);
    AbstractAt(s.disk, s.inodes, p);
    AbstractAt(t.disk, t.inodes, p);
    FullCount(Entries(s.disk, s.inodes[p]));
    FullCount(Entries(t.disk, t.inodes[p]));
  }

  lemma SlotCount(sup: Super, s: State, p: nat)
    requires Valid(sup, s.disk, s.inodes) && p < |s.inodes| && s.inodes[p].kind.Dir?
    ensures |Entries(s.disk, s.inodes[p])| == 16 * |Blocks(s.inodes[p])| && UniqueNames(Entries(s.disk, s.inodes[p]))
  {
    assert Holds(sup, Bits(sup, s.disk), Blocks(s.inodes[p]));
    assert ViewOf(s.disk, s.inodes)[p] == Entries(s.disk, s.inodes[p]);
  }

  // ----- the conditions agree -----

  lemma InodesLike(sup: Super, s: State, t: State)
    requires Like(sup, s, t, false)
    ensures |s.inodes| == |t.inodes|
    ensures forall i :: 0 <= i < |s.inodes| ==> OutlineOf(s.inodes[i]) == OutlineOf(t.inodes[i])
  {
    var o, o2 := Outlines(s.inodes), Outlines(t.inodes);
    assert o == o2;
    forall i | 0 <= i < |s.inodes| ensures OutlineOf(s.inodes[i]) == OutlineOf(t.inodes[i]) {
      assert o[i] == o2[i];
    }
  }

  lemma InodeLike(sup: Super, s: State, t: State, i: nat)
    requires Like(sup, s, t, false) && i < |s.inodes|
    ensures i < |t.inodes| && OutlineOf(s.inodes[i]) == OutlineOf(t.inodes[i])
    ensures s.inodes[i].used == t.inodes[i].used && s.inodes[i].kind == t.inodes[i].kind
  {
    InodesLike(sup, s, t);
  }

  lemma UnusedLike(sup: Super, s: State, t: State, c: nat, c2: nat)
    requires Like(sup, s, t, false) && FirstUnused(s.inodes, c) && FirstUnused(t.inodes, c2)
    ensures c2 == c
  {
    InodeLike(sup, s, t, c);
    if c2 < |s.inodes| {
      InodeLike(sup, s, t, c2);
    }
    InodesLike(sup, s, t);
  }

  lemma CreatableLike(sup: Super, s: State, t: State, path: seq<Name>)
    requires Like(sup, s, t, false)
    ensures Creatable(s.disk, s.inodes, path) <==> Creatable(t.disk, t.inodes, path)
  {
    InodesLike(sup, s, t);
    assert InodesFull(s.inodes) <==> InodesFull(t.inodes) by {
      forall i | 0 <= i < |s.inodes| ensures s.inodes[i].used == t.inodes[i].used {
        InodeLike(sup, s, t, i);
      }
    }
    if path != [] {
      WalkLike(AbsAt(s), AbsAt(t), 0, Parent(path));
    }
  }

  lemma ParentLike(sup: Super, s: State, t: State, path: seq<Name>)
    requires Valid(sup, s.disk, s.inodes) && Valid(sup, t.disk, t.inodes) && Like(sup, s, t, false)
    requires Creatable(s.disk, s.inodes, path) && Creatable(t.disk, t.inodes, path)
    ensures Walk(AbsAt(s), 0, Parent(path)) == Walk(AbsAt(t), 0, Parent(path))
    ensures ParentFull(s.disk, s.inodes, path) == ParentFull(t.disk, t.inodes, path)
  {
    var p := Walk(AbsAt(s), 0, Parent(path));
    WalkLike(AbsAt(s), AbsAt(t), 0, Parent(path));
    AbstractAt(s.disk, s.inodes, p);
    AbstractAt(t.disk, t.inodes, p);
    FullLike(sup, s, t, p);
  }

  // ----- the layouts agree -----

  lemma CreateLike(sup: Super, s: State, t: State, path: seq<Name>, ok: bool, l': Layout, ok2: bool, l2: Layout)
    requires Whole(sup, s) && Whole(sup, t) && Like(sup, s, t, false)
    requires CreateLaid(sup, s.disk, s.inodes, path, ok, l') && CreateLaid(sup, t.disk, t.inodes, path, ok2, l2)
    ensures ok2 == ok && l2 == l'
  {
    CreatableLike(sup, s, t, path);
    if Creatable(s.disk, s.inodes, path) {
      ParentLike(sup, s, t, path);
      var l, p, full := LayoutOf(sup, s.disk, s.inodes), Walk(AbsAt(s), 0, Parent(path)),
        ParentFull(s.disk, s.inodes, path);
      var c: nat :| FirstUnused(s.inodes, c) && NewLaid(sup, l, p, full, c, OutlineOf(NEW_FILE), ok, l');
      var c2: nat :| FirstUnused(t.inodes, c2) && NewLaid(sup, l, p, full, c2, OutlineOf(NEW_FILE), ok2, l2);
      UnusedLike(sup, s, t, c, c2);
      NewLaidOnce(sup, l, p, full, c, OutlineOf(NEW_FILE), ok, l', ok2, l2);
    }
  }

  lemma MkdirThenOnce(sup: Super, l: Layout, p: nat, full: bool, c: nat, got: bool, g: Growth, ok: bool, l': Layout,
                      ok2: bool, l2: Layout)
    requires MkdirThen(sup, l, p, full, c, got, g, ok, l') && MkdirThen(sup, l, p, full, c, got, g, ok2, l2)
    ensures ok2 == ok && l2 == l'
  {
    if got {
      var node, mid := Outline(true, Dir, g.phys, g.slots), l.(bits := g.bits);
      var bits :| NewLaid(sup, mid, p, full, c, node, ok, Layout(bits, l'.outs))
        && l'.bits == if ok then bits else Without(bits, g.phys);
      var bits2 :| NewLaid(sup, mid, p, full, c, node, ok2, Layout(bits2, l2.outs))
        && l2.bits == if ok2 then bits2 else Without(bits2, g.phys);
      NewLaidOnce(sup, mid, p, full, c, node, ok, Layout(bits, l'.outs), ok2, Layout(bits2, l2.outs));
    }
  }

  lemma MkdirLike(sup: Super, s: State, t: State, path: seq<Name>, ok: bool, l': Layout, ok2: bool, l2: Layout)
    requires Whole(sup, s) && Whole(sup, t) && Like(sup, s, t, false)
    requires MkdirLaid(sup, s.disk, s.inodes, path, ok, l') && MkdirLaid(sup, t.disk, t.inodes, path, ok2, l2)
    ensures ok2 == ok && l2 == l'
  {
    CreatableLike(sup, s, t, path);
    if Creatable(s.disk, s.inodes, path) {
      ParentLike(sup, s, t, path);
      var l, p, full := LayoutOf(sup, s.disk, s.inodes), Walk(AbsAt(s), 0, Parent(path)),
        ParentFull(s.disk, s.inodes, path);
      var c: nat, got, g :| FirstUnused(s.inodes, c) && FirstBlock(sup, l, got, g)
        && MkdirThen(sup, l, p, full, c, got, g, ok, l');
      var c2: nat, got2, g2 :| FirstUnused(t.inodes, c2) && FirstBlock(sup, l, got2, g2)
        && MkdirThen(sup, l, p, full, c2, got2, g2, ok2, l2);
      UnusedLike(sup, s, t, c, c2);
      GrewOnce(sup, 1, Growth(l.bits, [], EmptySlots(NO_EXTENTS)), got, g, got2, g2);
      MkdirThenOnce(sup, l, p, full, c, got, g, ok, l', ok2, l2);
    }
  }

  lemma WriteLike(sup: Super, s: State, t: State, op: Op, ok: bool, s': State, ok2: bool, t': State)
    requires op.Write? && Step(sup, s, op, ok, s') && Step(sup, t, op, ok2, t') && Like(sup, s, t, false)
    ensures ok2 == ok && LayoutOf(sup, t'.disk, t'.inodes) == LayoutOf(sup, s'.disk, s'.inodes)
  {
    var x, l := Walk(AbsAt(s), 0, op.path), LayoutOf(sup, s.disk, s.inodes);
    WalkLike(AbsAt(s), AbsAt(t), 0, op.path);
    InodesLike(sup, s, t);
    if 0 <= x < |s.inodes| {
      InodeLike(sup, s, t, x);
      if s.inodes[x].kind.File? && op.buf != [] && op.offset + |op.buf| < 0x1_0000_0000 {
        WriteLaidOnce(sup, l, x, op.offset, |op.buf|, ok, LayoutOf(sup, s'.disk, s'.inodes), ok2,
                      LayoutOf(sup, t'.disk, t'.inodes));
      }
    }
  }

  /** The outcome of an operation and the layout it leads to are determined. */
  lemma LaidLike(sup: Super, s: State, t: State, op: Op, ok: bool, s': State, ok2: bool, t': State)
    requires Step(sup, s, op, ok, s') && Step(sup, t, op, ok2, t') && Like(sup, s, t, false) && !Harms(s, op)
    ensures !Harms(t, op) && ok2 == ok && LayoutOf(sup, t'.disk, t'.inodes) == LayoutOf(sup, s'.disk, s'.inodes)
  {
    WalkLike(AbsAt(s), AbsAt(t), 0, op.path);
    InodesLike(sup, s, t);
    match op {
      case Create(path) =>
        CreateLike(sup, s, t, path, ok, LayoutOf(sup, s'.disk, s'.inodes), ok2, LayoutOf(sup, t'.disk, t'.inodes));
      case Mkdir(path) =>
        MkdirLike(sup, s, t, path, ok, LayoutOf(sup, s'.disk, s'.inodes), ok2, LayoutOf(sup, t'.disk, t'.inodes));
      case Unlink(path) =>
      case Rmdir(path) =>
      case Write(path, offset, buf) =>
        WriteLike(sup, s, t, op, ok, s', ok2, t');
      case Truncate(path) =>
    }
  }

  // ----- the trees agree -----

  lemma LowestOnce(a: Abs, b: Abs, c: nat, c2: nat)
    requires a.Keys == b.Keys && Lowest(a, c) && Lowest(b, c2)
    ensures c2 == c
  {
    assert (c in a.Keys <==> c in b.Keys) && (c2 in a.Keys <==> c2 in b.Keys);
  }

  lemma CreatedLike(a: Abs, b: Abs, path: seq<Name>, c: nat, node: Node, a': Abs, b': Abs)
    requires TreeLike(a, b) && Created(a, a', path, c, node) && Created(b, b', path, c, node)
    ensures TreeLike(a', b') && (a == b ==> a' == b')
  {
    WalkLike(a, b, 0, Parent(path));
    assert a'.Keys == a.Keys + {c} && b'.Keys == b.Keys + {c};
  }

  lemma RemovedLike(a: Abs, b: Abs, path: seq<Name>, a': Abs, b': Abs)
    requires TreeLike(a, b) && Removed(a, a', path) && Removed(b, b', path)
    ensures TreeLike(a', b') && (a == b ==> a' == b')
  {
    WalkLike(a, b, 0, Parent(path));
    WalkLike(a, b, 0, path);
    assert a'.Keys == a.Keys - {Walk(a, 0, path)} && b'.Keys == b.Keys - {Walk(a, 0, path)};
  }

  /** The tree an operation leads to is determined, and so are the contents of files as
      long as they are tight and no write ends above the largest size. */
  lemma AbsLike(a: Abs, b: Abs, op: Op, ok: bool, a': Abs, b': Abs)
    requires TreeLike(a, b) && AbsOp(a, op, ok, a') && AbsOp(b, op, ok, b')
    ensures TreeLike(a', b') && (a == b && AllTight(a) && Bounded(op) ==> a' == b')
  {
    if ok {
      WalkLike(a, b, 0, op.path);
      var x := Walk(a, 0, op.path);
      match op {
        case Create(path) =>
          var c: nat :| Lowest(a, c) && MadeFile(a, a', path, c);
          var c2: nat :| Lowest(b, c2) && MadeFile(b, b', path, c2);
          LowestOnce(a, b, c, c2);
          CreatedLike(a, b, path, c, FileNode([], true), a', b');
        case Mkdir(path) =>
          var c: nat :| Lowest(a, c) && MadeDir(a, a', path, c);
          var c2: nat :| Lowest(b, c2) && MadeDir(b, b', path, c2);
          LowestOnce(a, b, c, c2);
          WalkLike(a, b, 0, Parent(path));
          CreatedLike(a, b, path, c, DirNode(map[DOT := c, DOTDOT := Walk(a, 0, Parent(path))]), a', b');
        case Unlink(path) =>
          RemovedLike(a, b, path, a', b');
        case Rmdir(path) =>
          RemovedLike(a, b, path, a', b');
        case Write(path, offset, buf) =>
          if buf != [] {
            assert a'.Keys == a.Keys && b'.Keys == b.Keys;
          }
        case Truncate(path) =>
          assert a'.Keys == a.Keys && b'.Keys == b.Keys;
      }
    }
  }

  lemma UndoneLike(sup: Super, s: State, t: State, s': State, t': State, c: nat, exact: bool)
    requires Like(sup, s, t, exact)
    requires Undone(sup, s.disk, s.inodes, s'.disk, s'.inodes, c)
    requires Undone(sup, t.disk, t.inodes, t'.disk, t'.inodes, c)
    ensures Like(sup, s', t', exact)
  {
    InodeLike(sup, s, t, c);
    OutlinesUpdate(s.inodes, c, s'.inodes[c]);
    OutlinesUpdate(t.inodes, c, t'.inodes[c]);
    assert s'.inodes == s.inodes[c := s'.inodes[c]] && t'.inodes == t.inodes[c := t'.inodes[c]];
    assert OutlineOf(s'.inodes[c]) == OutlineOf(s.inodes[c]) && OutlineOf(t'.inodes[c]) == OutlineOf(t.inodes[c]);
    assert AbsAt(s').Keys == AbsAt(s).Keys && AbsAt(t').Keys == AbsAt(t).Keys;
  }

  /** Two steps of the same operation from like states: both succeed or both fail, and the
      states they lead to are like again. */
  lemma StepsAgree(sup: Super, s: State, t: State, op: Op, ok: bool, s': State, ok2: bool, t': State, exact: bool)
    requires Step(sup, s, op, ok, s') && Step(sup, t, op, ok2, t') && Like(sup, s, t, exact)
    requires exact ==> AllTight(AbsAt(s)) && Bounded(op)
    ensures ok2 == ok && Like(sup, s', t', exact)
    ensures exact && Whole(sup, s') ==> AllTight(AbsAt(s'))
  {
    WalkLike(AbsAt(s), AbsAt(t), 0, op.path);
    StepKeeps(sup, s, op, ok, s');
    if Harms(s, op) {
      UndoneLike(sup, s, t, s', t', Walk(AbsAt(s), 0, op.path), exact);
    } else {
      LaidLike(sup, s, t, op, ok, s', ok2, t');
      AbsLike(AbsAt(s), AbsAt(t), op, ok, AbsAt(s'), AbsAt(t'));
      if exact {
        TightAfter(AbsAt(s), op, ok, AbsAt(s'));
      }
    }
  }

  ghost predicate AllBounded(ops: seq<Op>) {
    forall i {:trigger ops[i]} :: 0 <= i < |ops| ==> Bounded(ops[i])
  }

  /** Two runs of the same operations from like states agree on which operations succeed
      and go through like states. */
  lemma {:induction false} RunsAgree(sup: Super, ops: seq<Op>, done: seq<bool>, trace: seq<State>, done2: seq<bool>,
                                     trace2: seq<State>, n: nat, exact: bool)
    requires Ran(Steps(sup), ops, done, trace) && Ran(Steps(sup), ops, done2, trace2)
    requires n < |trace| && n < |trace2| && Like(sup, trace[0], trace2[0], exact)
    requires exact ==> AllTight(AbsAt(trace[0])) && AllBounded(ops)
    ensures Like(sup, trace[n], trace2[n], exact) && done[..n] == done2[..n]
  {
    if n > 0 {
      RunsAgree(sup, ops, done, trace, done2, trace2, n - 1, exact);
      var op := ops[n - 1];
      assert Steps(sup)(trace[n - 1], op, done[n - 1], trace[n]);
      assert Steps(sup)(trace2[n - 1], op, done2[n - 1], trace2[n]);
      if exact {
        RanTight(sup, ops, done, trace, n - 1);
      }
      StepsAgree(sup, trace[n - 1], trace2[n - 1], op, done[n - 1], trace[n], done2[n - 1], trace2[n], exact);
      assert done[..n] == done[..n - 1] + [done[n - 1]] && done2[..n] == done2[..n - 1] + [done2[n - 1]];
    }
  }
}
