/** Where an NXFS volume keeps what: the bitmap, and of every inode its blocks and how
    many more extents it can hold (fs/nxfs.c). */
module NxfsLayout {
  import opened Bitmap
  import opened Extents
  import opened NxfsAlloc
  import opened NxfsGrow
  import opened Coverage
  import opened NxfsState

  const DIR_GROW_BLOCKS := 8

  datatype Outline = Outline(used: bool, kind: Kind, blocks: seq<nat>, slots: nat)

  ghost function OutlineOf(i: Inode): Outline {
    Outline(i.used, i.kind, Blocks(i), if i.used then EmptySlots(i.extents) else 0)
  }

  ghost function Outlines(inodes: seq<Inode>): (o: seq<Outline>)
    ensures |o| == |inodes| && forall i {:trigger o[i]} :: 0 <= i < |inodes| ==> o[i] == OutlineOf(inodes[i])
  {
    seq(|inodes|, i requires 0 <= i < |inodes| => OutlineOf(inodes[i]))
  }

  datatype Layout = Layout(bits: seq<bool>, outs: seq<Outline>)

  ghost function LayoutOf(sup: Super, d: seq<Block>, inodes: seq<Inode>): Layout
    requires OnDisk(sup, d)
  {
    Layout(Bits(sup, d), Outlines(inodes))
  }

  lemma OutlinesUpdate(inodes: seq<Inode>, p: nat, inode: Inode)
    requires p < |inodes|
    ensures Outlines(inodes[p := inode]) == Outlines(inodes)[p := OutlineOf(inode)]
  {}

  ghost function Growing(bits: seq<bool>, o: Outline): Growth { Growth(bits, o.blocks, o.slots) }

  /** What putting one more entry into a directory does to the bitmap and the directory's
      blocks: nothing while it has a free slot, otherwise it grows by eight blocks. */
  ghost predicate Entered(sup: Super, bits: seq<bool>, dir: Outline, full: bool, ok: bool, bits': seq<bool>,
                          dir': Outline) {
    if !full then ok && bits' == bits && dir' == dir
    else exists g {:trigger Grew(sup, |dir.blocks| + DIR_GROW_BLOCKS, Growing(bits, dir), ok, g)} ::
      && Grew(sup, |dir.blocks| + DIR_GROW_BLOCKS, Growing(bits, dir), ok, g)
      && bits' == g.bits && dir' == if ok then dir.(blocks := g.phys, slots := g.slots) else dir
  }

  lemma EnteredGrown(sup: Super, bits: seq<bool>, dir: Inode, ok: bool, bits': seq<bool>, es: seq<Extent>,
                     phys: seq<nat>, left: nat)
    requires dir.used
    requires Grew(sup, |Blocks(dir)| + DIR_GROW_BLOCKS, Growth(bits, Phys(dir.extents), EmptySlots(dir.extents)), ok,
                  Growth(bits', phys, left))
    requires if ok then phys == Phys(es) && left == EmptySlots(es) else es == dir.extents
    ensures Entered(sup, bits, OutlineOf(dir), true, ok, bits', OutlineOf(dir.(extents := es)))
  {
    assert Growing(bits, OutlineOf(dir)) == Growth(bits, Phys(dir.extents), EmptySlots(dir.extents));
    assert Growth(bits', phys, left).bits == bits';
  }

  /** It is determined what happens. */
  lemma EnteredOnce(sup: Super, bits: seq<bool>, dir: Outline, full: bool, ok: bool, bits': seq<bool>, dir': Outline,
                    ok2: bool, bits2: seq<bool>, dir2: Outline)
    requires Entered(sup, bits, dir, full, ok, bits', dir') && Entered(sup, bits, dir, full, ok2, bits2, dir2)
    ensures ok2 == ok && bits2 == bits' && dir2 == dir'
  {
    if full {
      var need, a := |dir.blocks| + DIR_GROW_BLOCKS, Growing(bits, dir);
      var g :| Grew(sup, need, a, ok, g)
        && bits' == g.bits && dir' == if ok then dir.(blocks := g.phys, slots := g.slots) else dir;
      var g2 :| Grew(sup, need, a, ok2, g2)
        && bits2 == g2.bits && dir2 == if ok2 then dir.(blocks := g2.phys, slots := g2.slots) else dir;
      GrewOnce(sup, need, a, ok, g, ok2, g2);
    }
  }

  ghost function Without(bits: seq<bool>, gone: seq<nat>): (r: seq<bool>)
    ensures |r| == |bits| && forall b {:trigger r[b]} :: 0 <= b < |bits| ==> r[b] == (bits[b] && b !in gone)
  {
    seq(|bits|, b requires 0 <= b < |bits| => bits[b] && b !in gone)
  }

  const UNUSED := Outline(false, NoKind, [], 0)

  /** Inode `c` and its blocks are given back. */
  ghost function Dropped(l: Layout, c: nat): Layout
    requires c < |l.outs|
  {
    Layout(Without(l.bits, l.outs[c].blocks), l.outs[c := UNUSED])
  }

  /** A new inode `c` and an entry for it in directory `p`, or nothing. */
  ghost predicate NewLaid(sup: Super, l: Layout, p: nat, full: bool, c: nat, node: Outline, ok: bool, l': Layout) {
    && p < |l.outs| && c < |l.outs|
    && exists o {:trigger Entered(sup, l.bits, l.outs[p], full, ok, l'.bits, o)} ::
         && Entered(sup, l.bits, l.outs[p], full, ok, l'.bits, o)
         && l'.outs == if ok then l.outs[c := node][p := o] else l.outs
  }

  lemma NewLaidOnce(sup: Super, l: Layout, p: nat, full: bool, c: nat, node: Outline, ok: bool, l': Layout, ok2: bool,
                    l2: Layout)
    requires NewLaid(sup, l, p, full, c, node, ok, l') && NewLaid(sup, l, p, full, c, node, ok2, l2)
    ensures ok2 == ok && l2 == l'
  {
    var o :| Entered(sup, l.bits, l.outs[p], full, ok, l'.bits, o)
      && l'.outs == if ok then l.outs[c := node][p := o] else l.outs;
    var o2 :| Entered(sup, l.bits, l.outs[p], full, ok2, l2.bits, o2)
      && l2.outs == if ok2 then l.outs[c := node][p := o2] else l.outs;
    EnteredOnce(sup, l.bits, l.outs[p], full, ok, l'.bits, o, ok2, l2.bits, o2);
  }

  /** The lowest-numbered inode not in use. */
  ghost predicate FirstUnused(inodes: seq<Inode>, c: int) {
    0 <= c < |inodes| && !inodes[c].used && forall j :: 0 <= j < c ==> inodes[j].used
  }
}
