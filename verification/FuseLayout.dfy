/** Which extents the inodes of a FUSE volume hold (NXFS/nxfs.c).  With every block
    accounted for they determine the bitmap too. */
module FuseLayout {
  import opened Bitmap
  import opened Extents
  import opened NxfsAlloc
  import opened FuseAlloc

  datatype Sketch = Sketch(used: bool, kind: Kind, es: seq<Extent>)

  ghost function SketchOf(i: Inode): Sketch { Sketch(i.used, i.kind, if i.used then i.extents else []) }

  ghost function Sketches(inodes: seq<Inode>): (l: seq<Sketch>)
    ensures |l| == |inodes| && forall i {:trigger l[i]} :: 0 <= i < |inodes| ==> l[i] == SketchOf(inodes[i])
  {
    seq(|inodes|, i requires 0 <= i < |inodes| => SketchOf(inodes[i]))
  }

  const NO_SKETCH := Sketch(false, NoKind, [])

  lemma SketchesUpdate(inodes: seq<Inode>, p: nat, inode: Inode)
    requires p < |inodes|
    ensures Sketches(inodes[p := inode]) == Sketches(inodes)[p := SketchOf(inode)]
  {}

  /** What putting one more entry into a directory does to its extents: nothing while it
      has a free slot, otherwise it gets one more block. */
  ghost predicate Widened(sup: Super, bits: seq<bool>, es: seq<Extent>, full: bool, bits': seq<bool>,
                          es': seq<Extent>) {
    if !full then bits' == bits && es' == es
    else Filled(sup, |Phys(es)| + 1, Filling(bits, es), Filling(bits', es'))
  }

  /** A new inode `c` and an entry for it in directory `p`. */
  ghost predicate NewEntry(sup: Super, bits: seq<bool>, l: seq<Sketch>, p: nat, full: bool, c: nat, node: Sketch,
                           bits': seq<bool>, l': seq<Sketch>) {
    && p < |l| && c < |l|
    && exists es {:trigger Widened(sup, bits, l[p].es, full, bits', es)} ::
         Widened(sup, bits, l[p].es, full, bits', es) && l' == l[c := node][p := l[p].(es := es)]
  }

  lemma NewEntryOnce(sup: Super, bits: seq<bool>, l: seq<Sketch>, p: nat, full: bool, c: nat, node: Sketch,
                     bits': seq<bool>, l': seq<Sketch>, bits2: seq<bool>, l2: seq<Sketch>)
    requires NewEntry(sup, bits, l, p, full, c, node, bits', l') && NewEntry(sup, bits, l, p, full, c, node, bits2, l2)
    ensures l2 == l'
  {
    var es :| Widened(sup, bits, l[p].es, full, bits', es) && l' == l[c := node][p := l[p].(es := es)];
    var es2 :| Widened(sup, bits, l[p].es, full, bits2, es2) && l2 == l[c := node][p := l[p].(es := es2)];
    if full {
      FilledOnce(sup, |Phys(l[p].es)| + 1, Filling(bits, l[p].es), Filling(bits', es), Filling(bits2, es2));
    }
  }
}
