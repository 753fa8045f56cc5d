/** Block allocation in the FUSE implementation of NXFS (NXFS/nxfs.c).  The whole
    bitmap is one block; growing rolls back on failure and shrinking frees blocks,
    so the bitmap can be accounted for exactly. */
module FuseAlloc {
  import opened Bitmap
  import opened Extents
  import opened NxfsAlloc
  import opened Coverage
  import opened NxfsGrow
  import opened NxfsOps
  import opened Traces

  /** A volume whose bitmap fits in one block. */
  ghost predicate Small(sup: Super) { sup.totalBlocks <= 4096 }

  /** Index of the first block in use among the `len` from `start` on; `len` if none. */
  method FirstUsed(vol: Volume, start: nat, len: nat) returns (i: nat)
    requires OnDisk(vol.sup, vol.disk) && Small(vol.sup) && start + len <= vol.sup.totalBlocks
    ensures i <= len && FreeRun(Bits(vol.sup, vol.disk), start, i)
    ensures i < len ==> Bits(vol.sup, vol.disk)[start + i]
  {
    i := 0;
    while i < len
      invariant i <= len && FreeRun(Bits(vol.sup, vol.disk), start, i)
    {
      BitAt(vol.sup, vol.disk, 0, start + i);
      if BlockBit(vol.disk[vol.sup.bitmapStart], start + i) {
        return;
      }
      i := i + 1;
    }
  }

  /** Sets or clears a run of bits in the bitmap block. */
  method MarkRun(vol: Volume, start: nat, len: nat, used: bool)
    requires OnDisk(vol.sup, vol.disk) && Small(vol.sup) && start + len <= vol.sup.totalBlocks
    modifies vol`disk
    ensures OnlyBitmap(vol.sup, old(vol.disk), vol.disk)
    ensures Bits(vol.sup, vol.disk) == Marked(Bits(vol.sup, old(vol.disk)), start, len, used)
  {
    var bitmap := vol.disk[vol.sup.bitmapStart];
    ghost var loaded := bitmap;
    for i := 0 to len
      invariant forall j :: 0 <= j < 4096 ==>
        BlockBit(bitmap, j) == if start <= j < start + i then used else BlockBit(loaded, j)
    {
      bitmap := BlockWithBit(bitmap, start + i, used);
    }
    BitAt(vol.sup, vol.disk, 0, 0);
    BitsOfBlock(vol.sup, vol.disk, 0, bitmap, start, len, used);
    vol.disk := vol.disk[vol.sup.bitmapStart := bitmap];
  }

  /** Finds, marks and returns the lowest run of `len` free data blocks; -1 when
      there is none.  The scan resumes right after each block found in use. */
  method AllocRun(vol: Volume, len: nat) returns (start: int)
    requires OnDisk(vol.sup, vol.disk) && Small(vol.sup)
    modifies vol`disk
    ensures OnlyBitmap(vol.sup, old(vol.disk), vol.disk)
    ensures start >= 0 ==>
      && FirstFit(vol.sup, Bits(vol.sup, old(vol.disk)), len, start) && len > 0
      && Bits(vol.sup, vol.disk) == Marked(Bits(vol.sup, old(vol.disk)), start, len, true)
    ensures start < 0 ==>
      && vol.disk == old(vol.disk)
      && (len == 0 || NoFit(Bits(vol.sup, vol.disk), len, vol.sup.dataStart, vol.sup.totalBlocks))
  {
    if len == 0 {
      return -1;
    }
    ghost var bits := Bits(vol.sup, vol.disk);
    var at := vol.sup.dataStart;
    while at + len <= vol.sup.totalBlocks
      invariant vol.sup.dataStart <= at && vol.disk == old(vol.disk)
      invariant forall s {:trigger FreeRun(bits, s, len)} :: vol.sup.dataStart <= s < at ==> !FreeRun(bits, s, len)
    {
      var i := FirstUsed(vol, at, len);
      if i == len {
        MarkRun(vol, at, len, true);
        return at;
      }
      assert forall s {:trigger FreeRun(bits, s, len)} :: at <= s <= at + i ==> s <= at + i < s + len;
      at := at + i + 1;
    }
    return -1;
  }

  method FreeRunOf(vol: Volume, start: nat, len: nat)
    requires OnDisk(vol.sup, vol.disk) && Small(vol.sup) && (len > 0 ==> start + len <= vol.sup.totalBlocks)
    modifies vol`disk
    ensures OnlyBitmap(vol.sup, old(vol.disk), vol.disk)
    ensures Bits(vol.sup, vol.disk) ==
      if len > 0 then Marked(Bits(vol.sup, old(vol.disk)), start, len, false) else Bits(vol.sup, old(vol.disk))
  {
    if len == 0 {
      return;
    }
    MarkRun(vol, start, len, false);
  }

  /** Frees every extent of an array. */
  method FreeExtents(vol: Volume, es: seq<Extent>)
    requires OnDisk(vol.sup, vol.disk) && Small(vol.sup) && Within(Phys(es), 0, vol.sup.totalBlocks)
    modifies vol`disk
    ensures Released(vol.sup, old(vol.disk), vol.disk, Phys(es))
  {
    for i := 0 to |es|
      invariant Released(vol.sup, old(vol.disk), vol.disk, Phys(es[..i]))
    {
      PhysSnoc(es, i);
      PhysSplit(es, i + 1);
      if es[i].len > 0 {
        assert Run(es[i].start, es[i].len)[es[i].len - 1] == Phys(es)[|Phys(es[..i])| + es[i].len - 1];
      }
      ghost var before := vol.disk;
      FreeRunOf(vol, es[i].start, es[i].len);
      ReleasedMore(vol.sup, old(vol.disk), before, vol.disk, Phys(es[..i]), es[i].start, es[i].len);
    }
    assert es[..|es|] == es;
  }

  /** The bitmap is as before and no block in use was written. */
  ghost predicate RolledBack(sup: Super, d: seq<Block>, d': seq<Block>) {
    && OnDisk(sup, d) && OnDisk(sup, d') && Bits(sup, d') == Bits(sup, d)
    && forall b {:trigger d'[b]} :: 0 <= b < sup.totalBlocks && !(sup.bitmapStart <= b < sup.inodeStart) ==>
         b < sup.dataStart || Bits(sup, d)[b] ==> d'[b] == d[b]
  }

  /** Giving back exactly what was taken. */
  lemma TookThenReleased(sup: Super, d0: seq<Block>, d1: seq<Block>, d2: seq<Block>, added: seq<nat>)
    requires Took(sup, d0, d1, added) && Released(sup, d1, d2, added)
    ensures RolledBack(sup, d0, d2)
  {
    forall b | 0 <= b < sup.totalBlocks ensures Bits(sup, d2)[b] == Bits(sup, d0)[b] {
      assert Bits(sup, d1)[b] == (Bits(sup, d0)[b] || b in added);
    }
    forall b | 0 <= b < sup.totalBlocks && !(sup.bitmapStart <= b < sup.inodeStart)
      && (b < sup.dataStart || Bits(sup, d0)[b])
      ensures d2[b] == d0[b]
    {
      assert d2[b] == d1[b];
    }
  }

  ghost predicate FirstEmpty(es: seq<Extent>, i: nat) {
    i < |es| && es[i].len == 0 && forall j :: 0 <= j < i ==> es[j].len > 0
  }

  /** Fills the first empty slot; fails exactly when there is none. */
  method AppendExtentSlot(es: seq<Extent>, start: nat, len: nat) returns (ok: bool, es': seq<Extent>, ghost i: nat)
    requires Packed(es) && len > 0
    ensures |es'| == |es| && Packed(es')
    ensures ok <==> EmptySlots(es) > 0
    ensures ok ==> Phys(es') == Phys(es) + Run(start, len) && EmptySlots(es') + 1 == EmptySlots(es)
    ensures ok ==> FirstEmpty(es, i) && es' == es[i := Extent(start, len)]
    ensures !ok ==> es' == es
  {
    NoSlots(es);
    i := 0;
    var k := 0;
    while k < |es|
      invariant 0 <= k <= |es| && forall j :: 0 <= j < k ==> es[j].len > 0
    {
      if es[k].len == 0 {
        assert Run(es[k].start, 0) == [];
        PhysExtend(es, k, Extent(start, len), start, len);
        SlotFilled(es, k, Extent(start, len));
        return true, es[k := Extent(start, len)], k;
      }
      k := k + 1;
    }
    return false, es, 0;
  }

  // ----- which blocks growing takes -----

  /** Where growing has got: the bitmap and the extents. */
  datatype Filling = Filling(bits: seq<bool>, es: seq<Extent>)

  /** A longest run goes into the first empty slot. */
  ghost predicate FillStep(sup: Super, need: nat, a: Filling, b: Filling) {
    |Phys(a.es)| < need && exists start: nat, len: nat, i: nat {:trigger NextFill(sup, need, a, start, len, i)} ::
      NextFill(sup, need, a, start, len, i)
      && b == Filling(Marked(a.bits, start, len, true), a.es[i := Extent(start, len)])
  }

  ghost predicate NextFill(sup: Super, need: nat, a: Filling, start: nat, len: nat, i: nat) {
    |Phys(a.es)| < need && FirstEmpty(a.es, i) && IsLongest(sup, a.bits, start, len, need - |Phys(a.es)|)
  }

  ghost function FillSteps(sup: Super, need: nat): (Filling, Filling) -> bool {
    (a, b) => FillStep(sup, need, a, b)
  }

  /** Growing to `need` blocks leads from these extents to those. */
  ghost predicate Filled(sup: Super, need: nat, a: Filling, b: Filling) {
    Reaches(FillSteps(sup, need), a, b) && |Phys(b.es)| >= need
  }

  lemma OneFill(sup: Super, need: nat, a: Filling, b: Filling, c: Filling)
    requires FillStep(sup, need, a, b) && FillStep(sup, need, a, c)
    ensures b == c
  {
    var start: nat, len: nat, i: nat :| NextFill(sup, need, a, start, len, i)
      && b == Filling(Marked(a.bits, start, len, true), a.es[i := Extent(start, len)]);
    var start': nat, len': nat, i': nat :| NextFill(sup, need, a, start', len', i')
      && c == Filling(Marked(a.bits, start', len', true), a.es[i' := Extent(start', len')]);
    OneLongest(sup, a.bits, start, len, start', len', need - |Phys(a.es)|);
  }

  /** Which extents growing leads to is determined. */
  lemma FilledOnce(sup: Super, need: nat, a: Filling, b: Filling, c: Filling)
    requires Filled(sup, need, a, b) && Filled(sup, need, a, c)
    ensures b == c
  {
    var step := FillSteps(sup, need);
    forall x, y, z | step(x, y) && step(x, z) ensures y == z {
      OneFill(sup, need, x, y, z);
    }
    EndOnce(step, a, b, c);
  }

  /** The longest run of at most `remaining` free blocks, marked; none exactly when
      no data block is free. */
  method AllocLongest(vol: Volume, remaining: nat) returns (start: int, len: nat)
    requires OnDisk(vol.sup, vol.disk) && Small(vol.sup) && remaining > 0
    modifies vol`disk
    ensures OnlyBitmap(vol.sup, old(vol.disk), vol.disk)
    ensures start >= 0 <==> !DataFull(vol.sup, Bits(vol.sup, old(vol.disk)))
    ensures start >= 0 ==> IsLongest(vol.sup, Bits(vol.sup, old(vol.disk)), start, len, remaining)
    ensures start >= 0 ==> Bits(vol.sup, vol.disk) == Marked(Bits(vol.sup, old(vol.disk)), start, len, true)
    ensures start < 0 ==> vol.disk == old(vol.disk)
  {
    FullIsNoFit(vol.sup, Bits(vol.sup, vol.disk));
    len, start := remaining, -1;
    while len > 0
      invariant 0 <= len <= remaining && vol.disk == old(vol.disk)
      invariant len < remaining ==> NoFit(Bits(vol.sup, vol.disk), len + 1, vol.sup.dataStart, vol.sup.totalBlocks)
    {
      start := AllocRun(vol, len);
      if start >= 0 {
        assert FreeRun(Bits(vol.sup, old(vol.disk)), start, 1);
        return;
      }
      len := len - 1;
    }
    start := -1;
  }

  /** Adds the longest run of at most `remaining` free blocks as a new extent;
      fails exactly when no data block or no slot is left. */
  method GrowOnce(vol: Volume, es: seq<Extent>, remaining: nat)
    returns (ok: bool, es': seq<Extent>, start: nat, got: nat, ghost i: nat)
    requires OnDisk(vol.sup, vol.disk) && Small(vol.sup) && Packed(es) && remaining > 0
    modifies vol`disk
    ensures OnDisk(vol.sup, vol.disk) && |es'| == |es| && Packed(es')
    ensures ok <==> !DataFull(vol.sup, Bits(vol.sup, old(vol.disk))) && EmptySlots(es) > 0
    ensures ok ==> IsLongest(vol.sup, Bits(vol.sup, old(vol.disk)), start, got, remaining)
    ensures ok ==> Bits(vol.sup, vol.disk) == Marked(Bits(vol.sup, old(vol.disk)), start, got, true)
    ensures ok ==> Phys(es') == Phys(es) + Run(start, got) && EmptySlots(es') + 1 == EmptySlots(es)
    ensures ok ==> FirstEmpty(es, i) && es' == es[i := Extent(start, got)]
    ensures ok ==> TookMore(vol.sup, old(vol.disk), vol.disk, Run(start, got))
    ensures !ok ==> Bits(vol.sup, vol.disk) == Bits(vol.sup, old(vol.disk))
    ensures !ok ==> TookMore(vol.sup, old(vol.disk), vol.disk, [])
  {
    es', start, got, i := es, 0, 0, 0;
    TookMoreNothing(vol.sup, vol.disk);
    var at, chunk := AllocLongest(vol, remaining);
    if at < 0 {
      return false, es, 0, 0, 0;
    }
    ghost var marked := vol.disk;
    ok, es', i := AppendExtentSlot(es, at, chunk);
    if !ok {
      FreeRunOf(vol, at, chunk);
      GaveBack(vol.sup, old(vol.disk), marked, vol.disk, at, chunk);
      return false, es, 0, 0, 0;
    }
    ZeroBlocks(vol, at, chunk);
    BitsKept(vol.sup, marked, vol.disk);
    forall d0, added | Took(vol.sup, d0, old(vol.disk), added)
      ensures Took(vol.sup, d0, vol.disk, added + Run(at, chunk))
    {
      TookRun(vol.sup, d0, old(vol.disk), vol.disk, added, at, chunk);
    }
    start, got := at, chunk;
  }

  /** As many free runs as the array has empty slots can hold the missing blocks. */
  ghost predicate Fits(sup: Super, bits: seq<bool>, es: seq<Extent>, need: nat) {
    Coverable(bits, sup.dataStart, {}, need - |Phys(es)|, EmptySlots(es))
  }

  /** Taking the longest run keeps the chance of growing to `need` what it was. */
  lemma GrowKeepsHope(sup: Super, bits: seq<bool>, es: seq<Extent>, es': seq<Extent>, need: nat, start: nat, len: nat)
    requires |Phys(es)| < need && IsLongest(sup, bits, start, len, need - |Phys(es)|)
    requires Phys(es') == Phys(es) + Run(start, len) && EmptySlots(es') + 1 == EmptySlots(es)
    ensures Fits(sup, bits, es, need) <==> Fits(sup, Marked(bits, start, len, true), es', need)
  {
    var missing := need - |Phys(es)|;
    if len == missing {
      CoverOne(bits, sup.dataStart, start, len, {}, EmptySlots(es));
      EnoughAlready(Marked(bits, start, len, true), sup.dataStart, {}, 0, EmptySlots(es'));
    } else {
      CoverLongest(bits, sup.dataStart, start, len, missing, EmptySlots(es));
    }
  }

  lemma AlreadyFits(sup: Super, bits: seq<bool>, es: seq<Extent>, need: nat)
    requires need <= |Phys(es)|
    ensures Fits(sup, bits, es, need)
  {
    EnoughAlready(bits, sup.dataStart, {}, need - |Phys(es)|, EmptySlots(es));
  }

  /** One more block fits exactly when a data block and a slot are free. */
  lemma OneFits(sup: Super, bits: seq<bool>, es: seq<Extent>)
    requires |bits| == sup.totalBlocks
    ensures Fits(sup, bits, es, |Phys(es)| + 1) <==> !DataFull(sup, bits) && EmptySlots(es) > 0
  {
    FullIsNoFit(sup, bits);
    if DataFull(sup, bits) || EmptySlots(es) == 0 {
      CoverNothing(bits, sup.dataStart, 1, EmptySlots(es));
    } else {
      var b :| sup.dataStart <= b && FreeRun(bits, b, 1);
      CoverOne(bits, sup.dataStart, b, 1, {}, EmptySlots(es));
    }
  }

  /** Grows an extent array to at least `need` blocks, or leaves the volume as it
      was.  Although it always takes the longest run, it succeeds exactly when any
      choice of runs would do. */
  method EnsureBlocks(vol: Volume, es: seq<Extent>, need: nat)
    returns (ok: bool, es': seq<Extent>, ghost added: seq<nat>)
    requires OnDisk(vol.sup, vol.disk) && Small(vol.sup) && Packed(es)
    modifies vol`disk
    ensures |es'| == |es| && Packed(es')
    ensures ok <==> Fits(vol.sup, Bits(vol.sup, old(vol.disk)), es, need)
    ensures ok ==> Took(vol.sup, old(vol.disk), vol.disk, added)
    ensures ok ==> Phys(es') == Phys(es) + added && |Phys(es')| == Max(|Phys(es)|, need)
    ensures ok && need == |Phys(es)| + 1 ==> FirstFit(vol.sup, Bits(vol.sup, old(vol.disk)), 1, added[0])
    ensures ok ==>
      Filled(vol.sup, need, Filling(Bits(vol.sup, old(vol.disk)), es), Filling(Bits(vol.sup, vol.disk), es'))
    ensures !ok ==> es' == es && RolledBack(vol.sup, old(vol.disk), vol.disk)
  {
    var tmp := es;
    var have := BlockCount(tmp);
    var news: seq<Extent> := [];
    added := [];
    TookNothing(vol.sup, vol.disk);
    assert Phys(es) + [] == Phys(es);
    ghost var a := Filling(Bits(vol.sup, vol.disk), es);
    ReachesItself(FillSteps(vol.sup, need), a);
    while have < need
      invariant |tmp| == |es| && Packed(tmp) && have == |Phys(tmp)|
      invariant Took(vol.sup, old(vol.disk), vol.disk, added) && Phys(news) == added
      invariant Phys(tmp) == Phys(es) + added && |Phys(es)| <= have <= Max(|Phys(es)|, need)
      invariant Fits(vol.sup, Bits(vol.sup, old(vol.disk)), es, need) <==>
        Fits(vol.sup, Bits(vol.sup, vol.disk), tmp, need)
      invariant Reaches(FillSteps(vol.sup, need), a, Filling(Bits(vol.sup, vol.disk), tmp))
      invariant added == [] ==> Bits(vol.sup, vol.disk) == Bits(vol.sup, old(vol.disk))
      invariant added != [] && need == |Phys(es)| + 1 ==> FirstFit(vol.sup, Bits(vol.sup, old(vol.disk)), 1, added[0])
    {
      ghost var bits, tried := Bits(vol.sup, vol.disk), tmp;
      var grown, start, got;
      ghost var i;
      grown, tmp, start, got, i := GrowOnce(vol, tmp, need - have);
      if !grown {
        FullIsNoFit(vol.sup, bits);
        CoverNothing(bits, vol.sup.dataStart, need - |Phys(tried)|, EmptySlots(tried));
        assert added + [] == added;
        Rollback(vol, news, old(vol.disk), added);
        return false, es, added;
      }
      GrowKeepsHope(vol.sup, bits, tried, tmp, need, start, got);
      FilledMore(vol.sup, need, a, Filling(bits, tried), start, got, i);
      ConcatAssoc(Phys(es), added, Run(start, got));
      PhysSnocRun(news, start, got);
      added := added + Run(start, got);
      news := news + [Extent(start, got)];
      have := have + got;
    }
    EnoughAlready(Bits(vol.sup, vol.disk), vol.sup.dataStart, {}, need - have, EmptySlots(tmp));
    return true, tmp, added;
  }

  lemma FilledMore(sup: Super, need: nat, a: Filling, b: Filling, start: nat, len: nat, i: nat)
    requires Reaches(FillSteps(sup, need), a, b) && NextFill(sup, need, b, start, len, i)
    ensures Reaches(FillSteps(sup, need), a, Filling(Marked(b.bits, start, len, true), b.es[i := Extent(start, len)]))
  {
    ReachesNext(FillSteps(sup, need), a, b, Filling(Marked(b.bits, start, len, true), b.es[i := Extent(start, len)]));
  }

  lemma PhysSnocRun(es: seq<Extent>, start: nat, len: nat)
    ensures Phys(es + [Extent(start, len)]) == Phys(es) + Run(start, len)
  {
    var more := es + [Extent(start, len)];
    PhysSplit(more, |es|);
    assert more[..|es|] == es && more[|es|..] == [Extent(start, len)];
    assert Phys([Extent(start, len)]) == Run(start, len) + Phys([]);
  }

  /** Frees the extents taken so far. */
  method Rollback(vol: Volume, news: seq<Extent>, ghost d0: seq<Block>, ghost added: seq<nat>)
    requires Small(vol.sup) && Took(vol.sup, d0, vol.disk, added) && Phys(news) == added
    modifies vol`disk
    ensures RolledBack(vol.sup, d0, vol.disk)
  {
    forall i | 0 <= i < |added| ensures 0 <= added[i] < vol.sup.totalBlocks { assert added[i] in added; }
    FreeExtents(vol, news);
    TookThenReleased(vol.sup, d0, old(vol.disk), vol.disk, added);
  }

  /** Gives up all but the first `keep` blocks of an extent array, and their bits. */
  method ShrinkBlocks(vol: Volume, es: seq<Extent>, keep: nat) returns (es': seq<Extent>)
    requires OnDisk(vol.sup, vol.disk) && Small(vol.sup) && Packed(es) && Within(Phys(es), 0, vol.sup.totalBlocks)
    modifies vol`disk
    ensures |es'| == |es| && Packed(es') && Phys(es') == Phys(es)[..Min(keep, |Phys(es)|)]
    ensures Released(vol.sup, old(vol.disk), vol.disk, Phys(es)[Min(keep, |Phys(es)|)..])
    ensures IsCut(es, keep, es')
  {
    var i, remaining := FindCut(es, keep);
    if i == |es| {
      assert Phys(es)[..|Phys(es)|] == Phys(es) && Phys(es)[|Phys(es)|..] == [];
      return es;
    }
    CutAt(es, i, remaining, keep);
    assert CutsAt(es, keep, i, remaining);
    FreeTail(vol, es[i].start + remaining, es[i].len - remaining, es[i + 1..], Phys(es)[keep..]);
    es' := Cut(es, i, remaining);
  }

  /** The extent holding logical block `keep`, and how many of its blocks precede
      that block; the number of slots if there is none. */
  method FindCut(es: seq<Extent>, keep: nat) returns (i: nat, remaining: nat)
    ensures i <= |es| && keep == remaining + |Phys(es[..i])|
    ensures i < |es| ==> remaining < es[i].len
    ensures i == |es| ==> |Phys(es)| <= keep
  {
    remaining, i := keep, 0;
    while i < |es| && remaining >= es[i].len
      invariant 0 <= i <= |es| && 0 <= remaining && keep == remaining + |Phys(es[..i])|
    {
      PhysSnoc(es, i);
      remaining := remaining - es[i].len;
      i := i + 1;
    }
    assert i == |es| ==> es[..i] == es;
  }

  lemma CutAt(es: seq<Extent>, i: nat, r: nat, keep: nat)
    requires Packed(es) && i < |es| && r < es[i].len && keep == |Phys(es[..i])| + r
    ensures Packed(Cut(es, i, r)) && |Cut(es, i, r)| == |es|
    ensures keep < |Phys(es)| && Phys(Cut(es, i, r)) == Phys(es)[..keep]
    ensures Phys(es)[keep..] == Run(es[i].start + r, es[i].len - r) + Phys(es[i + 1..])
    ensures forall k {:trigger Phys(es)[keep..][k]} :: 0 <= k < |Phys(es)| - keep ==>
      Phys(es)[keep..][k] == Phys(es)[keep + k]
  {
    ShrunkAt(es, i, r);
    CutTail(es, i, r);
  }

  /** Frees a run and then a list of extents. */
  method FreeTail(vol: Volume, start: nat, len: nat, rest: seq<Extent>, ghost gone: seq<nat>)
    requires OnDisk(vol.sup, vol.disk) && Small(vol.sup) && len > 0
    requires gone == Run(start, len) + Phys(rest) && Within(gone, 0, vol.sup.totalBlocks)
    modifies vol`disk
    ensures Released(vol.sup, old(vol.disk), vol.disk, gone)
  {
    assert gone[len - 1] == start + len - 1;
    assert forall k :: 0 <= k < |Phys(rest)| ==> Phys(rest)[k] == gone[len + k];
    FreeRunOf(vol, start, len);
    ghost var d1 := vol.disk;
    ReleasedMore(vol.sup, old(vol.disk), old(vol.disk), d1, [], start, len);
    assert [] + Run(start, len) == Run(start, len);
    FreeExtents(vol, rest);
    ReleasedTwice(vol.sup, old(vol.disk), d1, vol.disk, Run(start, len), Phys(rest));
  }

  function Cleared(n: nat): (es: seq<Extent>)
    ensures |es| == n && forall i :: 0 <= i < n ==> es[i] == NO_EXTENT
  {
    seq(n, _ => NO_EXTENT)
  }

  lemma ReleasedTwice(sup: Super, d0: seq<Block>, d1: seq<Block>, d2: seq<Block>, a: seq<nat>, b: seq<nat>)
    requires Released(sup, d0, d1, a) && Released(sup, d1, d2, b)
    ensures Released(sup, d0, d2, a + b)
  {
  }

  /** An extent array cut in its extent `i`, of which `r` blocks are kept. */
  function Cut(es: seq<Extent>, i: nat, r: nat): seq<Extent>
    requires i < |es|
  {
    es[..i] + [if r == 0 then NO_EXTENT else Extent(es[i].start, r)] + Cleared(|es| - i - 1)
  }

  /** The extents of which the first `keep` blocks are left. */
  ghost predicate IsCut(es: seq<Extent>, keep: nat, es': seq<Extent>) {
    if |Phys(es)| <= keep then es' == es
    else exists i, r {:trigger CutsAt(es, keep, i, r)} :: CutsAt(es, keep, i, r) && es' == Cut(es, i, r)
  }

  ghost predicate CutsAt(es: seq<Extent>, keep: nat, i: nat, r: nat) {
    i < |es| && r < es[i].len && keep == |Phys(es[..i])| + r
  }

  lemma CutOnce(es: seq<Extent>, keep: nat, es': seq<Extent>, es2: seq<Extent>)
    requires IsCut(es, keep, es') && IsCut(es, keep, es2)
    ensures es2 == es'
  {
    if |Phys(es)| > keep {
      var i, r :| CutsAt(es, keep, i, r) && es' == Cut(es, i, r);
      var j, q :| CutsAt(es, keep, j, q) && es2 == Cut(es, j, q);
      CutNotBefore(es, keep, i, r, j, q);
      CutNotBefore(es, keep, j, q, i, r);
    }
  }

  lemma CutNotBefore(es: seq<Extent>, keep: nat, i: nat, r: nat, j: nat, q: nat)
    requires CutsAt(es, keep, i, r) && CutsAt(es, keep, j, q)
    ensures j <= i
  {
    if i < j {
      assert es[..j][..i + 1] == es[..i + 1];
      PhysSnoc(es, i);
      PhysSplit(es[..j], i + 1);
    }
  }

  lemma CutTail(es: seq<Extent>, i: nat, r: nat)
    requires i < |es| && r < es[i].len
    ensures |Phys(es[..i])| + r < |Phys(es)|
    ensures Phys(es)[|Phys(es[..i])| + r..] == Run(es[i].start + r, es[i].len - r) + Phys(es[i + 1..])
    ensures Phys(es)[..|Phys(es[..i])| + r] == Phys(es[..i]) + Run(es[i].start, r)
  {
    PhysSplit(es, i);
    assert es[i..][0] == es[i] && es[i..][1..] == es[i + 1..];
    assert Phys(es) == Phys(es[..i]) + (Run(es[i].start, es[i].len) + Phys(es[i + 1..]));
    assert Run(es[i].start, es[i].len) == Run(es[i].start, r) + Run(es[i].start + r, es[i].len - r);
  }

  lemma ShrunkAt(es: seq<Extent>, i: nat, r: nat)
    requires Packed(es) && i < |es| && r < es[i].len
    ensures Packed(Cut(es, i, r)) && |Cut(es, i, r)| == |es|
    ensures Phys(Cut(es, i, r)) == Phys(es[..i]) + Run(es[i].start, r)
  {
    var e := if r == 0 then NO_EXTENT else Extent(es[i].start, r);
    var rest := Cleared(|es| - i - 1);
    var cut := Cut(es, i, r);
    PhysSplit(cut, i);
    assert cut[..i] == es[..i] && cut[i..] == [e] + rest;
    assert (cut[i..])[0] == e && (cut[i..])[1..] == rest;
    PhysEmpty(rest);
    assert Run(e.start, e.len) == Run(es[i].start, r);
  }
}
