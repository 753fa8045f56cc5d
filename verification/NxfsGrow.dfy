/** Growth of an inode's extent array (fs/nxfs.c): extend the last extent in
    place where the blocks after it are free, otherwise allocate a new one. */
module NxfsGrow {
  import opened Bitmap
  import opened Extents
  import opened NxfsAlloc
  import opened Coverage
  import opened Traces

  /** From disk `d0` to `d1` exactly the blocks `added` were taken: they were
      free data blocks, are now marked and zero-filled, and nothing else changed. */
  ghost predicate Took(sup: Super, d0: seq<Block>, d1: seq<Block>, added: seq<nat>) {
    && OnDisk(sup, d0) && OnDisk(sup, d1)
    && NoDup(added)
    && (forall x :: x in added ==>
          sup.dataStart <= x < sup.totalBlocks && !Bits(sup, d0)[x] && d1[x] == ZeroBlock())
    && (forall b {:trigger Bits(sup, d1)[b]} :: 0 <= b < sup.totalBlocks ==>
       Bits(sup, d1)[b] == (Bits(sup, d0)[b] || b in added))
    && (forall b {:trigger d1[b]} ::
       0 <= b < sup.totalBlocks && !(sup.bitmapStart <= b < sup.inodeStart) && b !in added ==> d1[b] == d0[b])
  }

  lemma TookNothing(sup: Super, d: seq<Block>)
    requires OnDisk(sup, d)
    ensures Took(sup, d, d, [])
  {}

  /** Marking and zero-filling one more free run. */
  lemma TookRun(sup: Super, d0: seq<Block>, d1: seq<Block>, d2: seq<Block>, added: seq<nat>, start: nat, n: nat)
    requires Took(sup, d0, d1, added) && OnDisk(sup, d2)
    requires sup.dataStart <= start && FreeRun(Bits(sup, d1), start, n)
    requires Bits(sup, d2) == Marked(Bits(sup, d1), start, n, true)
    requires ZeroedRun(sup, d1, d2, start, n)
    ensures Took(sup, d0, d2, added + Run(start, n))
  {
    var run := Run(start, n);
    assert forall x :: x in run <==> start <= x < start + n by {
      forall x | start <= x < start + n ensures x in run { assert run[x - start] == x; }
    }
    assert forall x :: x in added + run <==> x in added || x in run;
    assert forall x :: x in added ==> Bits(sup, d1)[x];
    NoDupConcat(added, run);
    forall x | x in added + run
      ensures sup.dataStart <= x < sup.totalBlocks && !Bits(sup, d0)[x] && d2[x] == ZeroBlock()
    {
      assert x in run ==> !Bits(sup, d1)[x];
      assert x in added ==> d2[x] == d1[x];
    }
    forall b | 0 <= b < sup.totalBlocks && !(sup.bitmapStart <= b < sup.inodeStart) && b !in added + run
      ensures d2[b] == d0[b]
    {
      assert d2[b] == d1[b];
    }
  }

  /** Whatever had been taken before, `run` has been taken in addition. */
  ghost predicate TookMore(sup: Super, d: seq<Block>, d': seq<Block>, run: seq<nat>) {
    forall d0, added {:trigger Took(sup, d0, d, added)} :: Took(sup, d0, d, added) ==> Took(sup, d0, d', added + run)
  }

  lemma TookMoreNothing(sup: Super, d: seq<Block>)
    ensures TookMore(sup, d, d, [])
  {
    assert forall added: seq<nat> :: added + [] == added;
  }

  lemma TookMoreTwice(sup: Super, d: seq<Block>, d1: seq<Block>, d2: seq<Block>, a: seq<nat>, b: seq<nat>)
    requires TookMore(sup, d, d1, a) && TookMore(sup, d1, d2, b)
    ensures TookMore(sup, d, d2, a + b)
  {
    forall d0, added | Took(sup, d0, d, added) ensures Took(sup, d0, d2, added + (a + b)) {
      ConcatAssoc(added, a, b);
    }
  }

  /** Blocks [start, start + n) are zero, and outside them and the bitmap nothing changed. */
  ghost predicate ZeroedRun(sup: Super, d: seq<Block>, d': seq<Block>, start: nat, n: nat) {
    && |d| == |d'| && start + n <= |d|
    && (forall b :: start <= b < start + n ==> d'[b] == ZeroBlock())
    && forall b :: 0 <= b < |d| && !(sup.bitmapStart <= b < sup.inodeStart) && !(start <= b < start + n) ==>
       d'[b] == d[b]
  }

  /** Writing data blocks leaves the bitmap alone. */
  lemma BitsKept(sup: Super, d: seq<Block>, d': seq<Block>)
    requires OnDisk(sup, d) && |d'| == |d|
    requires forall b :: sup.bitmapStart <= b < sup.inodeStart ==> d'[b] == d[b]
    ensures OnDisk(sup, d') && Bits(sup, d') == Bits(sup, d)
  {
    forall b | 0 <= b < sup.totalBlocks
      ensures Bits(sup, d')[b] == Bits(sup, d)[b]
    {
      assert Bits(sup, d')[b] == Bit(sup, d', b) && Bits(sup, d)[b] == Bit(sup, d, b);
    }
  }

  method FindLast(es: seq<Extent>) returns (last: int)
    ensures -1 <= last < |es|
    ensures last >= 0 ==> es[last].len > 0
    ensures forall i :: last < i < |es| ==> es[i].len == 0
  {
    last := -1;
    for i := 0 to |es|
      invariant -1 <= last < i
      invariant last >= 0 ==> es[last].len > 0
      invariant forall j :: last < j < i ==> es[j].len == 0
    {
      if es[i].len != 0 {
        last := i;
      }
    }
  }

  /** The run from `start` on goes on where the last extent ends. */
  ghost predicate GoesOn(es: seq<Extent>, start: nat) { Phys(es) != [] && EndOf(es) == start }

  /** The block map ends where the last extent in use does. */
  lemma LastBlock(es: seq<Extent>, last: int)
    requires -1 <= last < |es| && (last >= 0 ==> es[last].len > 0) && forall i :: last < i < |es| ==> es[i].len == 0
    ensures last < 0 <==> Phys(es) == []
    ensures last >= 0 ==> EndOf(es) == es[last].start + es[last].len
  {
    if last < 0 {
      PhysEmpty(es);
    } else {
      PhysAt(es, last);
      PhysEmpty(es[last + 1..]);
      assert Phys(es) == Phys(es[..last]) + Run(es[last].start, es[last].len);
    }
  }

  /** Adds a run at the end of the block map; fails exactly when it does not
      continue the last extent and every slot is taken. */
  method AppendExtent(es: seq<Extent>, start: nat, len: nat) returns (ok: bool, es': seq<Extent>)
    requires Packed(es)
    ensures |es'| == |es| && Packed(es')
    ensures ok <==> len > 0 && (GoesOn(es, start) || EmptySlots(es) > 0)
    ensures ok ==> Phys(es') == Phys(es) + Run(start, len)
    ensures ok ==> EmptySlots(es') == EmptySlots(es) - (if GoesOn(es, start) then 0 else 1)
    ensures !ok ==> es' == es
  {
    if len == 0 {
      return false, es;
    }
    var last := FindLast(es);
    LastBlock(es, last);
    var freeSlot := 0;
    while freeSlot < |es| && es[freeSlot].len != 0
      invariant 0 <= freeSlot <= |es|
      invariant forall i :: 0 <= i < freeSlot ==> es[i].len > 0
    {
      freeSlot := freeSlot + 1;
    }
    if last >= 0 && es[last].start + es[last].len == start {
      PhysExtend(es, last, Extent(es[last].start, es[last].len + len), start, len);
      SlotFilled(es, last, Extent(es[last].start, es[last].len + len));
      return true, es[last := Extent(es[last].start, es[last].len + len)];
    }
    if freeSlot < |es| {
      assert Run(es[freeSlot].start, 0) == [];
      PhysExtend(es, freeSlot, Extent(start, len), start, len);
      SlotFilled(es, freeSlot, Extent(start, len));
      return true, es[freeSlot := Extent(start, len)];
    }
    NoSlots(es);
    return false, es;
  }

  /** Marks the `len` blocks right after the last extent and lengthens it, exactly
      if all of them are free. */
  method TryExtendLastExtent(vol: Volume, es: seq<Extent>, len: nat)
    returns (ok: bool, es': seq<Extent>, ghost start: nat)
    requires OnDisk(vol.sup, vol.disk) && Packed(es)
    modifies vol`disk
    ensures OnlyBitmap(vol.sup, old(vol.disk), vol.disk) && |es'| == |es| && Packed(es')
    ensures ok <==> 0 < len <= TailLen(Bits(vol.sup, old(vol.disk)), vol.sup.dataStart, es)
    ensures ok ==>
      && GoesOn(es, start) && vol.sup.dataStart <= start && FreeRun(Bits(vol.sup, old(vol.disk)), start, len)
      && Bits(vol.sup, vol.disk) == Marked(Bits(vol.sup, old(vol.disk)), start, len, true)
      && Phys(es') == Phys(es) + Run(start, len) && EmptySlots(es') == EmptySlots(es)
    ensures !ok ==> vol.disk == old(vol.disk) && es' == es
  {
    es', start := es, 0;
    if len == 0 {
      return false, es, 0;
    }
    var last := FindLast(es);
    LastBlock(es, last);
    if last < 0 {
      return false, es, 0;
    }
    var tail := es[last].start + es[last].len;
    FreeAheadIs(Bits(vol.sup, vol.disk), tail, len);
    if tail >= vol.sup.totalBlocks || len > vol.sup.totalBlocks - tail {
      return false, es, 0;
    }
    var free := RangeIsFree(vol, tail, len);
    if !free {
      return false, es, 0;
    }
    ok := BitmapSetRange(vol, tail, len, true);
    PhysExtend(es, last, Extent(es[last].start, es[last].len + len), tail, len);
    SlotFilled(es, last, Extent(es[last].start, es[last].len + len));
    return true, es[last := Extent(es[last].start, es[last].len + len)], tail;
  }

  /** Zero-fills the last `n` logical blocks of an extent array. */
  method ZeroTail(vol: Volume, es: seq<Extent>, have: nat, n: nat, ghost start: nat) returns (ok: bool)
    requires OnDisk(vol.sup, vol.disk)
    requires vol.sup.dataStart <= start && start + n <= vol.sup.totalBlocks
    requires have + n == |Phys(es)| && Phys(es)[have..] == Run(start, n)
    modifies vol`disk
    ensures ok && ZeroedRun(vol.sup, old(vol.disk), vol.disk, start, n)
    ensures forall b :: vol.sup.bitmapStart <= b < vol.sup.inodeStart ==> vol.disk[b] == old(vol.disk)[b]
  {
    for i := 0 to n
      invariant |vol.disk| == |old(vol.disk)|
      invariant forall b :: start <= b < start + i ==> vol.disk[b] == ZeroBlock()
      invariant forall b :: 0 <= b < |vol.disk| && !(start <= b < start + i) ==> vol.disk[b] == old(vol.disk)[b]
    {
      var phys := LogicalToPhysical(es, have + i);
      assert phys == Phys(es)[have..][i] == start + i;
      if phys < 0 {
        return false;
      }
      vol.disk := vol.disk[phys := ZeroBlock()];
    }
    return true;
  }

  method ZeroBlocks(vol: Volume, start: nat, n: nat)
    requires OnDisk(vol.sup, vol.disk)
    requires vol.sup.dataStart <= start && start + n <= vol.sup.totalBlocks
    modifies vol`disk
    ensures ZeroedRun(vol.sup, old(vol.disk), vol.disk, start, n)
    ensures forall b :: vol.sup.bitmapStart <= b < vol.sup.inodeStart ==> vol.disk[b] == old(vol.disk)[b]
  {
    for i := 0 to n
      invariant |vol.disk| == |old(vol.disk)|
      invariant forall b :: start <= b < start + i ==> vol.disk[b] == ZeroBlock()
      invariant forall b :: 0 <= b < |vol.disk| && !(start <= b < start + i) ==> vol.disk[b] == old(vol.disk)[b]
    {
      vol.disk := vol.disk[start + i := ZeroBlock()];
    }
  }

  /** One pass of extending in place: the longest run of at most `remaining`
      free blocks right after the last extent. */
  method ExtendInPlace(vol: Volume, es: seq<Extent>, have: nat, remaining: nat)
    returns (es': seq<Extent>, got: nat, ghost run: seq<nat>)
    requires OnDisk(vol.sup, vol.disk) && Packed(es) && have == |Phys(es)|
    modifies vol`disk
    ensures |es'| == |es| && Packed(es') && |run| == got && EmptySlots(es') == EmptySlots(es)
    ensures got == Min(remaining, TailLen(Bits(vol.sup, old(vol.disk)), vol.sup.dataStart, es))
    ensures Phys(es') == Phys(es) + run && OnDisk(vol.sup, vol.disk)
    ensures got == 0 ==> es' == es && run == [] && vol.disk == old(vol.disk)
    ensures got > 0 ==>
      Phys(es) != [] && run == Run(EndOf(es), got) && Bits(vol.sup, vol.disk) ==
        Marked(Bits(vol.sup, old(vol.disk)), EndOf(es), got, true)
    ensures TookMore(vol.sup, old(vol.disk), vol.disk, run)
  {
    es', got, run := es, 0, [];
    TookMoreNothing(vol.sup, vol.disk);
    var chunk := remaining;
    while chunk > 0
      invariant 0 <= chunk <= remaining
      invariant vol.disk == old(vol.disk) && es' == es && got == |run| == 0
      invariant chunk < remaining ==> TailLen(Bits(vol.sup, old(vol.disk)), vol.sup.dataStart, es) <= chunk
    {
      var ok, grown, start := TryExtendLastExtent(vol, es, chunk);
      if ok {
        ghost var marked := vol.disk;
        assert Phys(grown)[have..] == Run(start, chunk);
        var _ := ZeroTail(vol, grown, have, chunk, start);
        BitsKept(vol.sup, marked, vol.disk);
        forall d0, added | Took(vol.sup, d0, old(vol.disk), added)
          ensures Took(vol.sup, d0, vol.disk, added + Run(start, chunk))
        {
          TookRun(vol.sup, d0, old(vol.disk), vol.disk, added, start, chunk);
        }
        return grown, chunk, Run(start, chunk);
      }
      chunk := chunk - 1;
    }
  }

  /** The longest run of at most `remaining` free blocks anywhere, marked. */
  method AllocLongestRun(vol: Volume, remaining: nat) returns (start: int, len: nat)
    requires OnDisk(vol.sup, vol.disk) && remaining > 0
    modifies vol`disk
    ensures OnlyBitmap(vol.sup, old(vol.disk), vol.disk)
    ensures start >= 0 ==> IsLongest(vol.sup, Bits(vol.sup, old(vol.disk)), start, len, remaining)
    ensures start >= 0 ==> Bits(vol.sup, vol.disk) == Marked(Bits(vol.sup, old(vol.disk)), start, len, true)
    ensures start < 0 ==> vol.disk == old(vol.disk)
    ensures start < 0 <==> NoFit(Bits(vol.sup, old(vol.disk)), 1, vol.sup.dataStart, vol.sup.totalBlocks)
  {
    len, start := remaining, -1;
    while len > 0
      invariant 0 <= len <= remaining && vol.disk == old(vol.disk)
      invariant len < remaining ==> NoFit(Bits(vol.sup, vol.disk), len + 1, vol.sup.dataStart, vol.sup.totalBlocks)
    {
      start := AllocExtent(vol, len);
      if start >= 0 {
        assert FreeRun(Bits(vol.sup, old(vol.disk)), start, 1);
        return;
      }
      len := len - 1;
    }
    start := -1;
  }

  /** A free data run of `len` blocks that is as long as wanted or as long as any. */
  ghost predicate IsLongest(sup: Super, bits: seq<bool>, start: nat, len: nat, remaining: nat) {
    && FirstFit(sup, bits, len, start) && 0 < len <= remaining
    && (len == remaining || NoFit(bits, len + 1, sup.dataStart, |bits|))
  }

  /** One pass of allocating: the longest run of at most `remaining` free blocks
      anywhere, added as a new extent.  It goes on from no extent, since the block
      after the last one is not free. */
  method AllocateRun(vol: Volume, es: seq<Extent>, remaining: nat)
    returns (ok: bool, es': seq<Extent>, got: nat, ghost start: nat)
    requires OnDisk(vol.sup, vol.disk) && Packed(es) && remaining > 0
    requires TailLen(Bits(vol.sup, vol.disk), vol.sup.dataStart, es) == 0
    modifies vol`disk
    ensures |es'| == |es| && Packed(es') && OnDisk(vol.sup, vol.disk)
    ensures ok <==>
      !NoFit(Bits(vol.sup, old(vol.disk)), 1, vol.sup.dataStart, vol.sup.totalBlocks) && EmptySlots(es) > 0
    ensures ok ==> IsLongest(vol.sup, Bits(vol.sup, old(vol.disk)), start, got, remaining)
    ensures ok ==> Bits(vol.sup, vol.disk) == Marked(Bits(vol.sup, old(vol.disk)), start, got, true)
    ensures ok ==> Phys(es') == Phys(es) + Run(start, got) && EmptySlots(es') + 1 == EmptySlots(es)
    ensures ok ==> TookMore(vol.sup, old(vol.disk), vol.disk, Run(start, got))
    ensures !ok ==> es' == es && Bits(vol.sup, vol.disk) == Bits(vol.sup, old(vol.disk))
    ensures !ok ==> TookMore(vol.sup, old(vol.disk), vol.disk, [])
  {
    es', got, start := es, 0, 0;
    TookMoreNothing(vol.sup, vol.disk);
    var at, chunk := AllocLongestRun(vol, remaining);
    if at < 0 {
      return false, es, 0, 0;
    }
    ghost var marked := vol.disk;
    NotAhead(Bits(vol.sup, old(vol.disk)), vol.sup.dataStart, es, at, chunk);
    ok, es' := AppendExtent(es, at, chunk);
    if !ok {
      var _ := FreeExtent(vol, at, chunk);
      GaveBack(vol.sup, old(vol.disk), marked, vol.disk, at, chunk);
      return;
    }
    ZeroBlocks(vol, at, chunk);
    BitsKept(vol.sup, marked, vol.disk);
    got, start := chunk, at;
    forall d0, added | Took(vol.sup, d0, old(vol.disk), added)
      ensures Took(vol.sup, d0, vol.disk, added + Run(at, chunk))
    {
      TookRun(vol.sup, d0, old(vol.disk), vol.disk, added, at, chunk);
    }
  }

  lemma NotAhead(bits: seq<bool>, lo: nat, es: seq<Extent>, start: nat, len: nat)
    requires TailLen(bits, lo, es) == 0 && lo <= start && FreeRun(bits, start, len) && len > 0
    ensures !GoesOn(es, start)
  {
    FreeAheadIs(bits, start, len);
  }

  /** Freeing a run just taken restores the bitmap. */
  lemma GaveBack(sup: Super, d: seq<Block>, d1: seq<Block>, d2: seq<Block>, start: nat, n: nat)
    requires OnDisk(sup, d) && OnDisk(sup, d1) && OnDisk(sup, d2)
    requires OnlyBitmap(sup, d, d1) && OnlyBitmap(sup, d1, d2) && FreeRun(Bits(sup, d), start, n)
    requires Bits(sup, d1) == Marked(Bits(sup, d), start, n, true)
    requires Bits(sup, d2) == Marked(Bits(sup, d1), start, n, false)
    ensures Bits(sup, d2) == Bits(sup, d)
    ensures TookMore(sup, d, d2, [])
  {
    assert Bits(sup, d2) == Bits(sup, d);
    forall d0, added | Took(sup, d0, d, added)
      ensures Took(sup, d0, d2, added + [])
    {
      assert added + [] == added;
    }
  }

  /** Every block of the data region is in use. */
  ghost predicate DataFull(sup: Super, bits: seq<bool>) {
    forall b :: sup.dataStart <= b < |bits| ==> bits[b]
  }

  lemma FullIsNoFit(sup: Super, bits: seq<bool>)
    ensures NoFit(bits, 1, sup.dataStart, |bits|) <==> DataFull(sup, bits)
  {
    if NoFit(bits, 1, sup.dataStart, |bits|) {
      forall b | sup.dataStart <= b < |bits| ensures bits[b] {
        assert !FreeRun(bits, b, 1);
      }
    }
    if DataFull(sup, bits) {
      forall s | sup.dataStart <= s && s + 1 <= |bits| ensures !FreeRun(bits, s, 1) {
        assert bits[s];
      }
    }
  }

  /** Some block would be taken before growing gives up: the one after the last extent
      is free, or any data block is and there is a slot for it. */
  ghost predicate TakesSome(sup: Super, bits: seq<bool>, es: seq<Extent>) {
    TailLen(bits, sup.dataStart, es) > 0 || (!DataFull(sup, bits) && EmptySlots(es) > 0)
  }

  /** Growing on from here can be completed exactly if it could be from the start. */
  ghost predicate SameHope(lo: nat, bits0: seq<bool>, es0: seq<Extent>, bits: seq<bool>, es: seq<Extent>, need: nat) {
    Anchored(bits, lo, es) && (CanGrow(bits0, lo, es0, need) <==> CanGrow(bits, lo, es, need))
  }

  // ----- which blocks growing takes -----

  /** Where growing has got: the bitmap, the block map and the empty extent slots. */
  datatype Growth = Growth(bits: seq<bool>, phys: seq<nat>, slots: nat)

  /** The run growing takes next, `n` blocks being missing: as much as there is of
      the blocks right after the last one, or else a longest run. */
  ghost predicate NextRun(sup: Super, a: Growth, n: nat, start: nat, len: nat) {
    var tail := TailAfter(a.bits, sup.dataStart, a.phys);
    if tail > 0 then start == a.phys[|a.phys| - 1] + 1 && len == Min(n, tail)
    else a.slots > 0 && IsLongest(sup, a.bits, start, len, n)
  }

  ghost function WithRun(sup: Super, a: Growth, start: nat, len: nat): Growth
    requires TailAfter(a.bits, sup.dataStart, a.phys) == 0 ==> a.slots > 0
  {
    Growth(Marked(a.bits, start, len, true), a.phys + Run(start, len),
           if TailAfter(a.bits, sup.dataStart, a.phys) > 0 then a.slots else a.slots - 1)
  }

  ghost predicate GrowthStep(sup: Super, need: nat, a: Growth, b: Growth) {
    |a.phys| < need && exists start, len {:trigger NextRun(sup, a, need - |a.phys|, start, len)} ::
      NextRun(sup, a, need - |a.phys|, start, len) && b == WithRun(sup, a, start, len)
  }

  /** Growing cannot go on. */
  ghost predicate Stuck(sup: Super, need: nat, a: Growth) {
    && |a.phys| < need && TailAfter(a.bits, sup.dataStart, a.phys) == 0
    && (a.slots == 0 || NoFit(a.bits, 1, sup.dataStart, |a.bits|))
  }

  ghost predicate Ended(sup: Super, need: nat, a: Growth, ok: bool) {
    if ok then |a.phys| >= need else Stuck(sup, need, a)
  }

  ghost function GrowthSteps(sup: Super, need: nat): (Growth, Growth) -> bool {
    (a, b) => GrowthStep(sup, need, a, b)
  }

  /** Growing from `a` to `need` blocks ends in `b`, with all of them or without. */
  ghost predicate Grew(sup: Super, need: nat, a: Growth, ok: bool, b: Growth) {
    Reaches(GrowthSteps(sup, need), a, b) && Ended(sup, need, b, ok)
  }

  lemma OneLongest(sup: Super, bits: seq<bool>, start: nat, len: nat, start': nat, len': nat, n: nat)
    requires IsLongest(sup, bits, start, len, n) && IsLongest(sup, bits, start', len', n)
    ensures start' == start && len' == len
  {
    assert FreeRun(bits, start, len) && FreeRun(bits, start', len');
    if len < len' {
      assert FreeRun(bits, start', len + 1);
    } else if len' < len {
      assert FreeRun(bits, start, len' + 1);
    }
  }

  lemma OneStep(sup: Super, need: nat, a: Growth, b: Growth, c: Growth)
    requires GrowthStep(sup, need, a, b) && GrowthStep(sup, need, a, c)
    ensures b == c && !Stuck(sup, need, a)
  {
    var n := need - |a.phys|;
    var start, len :| NextRun(sup, a, n, start, len) && b == WithRun(sup, a, start, len);
    var start', len' :| NextRun(sup, a, n, start', len') && c == WithRun(sup, a, start', len');
    if TailAfter(a.bits, sup.dataStart, a.phys) == 0 {
      OneLongest(sup, a.bits, start, len, start', len', n);
      assert FreeRun(a.bits, start, 1);
    }
  }

  lemma EndedIsFinal(sup: Super, need: nat, a: Growth, ok: bool)
    requires Ended(sup, need, a, ok)
    ensures Final(GrowthSteps(sup, need), a)
  {
    forall b ensures !GrowthSteps(sup, need)(a, b) {
      if GrowthStep(sup, need, a, b) {
        OneStep(sup, need, a, b, b);
      }
    }
  }

  /** Which blocks growing takes, and whether it gets them all, is determined. */
  lemma GrewOnce(sup: Super, need: nat, a: Growth, ok: bool, b: Growth, ok': bool, b': Growth)
    requires Grew(sup, need, a, ok, b) && Grew(sup, need, a, ok', b')
    ensures ok' == ok && b' == b
  {
    var step := GrowthSteps(sup, need);
    forall x, y, z | step(x, y) && step(x, z) ensures y == z {
      OneStep(sup, need, x, y, z);
    }
    EndedIsFinal(sup, need, b, ok);
    EndedIsFinal(sup, need, b', ok');
    EndOnce(step, a, b, b');
  }

  /** What lengthening the last extent by `got` blocks leaves. */
  ghost predicate Longer(sup: Super, need: nat, a: Growth, got: nat, mid: Growth) {
    && |a.phys| < need && got == Min(need - |a.phys|, TailAfter(a.bits, sup.dataStart, a.phys))
    && mid == if got == 0 then a else WithRun(sup, a, a.phys[|a.phys| - 1] + 1, got)
  }

  lemma IsLonger(sup: Super, need: nat, bits: seq<bool>, es: seq<Extent>, bits1: seq<bool>, mid: seq<Extent>, got: nat)
    requires |Phys(es)| < need && got == Min(need - |Phys(es)|, TailLen(bits, sup.dataStart, es))
    requires EmptySlots(mid) == EmptySlots(es)
    requires got == 0 ==> mid == es && bits1 == bits
    requires got > 0 ==> Phys(es) != [] && bits1 == Marked(bits, EndOf(es), got, true)
    requires got > 0 ==> Phys(mid) == Phys(es) + Run(EndOf(es), got)
    ensures Longer(sup, need, Growth(bits, Phys(es), EmptySlots(es)), got, Growth(bits1, Phys(mid), EmptySlots(mid)))
  {
    var a := Growth(bits, Phys(es), EmptySlots(es));
    if got > 0 {
      var start := a.phys[|a.phys| - 1] + 1;
      assert start == EndOf(es) && TailAfter(a.bits, sup.dataStart, a.phys) > 0;
      assert WithRun(sup, a, start, got) == Growth(bits1, Phys(mid), EmptySlots(mid));
    }
  }

  /** Lengthening the last extent is a step. */
  lemma ExtendStep(sup: Super, need: nat, a: Growth, got: nat, mid: Growth)
    requires Longer(sup, need, a, got, mid)
    ensures Reaches(GrowthSteps(sup, need), a, mid)
  {
    ReachesItself(GrowthSteps(sup, need), a);
    if got > 0 {
      assert NextRun(sup, a, need - |a.phys|, a.phys[|a.phys| - 1] + 1, got);
      ReachesNext(GrowthSteps(sup, need), a, a, mid);
    }
  }

  /** And so is adding a longest run. */
  lemma AllocStep(sup: Super, need: nat, a: Growth, first: nat, mid: Growth, start: nat, got: nat)
    requires Longer(sup, need, a, first, mid) && |mid.phys| < need
    requires TailAfter(mid.bits, sup.dataStart, mid.phys) == 0 && mid.slots > 0
    requires IsLongest(sup, mid.bits, start, got, need - |mid.phys|)
    ensures Reaches(GrowthSteps(sup, need), a, WithRun(sup, mid, start, got))
  {
    ExtendStep(sup, need, a, first, mid);
    assert NextRun(sup, mid, need - |mid.phys|, start, got);
    ReachesNext(GrowthSteps(sup, need), a, mid, WithRun(sup, mid, start, got));
  }

  /** What one pass of growing achieves. */
  ghost predicate Passed(sup: Super, bits: seq<bool>, es: seq<Extent>, bits': seq<bool>, es': seq<Extent>, need: nat,
                         ok: bool, run: seq<nat>) {
    && (Anchored(bits, sup.dataStart, es) ==>
          if ok then SameHope(sup.dataStart, bits, es, bits', es', need) else !CanGrow(bits, sup.dataStart, es, need))
    && (run != [] <==> TakesSome(sup, bits, es)) && (run == [] ==> es' == es && bits' == bits)
    && (ok && Phys(es) == [] ==> run != [] && FirstFit(sup, bits, |run|, run[0]))
  }

  ghost function At(sup: Super, d: seq<Block>, es: seq<Extent>): Growth
    requires OnDisk(sup, d)
  {
    Growth(Bits(sup, d), Phys(es), EmptySlots(es))
  }

  /** First lengthen the last extent. */
  method ExtendPass(vol: Volume, es: seq<Extent>, have: nat, need: nat)
    returns (es': seq<Extent>, have': nat, ghost run: seq<nat>, ghost got: nat)
    requires OnDisk(vol.sup, vol.disk) && Packed(es) && have == |Phys(es)| < need
    modifies vol`disk
    ensures |es'| == |es| && Packed(es') && OnDisk(vol.sup, vol.disk)
    ensures Phys(es') == Phys(es) + run && have' == |Phys(es')| <= need
    ensures TookMore(vol.sup, old(vol.disk), vol.disk, run)
    ensures Longer(vol.sup, need, At(vol.sup, old(vol.disk), es), got, At(vol.sup, vol.disk, es'))
    ensures have' < need ==>
      Lengthened(vol.sup.dataStart, Bits(vol.sup, old(vol.disk)), es, Bits(vol.sup, vol.disk), es', need, run)
    ensures have' == need ==>
      Passed(vol.sup, Bits(vol.sup, old(vol.disk)), es, Bits(vol.sup, vol.disk), es', need, true, run)
  {
    var n;
    es', n, run := ExtendInPlace(vol, es, have, need - have);
    ghost var bits, bits1 := Bits(vol.sup, old(vol.disk)), Bits(vol.sup, vol.disk);
    Extended(vol.sup.dataStart, bits, es, bits1, es', need, n);
    IsLonger(vol.sup, need, bits, es, bits1, es', n);
    have', got := have + n, n;
  }

  /** One pass of growing: lengthen the last extent, and if that is not enough add
      another run. */
  method GrowPass(vol: Volume, es: seq<Extent>, have: nat, need: nat)
    returns (ok: bool, es': seq<Extent>, have': nat, ghost run: seq<nat>)
    requires OnDisk(vol.sup, vol.disk) && Packed(es) && have == |Phys(es)| < need
    modifies vol`disk
    ensures |es'| == |es| && Packed(es') && OnDisk(vol.sup, vol.disk)
    ensures Phys(es') == Phys(es) + run && have' == |Phys(es')| <= need && (ok ==> have < have')
    ensures TookMore(vol.sup, old(vol.disk), vol.disk, run)
    ensures Passed(vol.sup, Bits(vol.sup, old(vol.disk)), es, Bits(vol.sup, vol.disk), es', need, ok, run)
    ensures Reaches(GrowthSteps(vol.sup, need), At(vol.sup, old(vol.disk), es), At(vol.sup, vol.disk, es'))
    ensures !ok ==> Stuck(vol.sup, need, At(vol.sup, vol.disk, es'))
  {
    ghost var sup, bits, a := vol.sup, Bits(vol.sup, vol.disk), At(vol.sup, vol.disk, es);
    ghost var first;
    es', have', run, first := ExtendPass(vol, es, have, need);
    ghost var mid, d1, bits1, g1 := es', vol.disk, Bits(vol.sup, vol.disk), At(vol.sup, vol.disk, es');
    ExtendStep(sup, need, a, first, g1);
    ok := true;
    if have' < need {
      ghost var firstRun, start := run, 0;
      var got;
      ok, es', got, start := AllocateRun(vol, es', need - have');
      if !ok {
        TookMoreTwice(sup, old(vol.disk), d1, vol.disk, run, []);
        assert run + [] == run;
        PassedStuck(sup, bits, es, bits1, mid, need, run);
        return;
      }
      PassedAlloc(sup, bits, es, bits1, mid, es', need, firstRun, start, got);
      AllocStep(sup, need, a, first, g1, start, got);
      ConcatAssoc(Phys(es), firstRun, Run(start, got));
      run := firstRun + Run(start, got);
      TookMoreTwice(sup, old(vol.disk), d1, vol.disk, firstRun, Run(start, got));
      have' := have' + got;
    }
  }

  /** What lengthening the last extent left: nothing more to lengthen. */
  ghost predicate Lengthened(lo: nat, bits: seq<bool>, es: seq<Extent>, bits1: seq<bool>, mid: seq<Extent>, need: nat,
                             first: seq<nat>) {
    && (Anchored(bits, lo, es) ==> SameHope(lo, bits, es, bits1, mid, need))
    && TailLen(bits1, lo, mid) == 0 && |Phys(mid)| < need && EmptySlots(mid) == EmptySlots(es)
    && (first == [] ==> mid == es && bits1 == bits) && (first != [] ==> TailLen(bits, lo, es) > 0 && Phys(es) != [])
  }

  lemma PassedStuck(sup: Super, bits: seq<bool>, es: seq<Extent>, bits1: seq<bool>, mid: seq<Extent>, need: nat,
                    first: seq<nat>)
    requires Lengthened(sup.dataStart, bits, es, bits1, mid, need, first)
    requires NoFit(bits1, 1, sup.dataStart, |bits1|) || EmptySlots(mid) == 0
    ensures Passed(sup, bits, es, bits1, mid, need, false, first)
  {
    FullIsNoFit(sup, bits1);
    StuckStep(bits1, sup.dataStart, mid, need);
  }

  lemma PassedAlloc(sup: Super, bits: seq<bool>, es: seq<Extent>, bits1: seq<bool>, mid: seq<Extent>, es': seq<Extent>,
                    need: nat, first: seq<nat>, start: nat, got: nat)
    requires Lengthened(sup.dataStart, bits, es, bits1, mid, need, first)
    requires IsLongest(sup, bits1, start, got, need - |Phys(mid)|)
    requires Phys(es') == Phys(mid) + Run(start, got) && EmptySlots(es') + 1 == EmptySlots(mid)
    ensures Passed(sup, bits, es, Marked(bits1, start, got, true), es', need, true, first + Run(start, got))
  {
    Allocated(sup, bits1, mid, es', need, start, got);
    assert !bits1[start];
  }

  lemma Extended(lo: nat, bits: seq<bool>, es: seq<Extent>, bits': seq<bool>, es': seq<Extent>, need: nat, got: nat)
    requires |Phys(es)| < need && got == Min(need - |Phys(es)|, TailLen(bits, lo, es))
    requires EmptySlots(es') == EmptySlots(es)
    requires got == 0 ==> es' == es && bits' == bits
    requires got > 0 ==> Phys(es) != [] && bits' == Marked(bits, EndOf(es), got, true)
    requires got > 0 ==> Phys(es') == Phys(es) + Run(EndOf(es), got)
    ensures Anchored(bits, lo, es) ==> SameHope(lo, bits, es, bits', es', need)
    ensures |Phys(es)| + got < need ==> TailLen(bits', lo, es') == 0
  {
    if got > 0 {
      if got == need - |Phys(es)| {
        ExtendEnough(bits, lo, es, es', need, got);
      } else if Anchored(bits, lo, es) {
        ExtendAll(bits, lo, es, es', need);
      } else {
        TailUsedUp(bits, lo, es, es');
      }
    }
  }

  lemma Allocated(sup: Super, bits: seq<bool>, es: seq<Extent>, es': seq<Extent>, need: nat, start: nat, got: nat)
    requires TailLen(bits, sup.dataStart, es) == 0 && |Phys(es)| < need
    requires IsLongest(sup, bits, start, got, need - |Phys(es)|)
    requires Phys(es') == Phys(es) + Run(start, got) && EmptySlots(es') + 1 == EmptySlots(es)
    ensures SameHope(sup.dataStart, bits, es, Marked(bits, start, got, true), es', need)
  {
    if got == need - |Phys(es)| {
      AllocEnough(bits, sup.dataStart, es, es', need, start, got);
    } else {
      AllocLongest(bits, sup.dataStart, es, es', need, start, got);
    }
  }

  /** Grows an extent array to at least `need` blocks.  On success the old block
      map is kept and the blocks `added` are appended to it; on failure the
      inode is untouched and the blocks in `added` stay marked although nothing
      refers to them.  It succeeds whenever the blocks are there at all, in as many
      runs as there are slots for. */
  method EnsureBlocks(vol: Volume, es: seq<Extent>, need: nat)
    returns (ok: bool, es': seq<Extent>, ghost added: seq<nat>, ghost left: nat)
    requires OnDisk(vol.sup, vol.disk) && Packed(es)
    modifies vol`disk
    ensures |es'| == |es| && Packed(es')
    ensures Took(vol.sup, old(vol.disk), vol.disk, added)
    ensures Grew(vol.sup, need, At(vol.sup, old(vol.disk), es), ok,
                 Growth(Bits(vol.sup, vol.disk), Phys(es) + added, left))
    ensures ok ==> left == EmptySlots(es')
    ensures ok ==> Phys(es') == Phys(es) + added && |Phys(es')| == Max(|Phys(es)|, need)
    ensures !ok ==> es' == es
    ensures Anchored(Bits(vol.sup, old(vol.disk)), vol.sup.dataStart, es) ==>
      (ok <==> CanGrow(Bits(vol.sup, old(vol.disk)), vol.sup.dataStart, es, need))
    ensures !ok ==> (added != [] <==> TakesSome(vol.sup, Bits(vol.sup, old(vol.disk)), es))
    ensures ok && Phys(es) == [] && need == 1 ==> |added| == 1
    ensures ok && Phys(es) == [] && need == 1 ==> FirstFit(vol.sup, Bits(vol.sup, old(vol.disk)), 1, added[0])
  {
    var tmp := es;
    var have := BlockCount(tmp);
    ghost var sup, bits0 := vol.sup, Bits(vol.sup, vol.disk);
    added := [];
    TookNothing(vol.sup, vol.disk);
    assert Phys(es) + [] == Phys(es);
    ghost var a := At(sup, vol.disk, es);
    ReachesItself(GrowthSteps(sup, need), a);
    while have < need
      invariant |tmp| == |es| && Packed(tmp) && have == |Phys(tmp)|
      invariant Took(vol.sup, old(vol.disk), vol.disk, added)
      invariant Phys(tmp) == Phys(es) + added && |Phys(es)| <= have <= Max(|Phys(es)|, need)
      invariant Anchored(bits0, sup.dataStart, es) ==>
        SameHope(sup.dataStart, bits0, es, Bits(sup, vol.disk), tmp, need)
      invariant Reaches(GrowthSteps(sup, need), a, At(sup, vol.disk, tmp))
      invariant added == [] ==> tmp == es && Bits(sup, vol.disk) == bits0
      invariant added != [] ==> TakesSome(sup, bits0, es)
      invariant Phys(es) == [] && need == 1 && added != [] ==> |added| == 1 && FirstFit(sup, bits0, 1, added[0])
    {
      var grown;
      ghost var run;
      ghost var b := At(sup, vol.disk, tmp);
      grown, tmp, have, run := GrowPass(vol, tmp, have, need);
      ReachesOn(GrowthSteps(sup, need), a, b, At(sup, vol.disk, tmp));
      ConcatAssoc(Phys(es), added, run);
      added := added + run;
      if !grown {
        return false, es, added, EmptySlots(tmp);
      }
    }
    if Anchored(bits0, sup.dataStart, es) {
      EnoughAlready(Bits(sup, vol.disk), sup.dataStart, TailSet(Bits(sup, vol.disk), sup.dataStart, tmp), need - have,
                    EmptySlots(tmp));
    }
    return true, tmp, added, EmptySlots(tmp);
  }

  /** A first block is to be had exactly when any data block is free. */
  lemma OneBlock(sup: Super, bits: seq<bool>, es: seq<Extent>)
    requires Phys(es) == [] && EmptySlots(es) > 0
    ensures CanGrow(bits, sup.dataStart, es, 1) <==> !DataFull(sup, bits)
    ensures TakesSome(sup, bits, es) <==> !DataFull(sup, bits)
  {
    if DataFull(sup, bits) {
      FullIsNoFit(sup, bits);
      StuckStep(bits, sup.dataStart, es, 1);
    } else {
      var b :| sup.dataStart <= b < |bits| && !bits[b];
      CoverOne(bits, sup.dataStart, b, 1, TailSet(bits, sup.dataStart, es), EmptySlots(es));
    }
  }

  lemma TookOne(sup: Super, d0: seq<Block>, d1: seq<Block>, added: seq<nat>)
    requires Took(sup, d0, d1, added) && |added| == 1
    ensures Bits(sup, d1) == Marked(Bits(sup, d0), added[0], 1, true)
  {
    assert forall b :: b in added <==> b == added[0];
  }
}
