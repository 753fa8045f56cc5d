/** Directory slots: lookup, insertion, removal and enumeration (fs/nxfs.c). */
module NxfsDirOps {
  import opened Bitmap
  import opened Extents
  import opened Contents
  import opened NxfsAlloc
  import opened NxfsGrow
  import opened Coverage
  import opened NxfsDir
  import opened NxfsState
  import opened NxfsLayout
  import opened NxfsTree

  predicate Matches(s: DirSlot, name: Name, wantFree: bool) {
    if wantFree then s.name == [] else s.name != [] && s.name == name
  }

  method FindInBlock(blk: Block, name: Name, wantFree: bool) returns (i: nat)
    ensures i <= 16
    ensures forall j :: 0 <= j < i ==> !Matches(SlotAt(blk, j), name, wantFree)
    ensures i < 16 ==> Matches(SlotAt(blk, i), name, wantFree)
  {
    i := 0;
    while i < 16
      invariant i <= 16
      invariant forall j :: 0 <= j < i ==> !Matches(SlotAt(blk, j), name, wantFree)
    {
      if Matches(SlotAt(blk, i), name, wantFree) {
        return;
      }
      i := i + 1;
    }
  }

  /** `k` is the first slot that matches. */
  ghost predicate FirstMatch(slots: seq<DirSlot>, name: Name, wantFree: bool, k: nat) {
    && k < |slots| && Matches(slots[k], name, wantFree)
    && forall j :: 0 <= j < k ==> !Matches(slots[j], name, wantFree)
  }

  ghost predicate NoMatch(slots: seq<DirSlot>, name: Name, wantFree: bool, n: nat)
    requires n <= |slots|
  {
    forall j :: 0 <= j < n ==> !Matches(slots[j], name, wantFree)
  }

  lemma NoMatchInBlock(disk: seq<Block>, phys: seq<nat>, name: Name, wantFree: bool, b: nat, n: nat)
    requires Within(phys, 0, |disk|) && b < |phys| && n <= 16
    requires NoMatch(Slots(disk, phys), name, wantFree, 16 * b)
    requires forall j :: 0 <= j < n ==> !Matches(SlotAt(disk[phys[b]], j), name, wantFree)
    ensures NoMatch(Slots(disk, phys), name, wantFree, 16 * b + n)
  {
    forall k | 16 * b <= k < 16 * b + n ensures !Matches(Slots(disk, phys)[k], name, wantFree) {
      SlotInBlock(disk, phys, b, k - 16 * b);
    }
  }

  /** Scans a directory block by block for a name, or for a free slot. */
  method FindDirEntrySlot(vol: Volume, es: seq<Extent>, name: Name, wantFree: bool)
    returns (found: bool, ino: nat, block: nat, slot: nat)
    requires Within(Phys(es), 0, |vol.disk|)
    ensures found ==> slot < 16 && block < |Phys(es)|
    ensures found ==> FirstMatch(Slots(vol.disk, Phys(es)), name, wantFree, 16 * block + slot)
    ensures found ==> ino == Slots(vol.disk, Phys(es))[16 * block + slot].ino
    ensures !found ==> NoMatch(Slots(vol.disk, Phys(es)), name, wantFree, |Slots(vol.disk, Phys(es))|)
  {
    found, ino, block, slot := false, 0, 0, 0;
    ghost var slots := Slots(vol.disk, Phys(es));
    var blocks := BlockCount(es);
    while block < blocks
      invariant block <= blocks
      invariant NoMatch(slots, name, wantFree, 16 * block)
    {
      var phys := LogicalToPhysical(es, block);
      var blk := vol.disk[phys];
      slot := FindInBlock(blk, name, wantFree);
      NoMatchInBlock(vol.disk, Phys(es), name, wantFree, block, slot);
      if slot < 16 {
        SlotInBlock(vol.disk, Phys(es), block, slot);
        return true, SlotAt(blk, slot).ino, block, slot;
      }
      block := block + 1;
    }
  }

  /** A name is found exactly when the directory maps it, and to that inode. */
  lemma FoundIsMapped(slots: seq<DirSlot>, name: Name)
    requires UniqueNames(slots) && name != []
    ensures forall k: nat :: FirstMatch(slots, name, false, k) ==>
      name in NameMap(slots) && NameMap(slots)[name] == slots[k].ino
    ensures NoMatch(slots, name, false, |slots|) ==> name !in NameMap(slots)
  {
    forall k: nat | FirstMatch(slots, name, false, k)
      ensures name in NameMap(slots) && NameMap(slots)[name] == slots[k].ino
    {
      NameMapAt(slots, k);
    }
    NameMapAbsent(slots, name);
  }

  ghost predicate FullDir(slots: seq<DirSlot>) {
    forall k {:trigger Live(slots[k])} :: 0 <= k < |slots| ==> Live(slots[k])
  }

  /** A directory has a free slot, or can grow by eight blocks. */
  ghost predicate HasRoom(sup: Super, bits: seq<bool>, slots: seq<DirSlot>, es: seq<Extent>) {
    !FullDir(slots) || CanGrow(bits, sup.dataStart, es, |Phys(es)| + DIR_GROW_BLOCKS)
  }

  /** It has neither, and trying to grow marks some blocks before giving up. */
  ghost predicate Spills(sup: Super, bits: seq<bool>, slots: seq<DirSlot>, es: seq<Extent>) {
    !HasRoom(sup, bits, slots, es) && TakesSome(sup, bits, es)
  }

  /** The name can be added to a directory with these slots. */
  ghost predicate NameFits(slots: seq<DirSlot>, name: Name) {
    0 < |name| <= 27 && name !in NameMap(slots)
  }

  /** Adding a name fails and leaves blocks marked that nobody owns. */
  ghost predicate AddSpills(sup: Super, bits: seq<bool>, slots: seq<DirSlot>, es: seq<Extent>, name: Name) {
    NameFits(slots, name) && Spills(sup, bits, slots, es)
  }

  /** When a name is added to a directory, and what that does to the directory's blocks
      and the bitmap. */
  ghost predicate Outcome(sup: Super, d: seq<Block>, dir: Inode, name: Name, ok: bool, bits': seq<bool>, dir': Inode)
    requires OnDisk(sup, d)
  {
    var slots, bits := Entries(d, dir), Bits(sup, d);
    && (ok <==> NameFits(slots, name) && HasRoom(sup, bits, slots, dir.extents))
    && if NameFits(slots, name) then Entered(sup, bits, OutlineOf(dir), FullDir(slots), ok, bits', OutlineOf(dir'))
       else bits' == bits && dir' == dir
  }

  lemma FullIsNoMatch(slots: seq<DirSlot>)
    ensures FullDir(slots) <==> NoMatch(slots, [], true, |slots|)
  {
    if FullDir(slots) {
      assert forall k :: 0 <= k < |slots| ==> Live(slots[k]);
    }
  }

  /** A free slot: the first one there is, or the first of eight new blocks. */
  method DirFindFreeSlot(vol: Volume, dir: Inode)
    returns (ok: bool, dir': Inode, block: nat, slot: nat, ghost added: seq<nat>)
    requires OnDisk(vol.sup, vol.disk) && dir.kind.Dir? && Shaped(dir)
    requires Holds(vol.sup, Bits(vol.sup, vol.disk), Blocks(dir))
    modifies vol`disk
    ensures Took(vol.sup, old(vol.disk), vol.disk, added)
    ensures ok <==> HasRoom(vol.sup, Bits(vol.sup, old(vol.disk)), Slots(old(vol.disk), Blocks(dir)), dir.extents)
    ensures !ok ==> dir' == dir && (added != [] <==> TakesSome(vol.sup, Bits(vol.sup, old(vol.disk)), dir.extents))
    ensures ok ==> dir' == dir.(extents := dir'.extents) && Shaped(dir') && Blocks(dir') == Blocks(dir) + added
    ensures ok ==> slot < 16 && block < |Blocks(dir')|
    ensures ok && added == [] ==> FirstMatch(Slots(old(vol.disk), Blocks(dir)), [], true, 16 * block + slot)
    ensures ok && added != [] ==> block == |Blocks(dir)| && slot == 0 && |added| == DIR_GROW_BLOCKS
    ensures Entered(vol.sup, Bits(vol.sup, old(vol.disk)), OutlineOf(dir), FullDir(Slots(old(vol.disk), Blocks(dir))),
                    ok,
                    Bits(vol.sup, vol.disk), OutlineOf(dir'))
  {
    dir', added := dir, [];
    TookNothing(vol.sup, vol.disk);
    HoldsAnchored(vol.sup, Bits(vol.sup, vol.disk), dir.extents);
    FullIsNoMatch(Slots(vol.disk, Blocks(dir)));
    var found, _, b, s := FindDirEntrySlot(vol, dir.extents, [], true);
    if found {
      assert Blocks(dir) + [] == Blocks(dir);
      return true, dir, b, s, [];
    }
    var blocks := BlockCount(dir.extents);
    var es;
    ghost var left;
    ok, es, added, left := EnsureBlocks(vol, dir.extents, blocks + DIR_GROW_BLOCKS);
    EnteredGrown(vol.sup, Bits(vol.sup, old(vol.disk)), dir, ok, Bits(vol.sup, vol.disk), es, Phys(dir.extents) + added,
                 left);
    if !ok {
      return false, dir, 0, 0, added;
    }
    return true, dir.(extents := es), blocks, 0, added;
  }

  /** The directory `p` gained the entry `s` in slot `k`, having grown by `n`
      free slots first; nothing else changed. */
  ghost predicate EntryAdded(d: seq<Block>, inodes: seq<Inode>, d': seq<Block>, inodes': seq<Inode>, p: nat, s: DirSlot,
                             k: nat, n: nat) {
    && p < |inodes| && |inodes'| == |inodes|
    && inodes' == inodes[p := inodes[p].(extents := inodes'[p].extents, size := inodes'[p].size)]
    && var was := Entries(d, inodes[p]);
    && Live(s) && s.name !in NameMap(was)
    && k < |was| + n && (k < |was| ==> !Live(was[k]))
    && Entries(d', inodes'[p]) == (was + FreeSlots(n))[k := s]
    && AbsOf(d', inodes') == AbsOf(d, inodes)[p := DirNode(NameMap(was)[s.name := s.ino])]
    && ViewOf(d', inodes') == ViewOf(d, inodes)[p := Entries(d', inodes'[p])]
  }

  /** Blocks may have been marked, but no inode and no block in use changed. */
  ghost predicate Unchanged(d: seq<Block>, inodes: seq<Inode>, d': seq<Block>, inodes': seq<Inode>) {
    inodes' == inodes && Undisturbed(d, d', inodes)
  }

  /** Taking the blocks `added` for directory `p` and then overwriting a block of
      it leaves every other inode alone. */
  lemma GrowThenWrite(sup: Super, d0: seq<Block>, d1: seq<Block>, inodes: seq<Inode>, p: nat, dir: Inode,
                      added: seq<nat>, b: nat, blk: Block)
    requires Store(sup, d0, inodes) && Took(sup, d0, d1, added) && p < |inodes|
    requires Shaped(dir) && Blocks(dir) == Blocks(inodes[p]) + added && b < |Blocks(dir)|
    ensures Holds(sup, Bits(sup, d1), Blocks(dir))
    ensures Within(Blocks(inodes[p]), 0, |d0|) && SameOn(d0, d1, Blocks(inodes[p]))
    ensures Store(sup, d1[Blocks(dir)[b] := blk], inodes[p := dir])
    ensures OthersSame(d0, d1[Blocks(dir)[b] := blk], inodes, p)
  {
    TookUndisturbed(sup, d0, d1, added, inodes);
    OwnedGrow(sup, d0, d1, added, inodes, p, dir);
    var grown := inodes[p := dir];
    assert Holds(sup, Bits(sup, d1), Blocks(grown[p]));
    var d2 := d1[Blocks(dir)[b] := blk];
    OwnedWrite(sup, d1, grown, p, b, blk, dir);
    assert grown[p := dir] == grown;
    forall i | 0 <= i < |inodes| && i != p
      ensures Within(Blocks(inodes[i]), 0, |d0|) && SameOn(d0, d2, Blocks(inodes[i]))
    {
      assert grown[i] == inodes[i];
      assert SameOn(d0, d1, Blocks(inodes[i])) && SameOn(d1, d2, Blocks(inodes[i]));
    }
  }

  /** Taking the blocks `added` since disk `d0` was current, directory `p` becomes
      `dir`, and slot `j` of its logical block `b` a new entry. */
  ghost predicate Insertable(sup: Super, d0: seq<Block>, d1: seq<Block>, inodes: seq<Inode>, p: nat, dir: Inode,
                             added: seq<nat>, b: nat, j: nat, s: DirSlot) {
    && Store(sup, d0, inodes) && Took(sup, d0, d1, added) && p < |inodes| && inodes[p].kind.Dir?
    && dir == inodes[p].(extents := dir.extents, size := dir.size)
    && Shaped(dir) && Blocks(dir) == Blocks(inodes[p]) + added
    && b < |Blocks(dir)| && j < 16 && Storable(s) && Live(s)
    && UniqueNames(Entries(d0, inodes[p])) && s.name !in NameMap(Entries(d0, inodes[p]))
    && (16 * b + j < |Entries(d0, inodes[p])| ==> !Live(Entries(d0, inodes[p])[16 * b + j]))
  }

  /** The slots of a directory that grew by zero-filled blocks and had one slot
      overwritten. */
  lemma GrownThenSet(sup: Super, d0: seq<Block>, d1: seq<Block>, phys: seq<nat>, added: seq<nat>, b: nat, j: nat,
                     s: DirSlot)
    requires Took(sup, d0, d1, added)
    requires Within(phys, 0, |d0|) && SameOn(d0, d1, phys) && Within(phys + added, 0, |d1|) && NoDup(phys + added)
    requires b < |phys + added| && j < 16 && Storable(s)
    ensures var x := (phys + added)[b];
            Slots(d1[x := WithSlot(d1[x], j, s)], phys + added) ==
            (Slots(d0, phys) + FreeSlots(16 * |added|))[16 * b + j := s]
  {
    forall i | 0 <= i < |added| ensures 0 <= added[i] < |d1| && d1[added[i]] == ZeroBlock() {
      assert added[i] in added;
    }
    SlotsGrown(d0, d1, phys, added);
    SlotsUpdated(d1, phys + added, b, j, s);
  }

  lemma InsertedNames(was: seq<DirSlot>, n: nat, k: nat, s: DirSlot)
    requires UniqueNames(was) && Live(s) && s.name !in NameMap(was) && k < |was| + n && (k < |was| ==> !Live(was[k]))
    ensures NameMap((was + FreeSlots(n))[k := s]) == NameMap(was)[s.name := s.ino]
    ensures UniqueNames((was + FreeSlots(n))[k := s])
  {
    NameMapGrow(was, n);
    NameMapAdd(was + FreeSlots(n), k, s);
  }

  lemma DirInsertStore(sup: Super, d0: seq<Block>, d1: seq<Block>, inodes: seq<Inode>, p: nat, dir: Inode,
                       added: seq<nat>, b: nat, j: nat, s: DirSlot)
    requires Insertable(sup, d0, d1, inodes, p, dir, added, b, j, s)
    ensures Within(Blocks(dir), 0, |d1|) && |Entries(d0, inodes[p])| == 16 * |Blocks(inodes[p])|
    ensures var x := Blocks(dir)[b];
            && Store(sup, d1[x := WithSlot(d1[x], j, s)], inodes[p := dir])
            && Entries(d1[x := WithSlot(d1[x], j, s)], dir) ==
               (Entries(d0, inodes[p]) + FreeSlots(16 * |added|))[16 * b + j := s]
            && OthersSame(d0, d1[x := WithSlot(d1[x], j, s)], inodes, p)
  {
    OwnedGrow(sup, d0, d1, added, inodes, p, dir);
    assert Holds(sup, Bits(sup, d1), Blocks(inodes[p := dir][p]));
    var blk := WithSlot(d1[Blocks(dir)[b]], j, s);
    GrowThenWrite(sup, d0, d1, inodes, p, dir, added, b, blk);
    GrownThenSet(sup, d0, d1, Blocks(inodes[p]), added, b, j, s);
  }

  lemma DirInsert(sup: Super, d0: seq<Block>, d1: seq<Block>, inodes: seq<Inode>, p: nat, dir: Inode, added: seq<nat>,
                  b: nat, j: nat, s: DirSlot)
    requires Insertable(sup, d0, d1, inodes, p, dir, added, b, j, s)
    ensures Within(Blocks(dir), 0, |d1|)
    ensures var d2 := d1[Blocks(dir)[b] := WithSlot(d1[Blocks(dir)[b]], j, s)];
            && Store(sup, d2, inodes[p := dir])
            && EntryAdded(d0, inodes, d2, inodes[p := dir], p, s, 16 * b + j, 16 * |added|)
  {
    DirInsertStore(sup, d0, d1, inodes, p, dir, added, b, j, s);
    AbsStep(d0, d1[Blocks(dir)[b] := WithSlot(d1[Blocks(dir)[b]], j, s)], inodes, p, dir);
    InsertedNames(Entries(d0, inodes[p]), 16 * |added|, 16 * b + j, s);
  }

  /** Writes an entry into its block and the directory's inode to the table. */
  method WriteEntry(vol: Volume, p: nat, dir: Inode, b: nat, j: nat, s: DirSlot, ghost d0: seq<Block>,
                    ghost added: seq<nat>)
    requires Insertable(vol.sup, d0, vol.disk, vol.inodes, p, dir, added, b, j, s)
    modifies vol
    ensures Store(vol.sup, vol.disk, vol.inodes) && p < |vol.inodes| && vol.inodes[p] == dir
    ensures vol.inodes == old(vol.inodes)[p := dir] && Bits(vol.sup, vol.disk) == Bits(vol.sup, old(vol.disk))
    ensures EntryAdded(d0, old(vol.inodes), vol.disk, vol.inodes, p, s, 16 * b + j, 16 * |added|)
    ensures Stray(vol) == Strays(vol.sup, d0, old(vol.inodes))
  {
    StraysGrow(vol.sup, d0, vol.disk, added, vol.inodes, p, dir);
    DirInsert(vol.sup, d0, vol.disk, vol.inodes, p, dir, added, b, j, s);
    var phys := LogicalToPhysical(dir.extents, b);
    InsertedInData(vol.sup, d0, vol.disk, vol.inodes, p, dir, added, b, j, s);
    BitsKept(vol.sup, vol.disk, vol.disk[phys := WithSlot(vol.disk[phys], j, s)]);
    vol.disk := vol.disk[phys := WithSlot(vol.disk[phys], j, s)];
    vol.inodes := vol.inodes[p := dir];
  }

  lemma InsertedInData(sup: Super, d0: seq<Block>, d1: seq<Block>, inodes: seq<Inode>, p: nat, dir: Inode,
                       added: seq<nat>, b: nat, j: nat, s: DirSlot)
    requires Insertable(sup, d0, d1, inodes, p, dir, added, b, j, s)
    ensures Blocks(dir)[b] >= sup.dataStart
  {
    assert Holds(sup, Bits(sup, d0), Blocks(inodes[p]));
    if b >= |Blocks(inodes[p])| {
      assert Blocks(dir)[b] in added;
    }
  }

  /** Whether `name` can be added: not empty, at most 27 bytes, not taken. */
  method DirAccepts(vol: Volume, dir: Inode, name: Name) returns (ok: bool)
    requires dir.used && dir.kind.Dir? && Within(Blocks(dir), 0, |vol.disk|) && UniqueNames(Entries(vol.disk, dir))
    ensures ok <==> 0 < |name| <= 27 && name !in NameMap(Entries(vol.disk, dir))
  {
    if name == [] || |name| > 27 {
      return false;
    }
    FoundIsMapped(Entries(vol.disk, dir), name);
    var found, _, _, _ := FindDirEntrySlot(vol, dir.extents, name, false);
    return !found;
  }

  /** Checks the name and finds a slot for it, growing the directory if need be. */
  method DirPrepare(vol: Volume, p: nat, dir: Inode, name: Name, child: nat)
    returns (ok: bool, dir': Inode, block: nat, slot: nat, ghost added: seq<nat>)
    requires Store(vol.sup, vol.disk, vol.inodes) && p < |vol.inodes| && vol.inodes[p] == dir && dir.kind.Dir?
    requires 0 !in name && child < |vol.inodes| && UniqueNames(Entries(vol.disk, dir))
    modifies vol`disk
    ensures OnDisk(vol.sup, vol.disk)
    ensures !ok ==> Store(vol.sup, vol.disk, vol.inodes) && Undisturbed(old(vol.disk), vol.disk, vol.inodes)
    ensures Outcome(vol.sup, old(vol.disk), dir, name, ok, Bits(vol.sup, vol.disk), dir')
    ensures !ok ==>
      Spilled(old(Stray(vol)), Stray(vol), AddSpills(vol.sup, Bits(vol.sup, old(vol.disk)), Entries(old(vol.disk), dir),
                                                     dir.extents, name))
    ensures ok ==>
      Insertable(vol.sup, old(vol.disk), vol.disk, vol.inodes, p, dir', added, block, slot, DirSlot(child, name))
  {
    dir', block, slot, added := dir, 0, 0, [];
    assert Holds(vol.sup, Bits(vol.sup, vol.disk), Blocks(vol.inodes[p])) && Shaped(vol.inodes[p]);
    ok := DirAccepts(vol, dir, name);
    if !ok {
      UndisturbedSame(vol.sup, vol.disk, vol.inodes);
      return;
    }
    ok, dir', block, slot, added := DirFindFreeSlot(vol, dir);
    ghost var found := dir';
    var blocks := BlockCount(dir'.extents);
    FoundOutcome(vol.sup, old(vol.disk), dir, name, ok, Bits(vol.sup, vol.disk), found, blocks * 512);
    if !ok {
      TookUndisturbed(vol.sup, old(vol.disk), vol.disk, added, vol.inodes);
      StraysMore(vol.sup, old(vol.disk), vol.disk, added, vol.inodes);
      return;
    }
    FoundInsertable(vol.sup, old(vol.disk), vol.disk, vol.inodes, p, dir', added, block, slot, DirSlot(child, name));
    dir' := dir'.(size := blocks * 512);
  }

  lemma FoundOutcome(sup: Super, d: seq<Block>, dir: Inode, name: Name, ok: bool, bits': seq<bool>, dir': Inode,
                     size: nat)
    requires OnDisk(sup, d) && dir.kind.Dir? && Within(Blocks(dir), 0, |d|) && NameFits(Entries(d, dir), name)
    requires ok <==> HasRoom(sup, Bits(sup, d), Slots(d, Blocks(dir)), dir.extents)
    requires Entered(sup, Bits(sup, d), OutlineOf(dir), FullDir(Slots(d, Blocks(dir))), ok, bits', OutlineOf(dir'))
    ensures Outcome(sup, d, dir, name, ok, bits', dir') && Outcome(sup, d, dir, name, ok, bits', dir'.(size := size))
  {
    assert OutlineOf(dir'.(size := size)) == OutlineOf(dir');
  }

  /** The slot found is one an entry can go into. */
  lemma FoundInsertable(sup: Super, d0: seq<Block>, d1: seq<Block>, inodes: seq<Inode>, p: nat, dir: Inode,
                        added: seq<nat>, b: nat, j: nat, s: DirSlot)
    requires Store(sup, d0, inodes) && Took(sup, d0, d1, added) && p < |inodes| && inodes[p].kind.Dir?
    requires dir == inodes[p].(extents := dir.extents) && Shaped(dir) && Blocks(dir) == Blocks(inodes[p]) + added
    requires b < |Blocks(dir)| && j < 16 && Storable(s) && Live(s) && Within(Blocks(inodes[p]), 0, |d0|)
    requires UniqueNames(Entries(d0, inodes[p])) && s.name !in NameMap(Entries(d0, inodes[p]))
    requires added == [] ==> FirstMatch(Slots(d0, Blocks(inodes[p])), [], true, 16 * b + j)
    requires added != [] ==> b == |Blocks(inodes[p])|
    ensures forall size :: Insertable(sup, d0, d1, inodes, p, dir.(size := size), added, b, j, s)
  {}

  /** Adds an entry unless the name is empty, too long or taken, or there is no
      room for it. */
  method DirAddEntry(vol: Volume, p: nat, dir: Inode, name: Name, child: nat)
    returns (ok: bool, dir': Inode, ghost k: nat, ghost n: nat)
    requires Store(vol.sup, vol.disk, vol.inodes) && p < |vol.inodes| && vol.inodes[p] == dir && dir.kind.Dir?
    requires 0 !in name && child < |vol.inodes| && UniqueNames(Entries(vol.disk, dir))
    modifies vol
    ensures Store(vol.sup, vol.disk, vol.inodes) && |vol.inodes| == |old(vol.inodes)|
    ensures !ok ==> Unchanged(old(vol.disk), old(vol.inodes), vol.disk, vol.inodes) && dir' == dir
    ensures Outcome(vol.sup, old(vol.disk), dir, name, ok, Bits(vol.sup, vol.disk), dir')
    ensures Spilled(old(Stray(vol)), Stray(vol), AddSpills(vol.sup, Bits(vol.sup, old(vol.disk)),
                                                           Entries(old(vol.disk), dir), dir.extents, name))
    ensures ok ==> |name| <= 27 && dir' == vol.inodes[p]
    ensures ok ==> EntryAdded(old(vol.disk), old(vol.inodes), vol.disk, vol.inodes, p, DirSlot(child, name), k, n)
  {
    var block, slot;
    ghost var added;
    ok, dir', block, slot, added := DirPrepare(vol, p, dir, name, child);
    k, n := 16 * block + slot, 16 * |added|;
    if !ok {
      dir' := dir;
      return;
    }
    WriteEntry(vol, p, dir', block, slot, DirSlot(child, name), old(vol.disk), added);
  }

  /** The directory `p` lost the entry in slot `k`; nothing else changed. */
  ghost predicate EntryRemoved(d: seq<Block>, inodes: seq<Inode>, d': seq<Block>, inodes': seq<Inode>, p: nat,
                               name: Name, k: nat) {
    && p < |inodes| && |inodes'| == |inodes|
    && inodes' == inodes[p := inodes[p].(size := inodes'[p].size)]
    && var was := Entries(d, inodes[p]);
    && k < |was| && Live(was[k]) && was[k].name == name
    && Entries(d', inodes'[p]) == was[k := FREE_SLOT]
    && AbsOf(d', inodes') == AbsOf(d, inodes)[p := DirNode(NameMap(was) - {name})]
    && ViewOf(d', inodes') == ViewOf(d, inodes)[p := Entries(d', inodes'[p])]
  }

  lemma DirDelete(sup: Super, d: seq<Block>, inodes: seq<Inode>, p: nat, dir: Inode, b: nat, j: nat)
    requires Store(sup, d, inodes) && p < |inodes| && inodes[p].kind.Dir?
    requires dir == inodes[p].(size := dir.size)
    requires b < |Blocks(dir)| && j < 16 && UniqueNames(Entries(d, inodes[p]))
    requires 16 * b + j < |Entries(d, inodes[p])| && Live(Entries(d, inodes[p])[16 * b + j])
    ensures Within(Blocks(dir), 0, |d|)
    ensures var d2 := d[Blocks(dir)[b] := WithSlot(d[Blocks(dir)[b]], j, FREE_SLOT)];
            && Store(sup, d2, inodes[p := dir])
            && EntryRemoved(d, inodes, d2, inodes[p := dir], p, Entries(d, inodes[p])[16 * b + j].name, 16 * b + j)
  {
    DirDeleteStore(sup, d, inodes, p, dir, b, j);
    AbsStep(d, d[Blocks(dir)[b] := WithSlot(d[Blocks(dir)[b]], j, FREE_SLOT)], inodes, p, dir);
    NameMapRemove(Entries(d, inodes[p]), 16 * b + j);
  }

  /** Clearing a slot leaves all other inodes alone. */
  lemma DirDeleteStore(sup: Super, d: seq<Block>, inodes: seq<Inode>, p: nat, dir: Inode, b: nat, j: nat)
    requires Store(sup, d, inodes) && p < |inodes| && inodes[p].kind.Dir?
    requires dir == inodes[p].(size := dir.size) && b < |Blocks(dir)| && j < 16
    ensures Within(Blocks(dir), 0, |d|)
    ensures var d2 := d[Blocks(dir)[b] := WithSlot(d[Blocks(dir)[b]], j, FREE_SLOT)];
            && Store(sup, d2, inodes[p := dir]) && OthersSame(d, d2, inodes, p)
            && 16 * b + j < |Entries(d, inodes[p])| && Entries(d2, dir) ==
               Entries(d, inodes[p])[16 * b + j := FREE_SLOT]
  {
    assert Holds(sup, Bits(sup, d), Blocks(inodes[p]));
    TookNothing(sup, d);
    assert Blocks(dir) == Blocks(inodes[p]) + [];
    assert Shaped(inodes[p]);
    GrowThenWrite(sup, d, d, inodes, p, dir, [], b, WithSlot(d[Blocks(dir)[b]], j, FREE_SLOT));
    SlotsUpdated(d, Blocks(dir), b, j, FREE_SLOT);
  }

  /** Slot `j` of logical block `b` of the directory, which held `name`, was cleared. */
  ghost predicate SlotCleared(d: seq<Block>, dir: Inode, name: Name, d': seq<Block>, b: nat, j: nat) {
    && b < |Blocks(dir)| && j < 16 && Within(Blocks(dir), 0, |d|)
    && 16 * b + j < |Entries(d, dir)| && Live(Entries(d, dir)[16 * b + j]) && Entries(d, dir)[16 * b + j].name == name
    && d' == d[Blocks(dir)[b] := WithSlot(d[Blocks(dir)[b]], j, FREE_SLOT)]
  }

  /** Clears the slot of a name in the blocks of `dir` and writes `dir` to the inode table
      as number `p`, whatever stood there. */
  method DirRemoveEntry(vol: Volume, p: nat, dir: Inode, name: Name)
    returns (ok: bool, dir': Inode, ghost b: nat, ghost j: nat)
    requires OnDisk(vol.sup, vol.disk) && p < |vol.inodes| && dir.used && dir.kind.Dir?
    requires Within(Blocks(dir), 0, |vol.disk|) && name != [] && UniqueNames(Entries(vol.disk, dir))
    modifies vol
    ensures ok <==> name in NameMap(Entries(old(vol.disk), dir))
    ensures !ok ==> vol.disk == old(vol.disk) && vol.inodes == old(vol.inodes) && dir' == dir
    ensures ok ==> vol.inodes == old(vol.inodes)[p := dir'] && dir' == dir.(size := 512 * |Blocks(dir)|)
    ensures ok ==> SlotCleared(old(vol.disk), dir, name, vol.disk, b, j)
  {
    dir', b, j := dir, 0, 0;
    var found, _, block, slot := FindDirEntrySlot(vol, dir.extents, name, false);
    FoundIsMapped(Entries(vol.disk, dir), name);
    if !found {
      return false, dir, 0, 0;
    }
    var blocks := BlockCount(dir.extents);
    dir' := dir.(size := blocks * 512);
    var phys := LogicalToPhysical(dir.extents, block);
    vol.disk := vol.disk[phys := WithSlot(vol.disk[phys], slot, FREE_SLOT)];
    vol.inodes := vol.inodes[p := dir'];
    ok, b, j := true, block, slot;
  }

  /** What that means for a directory that is in the table. */
  lemma EntryCleared(sup: Super, d: seq<Block>, inodes: seq<Inode>, p: nat, name: Name, dir': Inode, d': seq<Block>,
                     b: nat, j: nat)
    requires Store(sup, d, inodes) && p < |inodes| && inodes[p].kind.Dir? && UniqueNames(Entries(d, inodes[p]))
    requires SlotCleared(d, inodes[p], name, d', b, j) && dir' == inodes[p].(size := dir'.size)
    ensures Store(sup, d', inodes[p := dir']) && EntryRemoved(d, inodes, d', inodes[p := dir'], p, name, 16 * b + j)
    ensures Bits(sup, d') == Bits(sup, d) && Strays(sup, d', inodes[p := dir']) == Strays(sup, d, inodes)
  {
    assert Holds(sup, Bits(sup, d), Blocks(inodes[p])) && Shaped(inodes[p]);
    assert Blocks(dir') == Blocks(inodes[p]);
    DirDelete(sup, d, inodes, p, dir', b, j);
    BitsKept(sup, d, d');
    StraysSame(sup, d, d', inodes, p, dir');
  }

  // ----- enumeration -----

  /** The entries among the first `n` slots, in slot order. */
  ghost function LiveSlots(slots: seq<DirSlot>, n: nat): (r: seq<DirSlot>)
    requires n <= |slots|
    ensures |r| <= n
    ensures forall i :: 0 <= i < |r| ==> Live(r[i]) && r[i] in slots[..n]
  {
    if n == 0 then []
    else if Live(slots[n - 1]) then LiveSlots(slots, n - 1) + [slots[n - 1]]
    else LiveSlots(slots, n - 1)
  }

  ghost predicate DistinctNames(r: seq<DirSlot>) {
    forall i, j {:trigger Differ(r[i], r[j])} :: 0 <= i < j < |r| ==> r[i].name != r[j].name
  }

  lemma EarlierDiffer(slots: seq<DirSlot>, n: nat, i: nat)
    requires UniqueNames(slots) && n < |slots| && Live(slots[n]) && i < |LiveSlots(slots, n)|
    ensures LiveSlots(slots, n)[i].name != slots[n].name
  {
    var k :| 0 <= k < n && slots[..n][k] == LiveSlots(slots, n)[i];
    assert Live(slots[k]);
  }

  /** Enumeration meets every entry of the directory exactly once. */
  lemma {:induction false} LiveSlotsExact(slots: seq<DirSlot>, n: nat)
    requires UniqueNames(slots) && n <= |slots|
    ensures forall k {:trigger Live(slots[k])} :: 0 <= k < n && Live(slots[k]) ==> slots[k] in LiveSlots(slots, n)
    ensures DistinctNames(LiveSlots(slots, n))
  {
    if n > 0 {
      LiveSlotsExact(slots, n - 1);
      var prev, all := LiveSlots(slots, n - 1), LiveSlots(slots, n);
      assert Live(slots[n - 1]) ==> all[|prev|] == slots[n - 1];
      forall i, j | 0 <= i < j < |all| ensures all[i].name != all[j].name {
        if j < |prev| {
          assert Differ(prev[i], prev[j]);
        } else {
          EarlierDiffer(slots, n - 1, i);
        }
      }
    }
  }

  /** Reads the entries of one directory block into a listing of limited size. */
  method ListBlock(vol: Volume, es: seq<Extent>, block: nat, max: nat, entries0: seq<DirSlot>, total0: nat)
    returns (entries: seq<DirSlot>, total: nat)
    requires Within(Phys(es), 0, |vol.disk|) && block < |Phys(es)|
    requires Listed(Slots(vol.disk, Phys(es)), 16 * block, max, entries0, total0)
    ensures Listed(Slots(vol.disk, Phys(es)), 16 * block + 16, max, entries, total)
  {
    ghost var slots := Slots(vol.disk, Phys(es));
    entries, total := entries0, total0;
    var phys := LogicalToPhysical(es, block);
    for i := 0 to 16
      invariant Listed(slots, 16 * block + i, max, entries, total)
    {
      SlotInBlock(vol.disk, Phys(es), block, i);
      entries, total := ListSlot(SlotAt(vol.disk[phys], i), max, entries, total, slots, 16 * block + i);
    }
  }

  /** One more slot of the listing. */
  method ListSlot(s: DirSlot, max: nat, entries0: seq<DirSlot>, total0: nat, ghost slots: seq<DirSlot>, ghost n: nat)
    returns (entries: seq<DirSlot>, total: nat)
    requires Listed(slots, n, max, entries0, total0) && n < |slots| && slots[n] == s
    ensures Listed(slots, n + 1, max, entries, total)
  {
    entries, total := entries0, total0;
    ListedNext(slots, n, max, entries, total);
    if s.name != [] {
      if total < max {
        entries := entries + [s];
      }
      total := total + 1;
    }
  }

  ghost predicate Listed(slots: seq<DirSlot>, n: nat, max: nat, entries: seq<DirSlot>, total: nat) {
    n <= |slots| && total == |LiveSlots(slots, n)| && entries == LiveSlots(slots, n)[..Min(max, total)]
  }

  lemma ListedNext(slots: seq<DirSlot>, n: nat, max: nat, entries: seq<DirSlot>, total: nat)
    requires Listed(slots, n, max, entries, total) && n < |slots|
    ensures if Live(slots[n])
            then Listed(slots, n + 1, max, if total < max then entries + [slots[n]] else entries, total + 1)
            else Listed(slots, n + 1, max, entries, total)
  {}

  /** Lists the first `max` entries and counts all of them. */
  method ListDir(vol: Volume, dir: Inode, max: nat) returns (entries: seq<DirSlot>, total: nat)
    requires dir.used && Within(Blocks(dir), 0, |vol.disk|)
    ensures Listed(Slots(vol.disk, Blocks(dir)), |Slots(vol.disk, Blocks(dir))|, max, entries, total)
  {
    entries, total := [], 0;
    var blocks := BlockCount(dir.extents);
    for block := 0 to blocks
      invariant Listed(Slots(vol.disk, Blocks(dir)), 16 * block, max, entries, total)
    {
      entries, total := ListBlock(vol, dir.extents, block, max, entries, total);
    }
  }

  /** The entry number `index` of a directory. */
  method GetDirEntry(vol: Volume, dir: Inode, index: nat) returns (found: bool, entry: DirSlot)
    requires dir.used && Within(Blocks(dir), 0, |vol.disk|)
    ensures var all := LiveSlots(Slots(vol.disk, Blocks(dir)), |Slots(vol.disk, Blocks(dir))|);
            (found <==> index < |all|) && (found ==> entry == all[index])
  {
    entry := FREE_SLOT;
    ghost var slots := Slots(vol.disk, Blocks(dir));
    var total := 0;
    var blocks := BlockCount(dir.extents);
    for block := 0 to blocks
      invariant total == |LiveSlots(slots, 16 * block)| <= index
    {
      found, entry, total := GetInBlock(vol, dir.extents, block, index, total);
      if found {
        return;
      }
    }
    found := false;
  }

  method GetInBlock(vol: Volume, es: seq<Extent>, block: nat, index: nat, total0: nat)
    returns (found: bool, entry: DirSlot, total: nat)
    requires Within(Phys(es), 0, |vol.disk|) && block < |Phys(es)|
    requires total0 == |LiveSlots(Slots(vol.disk, Phys(es)), 16 * block)| <= index
    ensures var slots := Slots(vol.disk, Phys(es));
            if found
            then index < |LiveSlots(slots, |slots|)| && entry == LiveSlots(slots, |slots|)[index]
            else total == |LiveSlots(slots, 16 * block + 16)| <= index
  {
    ghost var slots := Slots(vol.disk, Phys(es));
    total := total0;
    var phys := LogicalToPhysical(es, block);
    for i := 0 to 16
      invariant total == |LiveSlots(slots, 16 * block + i)| <= index
    {
      SlotInBlock(vol.disk, Phys(es), block, i);
      entry := SlotAt(vol.disk[phys], i);
      if entry.name == [] {
        continue;
      }
      if total == index {
        LiveSlotsPrefix(slots, 16 * block + i + 1, |slots|);
        return true, entry, total;
      }
      total := total + 1;
    }
    return false, FREE_SLOT, total;
  }

  lemma {:induction false} LiveSlotsPrefix(slots: seq<DirSlot>, m: nat, n: nat)
    requires m <= n <= |slots|
    ensures LiveSlots(slots, m) <= LiveSlots(slots, n)
    decreases n
  {
    if m < n {
      LiveSlotsPrefix(slots, m, n - 1);
    }
  }

  /** Tests whether a directory holds only "." and ".." by looking at its first
      sixteen entries. */
  method DirIsEmpty(vol: Volume, dir: Inode) returns (empty: bool)
    requires dir.used && dir.kind.Dir? && Within(Blocks(dir), 0, |vol.disk|)
    requires UniqueNames(Entries(vol.disk, dir))
    ensures empty <==> NameMap(Entries(vol.disk, dir)).Keys <= {DOT, DOTDOT}
  {
    var entries, count := ListDir(vol, dir, 16);
    var i := 0;
    while i < count && i < 16 && (entries[i].name == DOT || entries[i].name == DOTDOT)
      invariant i <= count && i <= 16
      invariant forall j :: 0 <= j < i ==> IsDot(entries[j].name)
    {
      i := i + 1;
    }
    OnlyDots(Slots(vol.disk, Blocks(dir)), entries, count, i);
    return i == count || i == 16;
  }

  lemma OnlyDots(slots: seq<DirSlot>, entries: seq<DirSlot>, count: nat, i: nat)
    requires UniqueNames(slots) && Listed(slots, |slots|, 16, entries, count)
    requires i <= |entries| && (forall j :: 0 <= j < i ==> IsDot(entries[j].name))
    requires i < |entries| ==> !IsDot(entries[i].name)
    ensures i == |entries| <==> NameMap(slots).Keys <= {DOT, DOTDOT}
  {
    if i < |entries| {
      ListedIsMapped(slots, i);
      assert entries[i] == LiveSlots(slots, |slots|)[i];
    } else {
      AtMostTwoDots(slots, i);
    }
  }

  lemma ListedIsMapped(slots: seq<DirSlot>, i: nat)
    requires UniqueNames(slots) && i < |LiveSlots(slots, |slots|)|
    ensures LiveSlots(slots, |slots|)[i].name in NameMap(slots)
  {
    var s := LiveSlots(slots, |slots|)[i];
    assert s in slots[..|slots|];
    var k :| 0 <= k < |slots| && slots[k] == s;
    NameMapAt(slots, k);
  }

  lemma NoThreeDots(all: seq<DirSlot>)
    requires DistinctNames(all)
    ensures |all| > 2 ==> exists j :: 0 <= j <= 2 && !IsDot(all[j].name)
  {
    if |all| > 2 {
      var a, b, c := all[0].name, all[1].name, all[2].name;
      assert Differ(all[0], all[1]) && Differ(all[0], all[2]) && Differ(all[1], all[2]);
      assert !IsDot(a) || !IsDot(b) || !IsDot(c);
    }
  }

  /** If the first entries are all dots, there are at most two of them, so a
      listing of sixteen has seen everything. */
  lemma AtMostTwoDots(slots: seq<DirSlot>, n: nat)
    requires UniqueNames(slots) && n == Min(16, |LiveSlots(slots, |slots|)|)
    requires forall j :: 0 <= j < n ==> IsDot(LiveSlots(slots, |slots|)[j].name)
    ensures NameMap(slots).Keys <= {DOT, DOTDOT}
  {
    var all := LiveSlots(slots, |slots|);
    LiveSlotsExact(slots, |slots|);
    assert |all| <= 2 by {
      NoThreeDots(all);
    }
    forall name | name in NameMap(slots) ensures IsDot(name) {
      assert Maps(NameMap(slots), name);
      var k :| 0 <= k < |slots| && Live(slots[k]) && slots[k].name == name;
      assert slots[k] in all;
    }
  }
}
