/** Creating an entry in a FAT32 directory on disk (fs/fat32_dir.c): the new entries may
    cross sectors and clusters, and the directory may grow by one cluster. */
module FatCreate {
  import opened Bitmap
  import opened Bytes
  import opened Extents
  import opened Contents
  import opened FatTable
  import opened FatChains
  import opened FatFiles
  import opened FatWrite
  import opened FatNames
  import opened FatDirs
  import opened FatAlias
  import opened FatEntries

  // ----- the entries of a directory -----

  function EntryIn(blk: Block, j: nat): Raw
    requires j < 16
  {
    blk[32 * j..32 * j + 32]
  }

  function WithEntry(blk: Block, j: nat, r: Raw): (b: Block)
    requires j < 16
  {
    blk[..32 * j] + r + blk[32 * j + 32..]
  }

  lemma EntryStored(blk: Block, j: nat, r: Raw, i: nat)
    requires j < 16 && i < 16
    ensures EntryIn(WithEntry(blk, j, r), i) == if i == j then r else EntryIn(blk, i)
  {
    var b := WithEntry(blk, j, r);
    if i == j {
      assert b[32 * i..32 * i + 32] == r;
    } else {
      assert b[32 * i..32 * i + 32] == blk[32 * i..32 * i + 32];
    }
  }

  function EntryAt(disk: seq<Block>, phys: seq<nat>, k: nat): Raw {
    if k / 16 < |phys| && phys[k / 16] < |disk| then EntryIn(disk[phys[k / 16]], k % 16) else EmptyEntry()
  }

  ghost predicate IsEntries(disk: seq<Block>, phys: seq<nat>, dir: seq<Raw>) {
    |dir| == 16 * |phys| && forall k {:trigger EntryAt(disk, phys, k)} :: 0 <= k < |dir| ==>
      dir[k] == EntryAt(disk, phys, k)
  }

  /** The raw entries of a directory whose sectors are `phys`, in order. */
  ghost function Entries(disk: seq<Block>, phys: seq<nat>): (dir: seq<Raw>)
    ensures IsEntries(disk, phys, dir)
  {
    assert IsEntries(disk, phys, seq<Raw>(16 * |phys|, k requires 0 <= k => EntryAt(disk, phys, k)));
    var dir :| IsEntries(disk, phys, dir);
    dir
  }

  lemma EntriesKept(d: seq<Block>, d': seq<Block>, phys: seq<nat>)
    requires Within(phys, 0, |d|) && SameOn(d, d', phys)
    ensures Entries(d', phys) == Entries(d, phys)
  {
    forall k | 0 <= k < 16 * |phys| ensures Entries(d', phys)[k] == Entries(d, phys)[k] {
      assert EntryAt(d', phys, k) == EntryAt(d, phys, k);
    }
  }

  /** Overwriting one entry. */
  lemma EntriesUpdated(d: seq<Block>, phys: seq<nat>, k: nat, r: Raw)
    requires Within(phys, 0, |d|) && NoDup(phys) && k < 16 * |phys|
    ensures Entries(d[phys[k / 16] := WithEntry(d[phys[k / 16]], k % 16, r)], phys) == Entries(d, phys)[k := r]
  {
    var b := k / 16;
    var d' := d[phys[b] := WithEntry(d[phys[b]], k % 16, r)];
    forall i | 0 <= i < 16 * |phys| ensures Entries(d', phys)[i] == Entries(d, phys)[k := r][i] {
      assert Entries(d', phys)[i] == EntryAt(d', phys, i) && Entries(d, phys)[i] == EntryAt(d, phys, i);
      if i / 16 == b {
        EntryStored(d[phys[b]], k % 16, r, i % 16);
        assert i % 16 == k % 16 ==> i == k;
      } else {
        assert Differ(phys[Min(i / 16, b)], phys[Max(i / 16, b)]);
      }
    }
  }

  /** Zeroed sectors appended to a directory hold end marks. */
  lemma EntriesGrown(d: seq<Block>, d': seq<Block>, phys: seq<nat>, more: seq<nat>)
    requires Within(phys, 0, |d|) && SameOn(d, d', phys)
    requires Within(more, 0, |d'|) && forall i :: 0 <= i < |more| ==> d'[more[i]] == ZeroBlock()
    ensures Entries(d', phys + more) == Extended(Entries(d, phys), 16 * |more|)
  {
    var dir, dir', all := Entries(d, phys), Entries(d', phys + more), phys + more;
    forall k | 0 <= k < |dir'| ensures dir'[k] == if k < |dir| then dir[k] else EmptyEntry() {
      assert dir'[k] == EntryAt(d', all, k);
      if k < |dir| {
        assert dir[k] == EntryAt(d, phys, k);
        assert all[k / 16] == phys[k / 16];
      } else {
        assert all[k / 16] == more[k / 16 - |phys|];
        assert EntryIn(ZeroBlock(), k % 16) == EmptyEntry();
      }
    }
  }

  lemma ExtendedEnds(dir: seq<Raw>, n: nat)
    ensures var dir' := Extended(dir, n);
            |dir'| == |dir| + n && dir'[..|dir|] == dir && forall k :: |dir| <= k < |dir'| ==> IsEnd(dir'[k])
  {}

  lemma GrownWellFormed(dir: seq<Raw>, dir': seq<Raw>)
    requires WellFormed(dir) && |dir| <= |dir'| && dir'[..|dir|] == dir && forall k :: |dir| <= k < |dir'| ==>
      IsEnd(dir'[k])
    ensures WellFormed(dir')
  {
    forall i, j | 0 <= i < j < |dir'| && IsEnd(dir'[i]) ensures IsEnd(dir'[j]) {
      assert j < |dir| ==> dir'[i] == dir'[..|dir|][i] == dir[i] && dir'[j] == dir'[..|dir|][j] == dir[j];
      assert j < |dir| && IsEnd(dir[i]) ==> IsEnd(dir[j]);
    }
  }

  /** Growing a directory by end marks does not change what is found in it. */
  lemma {:induction false} GrownFind(dir: seq<Raw>, dir': seq<Raw>, i: nat, s: LfnState, name: seq<Byte>)
    requires |dir| <= |dir'| && dir'[..|dir|] == dir && forall k :: |dir| <= k < |dir'| ==> IsEnd(dir'[k])
    requires i <= |dir| && |s.name| == NAME_SIZE
    ensures FindFrom(dir', i, s, name) == FindFrom(dir, i, s, name)
    decreases |dir| - i
  {
    if i < |dir| {
      assert dir'[i] == dir'[..|dir|][i] == dir[i];
      GrownFind(dir, dir', i + 1, After(s, dir[i]), name);
    }
  }

  // ----- traversal -----

  /** Reads all entries of a directory, cluster by cluster and sector by sector. */
  method ReadDirectory(vol: FatVolume, first: nat, ghost chains: set<seq<nat>>, ghost ch: seq<nat>)
    returns (dir: seq<Raw>)
    requires Sound(vol, chains) && ch in chains && ch != [] && first == ch[0]
    modifies vol`cacheValid, vol`cacheLba, vol`cache
    ensures Sound(vol, chains) && dir == Entries(vol.disk, Sectors(vol.geo, ch))
  {
    ghost var g, f := vol.geo, Fat(vol.geo, vol.disk);
    ghost var phys := Sectors(g, ch);
    ChainData(g, f, chains, ch);
    EntryFits(g, vol.disk);
    BaseEnds(g, ch);
    dir := [];
    var cluster := first;
    ghost var i := 0;
    while true
      invariant vol.Valid() && i < |ch| && cluster == ch[i] && |dir| == 16 * Base(g, ch, i)
      invariant forall k {:trigger EntryAt(vol.disk, phys, k)} :: 0 <= k < |dir| ==>
        dir[k] == EntryAt(vol.disk, phys, k)
      decreases |ch| - i
    {
      ClusterIsAt(g, ch, i);
      dir := ReadClusterEntries(vol, phys, Base(g, ch, i), cluster, dir);
      ChainStep(g, f, ch, i);
      var read, next := vol.NextCluster(cluster);
      if next >= END {
        EntriesAre(vol.disk, phys, dir);
        return;
      }
      cluster, i := next, i + 1;
    }
  }

  /** An end mark is met exactly at the last cluster of a chain. */
  lemma ChainStep(g: Geo, f: seq<nat>, ch: seq<nat>, i: nat)
    requires IsChain(f, ch) && AllData(g, ch) && |f| == g.clusters + 2 <= END && i < |ch|
    ensures IsData(g, ch[i]) && (f[ch[i]] >= END <==> i + 1 == |ch|) && (i + 1 < |ch| ==> f[ch[i]] == ch[i + 1])
  {
    assert Follows(f, ch, i) && IsData(g, ch[i]) && (i + 1 < |ch| ==> IsData(g, ch[i + 1]));
  }

  lemma EntriesAre(disk: seq<Block>, phys: seq<nat>, dir: seq<Raw>)
    requires |dir| == 16 * |phys|
    requires forall k {:trigger EntryAt(disk, phys, k)} :: 0 <= k < |dir| ==> dir[k] == EntryAt(disk, phys, k)
    ensures dir == Entries(disk, phys)
  {
    forall k | 0 <= k < |dir| ensures dir[k] == Entries(disk, phys)[k] {
      assert Entries(disk, phys)[k] == EntryAt(disk, phys, k);
    }
  }

  method ReadClusterEntries(vol: FatVolume, ghost phys: seq<nat>, ghost base: nat, cluster: nat, dir0: seq<Raw>)
    returns (dir: seq<Raw>)
    requires vol.Valid() && ClusterAt(vol.geo, phys, base, cluster) && |dir0| == 16 * base
    requires forall k {:trigger EntryAt(vol.disk, phys, k)} :: 0 <= k < |dir0| ==> dir0[k] == EntryAt(vol.disk, phys, k)
    ensures |dir| == 16 * (base + vol.geo.spc)
    ensures forall k {:trigger EntryAt(vol.disk, phys, k)} :: 0 <= k < |dir| ==> dir[k] == EntryAt(vol.disk, phys, k)
  {
    dir := dir0;
    LbaInVolume(vol.geo, cluster);
    for sec := 0 to vol.geo.spc
      invariant |dir| == 16 * (base + sec)
      invariant forall k {:trigger EntryAt(vol.disk, phys, k)} :: 0 <= k < |dir| ==>
        dir[k] == EntryAt(vol.disk, phys, k)
    {
      var blk := vol.disk[Lba(vol.geo, cluster) + sec];
      assert phys[base + sec] == Lba(vol.geo, cluster) + sec;
      for j := 0 to 16
        invariant |dir| == 16 * (base + sec) + j
        invariant forall k {:trigger EntryAt(vol.disk, phys, k)} :: 0 <= k < |dir| ==>
          dir[k] == EntryAt(vol.disk, phys, k)
      {
        assert (16 * (base + sec) + j) / 16 == base + sec && (16 * (base + sec) + j) % 16 == j;
        dir := dir + [EntryIn(blk, j)];
      }
    }
  }

  /** The sector and offset of a raw entry, by walking the chain. */
  method RawEntryPosition(vol: FatVolume, first: nat, index: nat, ghost chains: set<seq<nat>>, ghost ch: seq<nat>)
    returns (ok: bool, lba: nat, offset: nat)
    requires Sound(vol, chains) && ch in chains && ch != [] && first == ch[0]
    modifies vol`cacheValid, vol`cacheLba, vol`cache
    ensures Sound(vol, chains) && (ok <==> index < 16 * |Sectors(vol.geo, ch)|)
    ensures ok ==> lba == Sectors(vol.geo, ch)[index / 16] && offset == 32 * (index % 16)
  {
    ghost var g, f := vol.geo, Fat(vol.geo, vol.disk);
    ChainData(g, f, chains, ch);
    BaseEnds(g, ch);
    var cluster, current := first, 0;
    ghost var i := 0;
    while true
      invariant vol.Valid() && i < |ch| && cluster == ch[i] && current == 16 * Base(g, ch, i) <= index
      decreases |ch| - i
    {
      ClusterIsAt(g, ch, i);
      ok, lba, offset, current := FindInCluster(vol, Sectors(g, ch), Base(g, ch, i), cluster, index, current);
      if ok {
        return;
      }
      ChainStep(g, f, ch, i);
      var read, next := vol.NextCluster(cluster);
      if next >= END {
        return false, 0, 0;
      }
      cluster, i := next, i + 1;
    }
  }

  method FindInCluster(vol: FatVolume, ghost phys: seq<nat>, ghost base: nat, cluster: nat, index: nat, current0: nat)
    returns (ok: bool, lba: nat, offset: nat, current: nat)
    requires ClusterAt(vol.geo, phys, base, cluster) && current0 == 16 * base <= index
    ensures ok <==> index < 16 * (base + vol.geo.spc)
    ensures ok ==> lba == phys[index / 16] && offset == 32 * (index % 16)
    ensures !ok ==> current == 16 * (base + vol.geo.spc)
  {
    lba, offset, current := 0, 0, current0;
    for sec := 0 to vol.geo.spc
      invariant current == 16 * (base + sec) <= index
    {
      for i := 0 to 16
        invariant current == 16 * (base + sec) + i <= index
      {
        if current == index {
          assert phys[base + sec] == Lba(vol.geo, cluster) + sec && index / 16 == base + sec;
          return true, Lba(vol.geo, cluster) + sec, 32 * i, current;
        }
        current := current + 1;
      }
    }
    ok := false;
  }

  /** Overwrites raw entry `k` of a directory. */
  method WriteEntryAt(vol: FatVolume, first: nat, k: nat, r: Raw, ghost chains: set<seq<nat>>, ghost ch: seq<nat>)
    requires Sound(vol, chains) && ch in chains && ch != [] && first == ch[0] && k < 16 * |Sectors(vol.geo, ch)|
    modifies vol
    ensures Sound(vol, chains) && OwnOnly(vol.geo, old(vol.disk), vol.disk, Sectors(vol.geo, ch))
    ensures Entries(vol.disk, Sectors(vol.geo, ch)) == Entries(old(vol.disk), Sectors(vol.geo, ch))[k := r]
    ensures FreeClusters(vol.geo, vol.disk) == FreeClusters(vol.geo, old(vol.disk))
  {
    var ok, lba, offset := RawEntryPosition(vol, first, k, chains, ch);
    ghost var phys := Sectors(vol.geo, ch);
    ChainData(vol.geo, Fat(vol.geo, vol.disk), chains, ch);
    SectorsIn(vol.geo, ch);
    SectorsDistinct(vol.geo, ch);
    EntriesUpdated(vol.disk, phys, k, r);
    assert lba in phys && offset / 32 == k % 16;
    ghost var d := vol.disk;
    var written := vol.WriteSector(lba, WithEntry(vol.disk[lba], offset / 32, r));
    WritingKept(vol.geo, d, vol.disk, chains);
    FatKept(vol.geo, d, vol.disk);
  }

  // ----- creating an entry -----

  /** The first `n` of the new entries have been written. */
  ghost predicate PartlyCreated(dir: seq<Raw>, now: seq<Raw>, at: nat, entries: seq<Raw>, n: nat) {
    && |now| == |dir| && at + |entries| <= |dir| && n <= |entries|
    && forall i {:trigger now[i]} :: 0 <= i < |dir| ==> now[i] == if at <= i < at + n then entries[i - at] else dir[i]
  }

  /** Writes entries into a row of places, one at a time. */
  method WriteEntries(vol: FatVolume, first: nat, at: nat, entries: seq<Raw>, ghost chains: set<seq<nat>>,
                      ghost ch: seq<nat>)
    requires Sound(vol, chains) && ch in chains && ch != [] && first == ch[0]
    requires at + |entries| <= 16 * |Sectors(vol.geo, ch)|
    modifies vol
    ensures Sound(vol, chains) && OwnOnly(vol.geo, old(vol.disk), vol.disk, Sectors(vol.geo, ch))
    ensures var phys := Sectors(vol.geo, ch);
      PartlyCreated(Entries(old(vol.disk), phys), Entries(vol.disk, phys), at, entries, |entries|)
    ensures FreeClusters(vol.geo, vol.disk) == FreeClusters(vol.geo, old(vol.disk))
  {
    ghost var phys := Sectors(vol.geo, ch);
    ghost var dir := Entries(vol.disk, phys);
    for i := 0 to |entries|
      invariant Sound(vol, chains) && OwnOnly(vol.geo, old(vol.disk), vol.disk, phys)
      invariant PartlyCreated(dir, Entries(vol.disk, phys), at, entries, i)
      invariant FreeClusters(vol.geo, vol.disk) == FreeClusters(vol.geo, old(vol.disk))
    {
      ghost var before, was := vol.disk, Entries(vol.disk, phys);
      WriteEntryAt(vol, first, at + i, entries[i], chains, ch);
      OneMoreEntry(dir, was, at, entries, i);
      OwnOnlyTwice(vol.geo, old(vol.disk), before, vol.disk, phys);
    }
  }

  lemma OneMoreEntry(dir: seq<Raw>, was: seq<Raw>, at: nat, entries: seq<Raw>, i: nat)
    requires PartlyCreated(dir, was, at, entries, i) && i < |entries|
    ensures PartlyCreated(dir, was[at + i := entries[i]], at, entries, i + 1)
  {}

  lemma OwnOnlyTwice(g: Geo, d0: seq<Block>, d1: seq<Block>, d2: seq<Block>, phys: seq<nat>)
    requires OwnOnly(g, d0, d1, phys) && OwnOnly(g, d1, d2, phys)
    ensures OwnOnly(g, d0, d2, phys)
  {}

  /** The long-name entries of a name, last part first. */
  method MakeParts(name: seq<Byte>, count: nat, checksum: Byte) returns (parts: seq<Raw>)
    requires count == (|name| + 12) / 13 <= 20
    ensures AreParts(parts, name, checksum)
  {
    parts := [];
    for i := 0 to count
      invariant |parts| == i
      invariant forall j {:trigger parts[j]} :: 0 <= j < i ==> IsPart(parts[j], name, count, count - j, checksum)
    {
      var r := PopulatePart(name, count, count - i, checksum);
      parts := parts + [r];
    }
  }

  /** Room for `needed` entries, growing the directory by one cluster if there is
      none. */
  method FindRoom(vol: FatVolume, first: nat, dir: seq<Raw>, needed: nat, ghost chains: set<seq<nat>>,
                  ghost ch: seq<nat>)
    returns (ok: bool, at: nat, ghost cur: seq<nat>)
    requires Sound(vol, chains) && ch in chains && ch != [] && first == ch[0] && needed > 0
    requires dir == Entries(vol.disk, Sectors(vol.geo, ch)) && WellFormed(dir)
    modifies vol
    ensures Sound(vol, Regrown(chains, ch, cur)) && ch <= cur
    ensures OwnOnly(vol.geo, old(vol.disk), vol.disk, Sectors(vol.geo, cur))
    ensures cur in Regrown(chains, ch, cur) && cur != [] && cur[0] == first && forall a :: a in chains && a != ch ==>
      Disjoint(a, cur)
    ensures var now := Entries(vol.disk, Sectors(vol.geo, cur));
            && WellFormed(now) && SameLive(dir, now, -1) && (forall name :: Find(now, name) == Find(dir, name))
            && now == MadeRoom(vol.geo, FreeClusters(vol.geo, old(vol.disk)), dir, needed)
            && (ok ==> FirstRoom(now, at, needed) && (at == 0 || !IsFree(now[at - 1])))
    ensures |cur| == |ch| + if NeedsCluster(FreeClusters(vol.geo, old(vol.disk)), dir, needed) then 1 else 0
    ensures FreeClusters(vol.geo, vol.disk) + |cur| == FreeClusters(vol.geo, old(vol.disk)) + |ch|
    ensures ok <==> RoomOrGrowth(vol.geo, FreeClusters(vol.geo, old(vol.disk)), dir, needed)
  {
    FileWriting(vol, chains, ch);
    assert Regrown(chains, ch, ch) == chains;
    cur := ch;
    var found := LocateFreeSpan(dir, needed);
    if found >= 0 {
      assert AllFree(dir, found, needed);
      return true, found, ch;
    }
    ghost var d0 := vol.disk;
    var grown, c := AppendDirectoryCluster(vol, first, chains, ch);
    if !grown {
      return false, 0, ch;
    }
    cur := ch + [c];
    DirectoryGrown(vol.geo, d0, vol.disk, Fat(vol.geo, d0), chains, ch, c);
    var now := ReadDirectory(vol, first, Regrown(chains, ch, cur), cur);
    ExtendedEnds(dir, 16 * vol.geo.spc);
    GrownWellFormed(dir, now);
    GrownLive(dir, now);
    forall name ensures Find(now, name) == Find(dir, name) { GrownFind(dir, now, 0, Blank(), name); }
    found := LocateFreeSpan(now, needed);
    if found < 0 {
      return false, 0, cur;
    }
    assert AllFree(now, found, needed);
    return true, found, cur;
  }

  /** The directory after it has been given a cluster, or not. */
  ghost function Lengthened(g: Geo, dir: seq<Raw>, more: bool): seq<Raw> {
    if more then Extended(dir, 16 * g.spc) else dir
  }

  /** A directory without room is given one more cluster if there is any. */
  ghost predicate NeedsCluster(free: nat, dir: seq<Raw>, needed: nat) { !RoomFor(dir, needed) && free > 0 }

  ghost function MadeRoom(g: Geo, free: nat, dir: seq<Raw>, needed: nat): seq<Raw> {
    Lengthened(g, dir, NeedsCluster(free, dir, needed))
  }

  /** There is room in the directory, or there will be with one more cluster, which is
      to be had. */
  ghost predicate RoomOrGrowth(g: Geo, free: nat, dir: seq<Raw>, needed: nat) {
    RoomFor(dir, needed) || (free > 0 && RoomFor(Extended(dir, 16 * g.spc), needed))
  }

  lemma DirectoryGrown(g: Geo, d: seq<Block>, d': seq<Block>, f: seq<nat>, chains: set<seq<nat>>, ch: seq<nat>, c: nat)
    requires Backed(g, d) && f == Fat(g, d) && Forest(f, chains) && ch in chains && IsData(g, c)
    requires Allocated(g, d, d', c) && forall a :: a in chains ==> c !in a
    ensures Regrown(chains, ch, ch + [c]) == chains - {ch} + {ch + [c]}
    ensures OwnOnly(g, d, d', Sectors(g, ch + [c])) && forall a :: a in chains && a != ch ==> Disjoint(a, ch + [c])
    ensures Entries(d', Sectors(g, ch + [c])) == Extended(Entries(d, Sectors(g, ch)), 16 * g.spc)
  {
    ChainData(g, f, chains, ch);
    var phys, more := Sectors(g, ch), Run(Lba(g, c), g.spc);
    SectorsSnoc(g, ch, c);
    SectorsIn(g, ch);
    LbaInVolume(g, c);
    OneClusterSectors(g, c);
    SectorsApart(g, ch, [c]);
    forall i | 0 <= i < |phys| ensures d'[phys[i]] == d[phys[i]] {
      assert phys[i] in phys;
      InRun(Lba(g, c), g.spc, phys[i]);
    }
    assert forall i :: 0 <= i < |more| ==> InCluster(g, c, g.spc, more[i]);
    EntriesGrown(d, d', phys, more);
    forall x | 0 <= x < |d| && !InFats(g, x) && x !in phys + more ensures d'[x] == d[x] {
      InRun(Lba(g, c), g.spc, x);
    }
    assert Has(chains, ch);
    forall a: seq<nat> | a in chains && a != ch ensures Disjoint(a, ch) { assert Has(chains, a); }
    AppendedApart(chains, ch, ch, c);
  }

  /** When looking up a name just created finds it: a long name if it has at most 247
      bytes, a short one if it does not end in a period, or if long-name entries that
      lay abandoned right before it happen to spell it. */
  ghost predicate Findable(dir: seq<Raw>, name: seq<Byte>, index: nat) {
    if NeedsLong(name) then |name| <= 247
    else name[|name| - 1] != PERIOD || Spelled(dir, name, index)
  }

  /** The long-name entries before entry `k` belong to it and spell the name. */
  ghost predicate Spelled(dir: seq<Raw>, name: seq<Byte>, k: nat) {
    && k < |dir| && HasLongName(dir[k], StateAt(dir, k)) && SameIgnoringCase(CStr(StateAt(dir, k).name), name)
  }

  /** What a directory looks like after a successful creation: entry `index` is a new
      short entry with an unused short name, the given attributes and cluster, looking
      the name up finds it or nothing, and all other files are as they were. */
  ghost predicate EntryCreated(dir: seq<Raw>, dir': seq<Raw>, name: seq<Byte>, attr: Byte, cluster: nat, index: nat) {
    && Find(dir, name) == -1 && |name| <= 260 && index < |dir'| && IsShort(dir'[index])
    && dir'[index][11] == attr && FirstCluster(dir'[index]) == cluster && FileSize(dir'[index]) == 0
    && dir'[index][..11] !in ShortList(dir)
    && Find(dir', name) == (if Findable(dir', name, index) then index else -1)
    && (NeedsLong(name) && |name| <= 247 ==> FileName(dir'[index], StateAt(dir', index)) == name)
    && !LiveAt(dir, index) && SameLive(dir, dir', index)
  }

  /** An entry can be created: the name is new and not too long, some alias of it is
      unused, and its entries find room. */
  ghost predicate CanCreate(g: Geo, free: nat, dir: seq<Raw>, name: seq<Byte>) {
    Nameable(dir, name) && RoomOrGrowth(g, free, dir, EntryCount(name))
  }

  ghost predicate Nameable(dir: seq<Raw>, name: seq<Byte>) {
    Find(dir, name) == -1 && |name| <= 260 && exists s: nat :: Unused(dir, name, s)
  }

  /** Whether trying to create an entry gives the directory one more cluster. */
  ghost predicate Grows(free: nat, dir: seq<Raw>, name: seq<Byte>) {
    Nameable(dir, name) && NeedsCluster(free, dir, EntryCount(name))
  }

  /** The directory after it has been given a cluster, if it has. */
  ghost function Before(g: Geo, free: nat, dir: seq<Raw>, name: seq<Byte>): seq<Raw> {
    Lengthened(g, dir, Grows(free, dir, name))
  }

  /** The new entries have the first alias that is not in use and lie in the first room
      there is, and nothing else in the directory changed. */
  ghost predicate PlacedAs(dir: seq<Raw>, now: seq<Raw>, dir': seq<Raw>, name: seq<Byte>, attr: Byte, cluster: nat,
                           index: nat, serial: nat, entries: seq<Raw>) {
    var n := EntryCount(name);
    && FirstUnused(dir, name, serial) && AreEntries(entries, name, Alias(name, serial), attr, cluster, n - 1)
    && index + 1 >= n && FirstRoom(now, index + 1 - n, n) && PartlyCreated(now, dir', index + 1 - n, entries, n)
  }

  ghost predicate Placed(dir: seq<Raw>, now: seq<Raw>, dir': seq<Raw>, name: seq<Byte>, attr: Byte, cluster: nat,
                         index: nat) {
    exists serial: nat, entries: seq<Raw> :: PlacedAs(dir, now, dir', name, attr, cluster, index, serial, entries)
  }

  /** How many entries a name takes. */
  ghost function EntryCount(name: seq<Byte>): nat { if NeedsLong(name) then (|name| + 12) / 13 + 1 else 1 }

  /** A name not in the directory, an unused short name for it and room for its
      entries at `at`. */
  ghost predicate Placeable(dir: seq<Raw>, now: seq<Raw>, name: seq<Byte>, raw: seq<Byte>, at: nat, count: nat) {
    && 0 !in name && name != [] && |name| <= 260 && count == (if NeedsLong(name) then (|name| + 12) / 13 else 0)
    && Find(dir, name) == -1 && Find(now, name) == -1 && WellFormed(now) && SameLive(dir, now, -1)
    && GoodShortName(dir, name, raw) && FirstRoom(now, at, count + 1)
    && (at == 0 || !IsFree(now[at - 1]))
  }

  /** Writes the parts of a name and its short entry into a row of places. */
  method WriteNewEntry(vol: FatVolume, first: nat, name: seq<Byte>, raw: seq<Byte>, attr: Byte, cluster: nat,
                       long: bool, count: nat, at: nat, ghost all: set<seq<nat>>, ghost cur: seq<nat>)
    returns (ghost entries: seq<Raw>)
    requires Sound(vol, all) && cur in all && cur != [] && first == cur[0] && |raw| == 11 && |name| <= 260
    requires cluster < 0x1_0000_0000
    requires (long <==> NeedsLong(name)) && count == (if long then (|name| + 12) / 13 else 0)
    requires at + count + 1 <= 16 * |Sectors(vol.geo, cur)|
    modifies vol
    ensures Sound(vol, all) && OwnOnly(vol.geo, old(vol.disk), vol.disk, Sectors(vol.geo, cur))
    ensures AreEntries(entries, name, raw, attr, cluster, count)
    ensures var phys := Sectors(vol.geo, cur);
      PartlyCreated(Entries(old(vol.disk), phys), Entries(vol.disk, phys), at, entries, |entries|)
    ensures FreeClusters(vol.geo, vol.disk) == FreeClusters(vol.geo, old(vol.disk))
  {
    var made := MakeEntries(name, raw, attr, cluster, long, count);
    WriteEntries(vol, first, at, made, all, cur);
    entries := made;
  }

  lemma RoomEnds(disk: seq<Block>, phys: seq<nat>, dir: seq<Raw>, now: seq<Raw>, name: seq<Byte>, raw: seq<Byte>,
                 at: nat, count: nat)
    requires now == Entries(disk, phys) && Placeable(dir, now, name, raw, at, count)
    ensures at + count + 1 <= 16 * |phys|
  {}

  /** The entries of a name: its parts, if it takes any, and its short entry. */
  ghost predicate AreEntries(entries: seq<Raw>, name: seq<Byte>, raw: seq<Byte>, attr: Byte, cluster: nat, count: nat) {
    && |raw| == 11 && cluster < 0x1_0000_0000 && |entries| == count + 1
    && entries[count] == ShortEntry(raw, attr, cluster)
    && (NeedsLong(name) ==> AreParts(entries[..count], name, Checksum(raw, 11)))
  }

  method MakeEntries(name: seq<Byte>, raw: seq<Byte>, attr: Byte, cluster: nat, long: bool, count: nat)
    returns (entries: seq<Raw>)
    requires |raw| == 11 && cluster < 0x1_0000_0000 && |name| <= 260
    requires (long <==> NeedsLong(name)) && count == if long then (|name| + 12) / 13 else 0
    ensures AreEntries(entries, name, raw, attr, cluster, count) && |entries| == count + 1
  {
    entries := [];
    if long {
      entries := MakeParts(name, count, Checksum(raw, 11));
    }
    ghost var parts := entries;
    entries := entries + [ShortEntry(raw, attr, cluster)];
    assert entries[..count] == parts;
  }

  /** What the entries written mean for the directory. */
  lemma NewEntryWritten(dir: seq<Raw>, now: seq<Raw>, dir': seq<Raw>, at: nat, entries: seq<Raw>, name: seq<Byte>,
                        raw: seq<Byte>, attr: Byte, cluster: nat, count: nat)
    requires Placeable(dir, now, name, raw, at, count) && AreEntries(entries, name, raw, attr, cluster, count)
    requires attr != ATTR_LFN && attr / ATTR_VOLUME % 2 == 0 && PartlyCreated(now, dir', at, entries, |entries|)
    ensures EntryCreated(dir, dir', name, attr, cluster, at + count) && WellFormed(dir')
  {
    var parts, short := entries[..count], entries[count];
    assert entries == parts + [short];
    AllWritten(now, dir', at, parts, short);
    NewShort(raw, attr, cluster);
    assert dir'[at + count] == short;
    PartsForm(parts, name, raw);
    OthersLive(dir, now, dir', at, parts, short);
    CreateKeepsForm(now, dir', at, parts, short);
    NoEndBefore(now, at);
    NewEntryFound(now, dir', at, parts, short, name);
  }

  /** The parts of a name, if it takes any, are long-name entries. */
  lemma PartsForm(parts: seq<Raw>, name: seq<Byte>, raw: seq<Byte>)
    requires |raw| == 11 && name != [] && |name| <= 260
    requires if NeedsLong(name) then AreParts(parts, name, Checksum(raw, 11)) else parts == []
    ensures forall i :: 0 <= i < |parts| ==> !IsFree(parts[i]) && !IsShort(parts[i])
    ensures !NeedsLong(name) ==> |name| <= 12
  {
    if NeedsLong(name) {
      PartsAreLong(parts, name, Checksum(raw, 11));
    }
  }

  /** The files that were there are still there. */
  lemma OthersLive(dir: seq<Raw>, now: seq<Raw>, dir': seq<Raw>, at: nat, parts: seq<Raw>, short: Raw)
    requires SameLive(dir, now, -1) && AllFree(now, at, |parts| + 1) && Created(now, dir', at, parts, short)
    requires IsShort(short) && forall i :: 0 <= i < |parts| ==> !IsShort(parts[i])
    ensures !LiveAt(dir, at + |parts|) && SameLive(dir, dir', at + |parts|) && SameLive(now, dir', at + |parts|)
  {
    var n := at + |parts|;
    assert forall j :: at <= j <= n ==> IsFree(now[j]);
    assert forall j :: at <= j < n ==> dir'[j] == parts[j - at];
    RewrittenLive(now, dir', at, n);
    assert !LiveAt(now, n) && SameLive(dir, now, n);
    SameLiveTwice(dir, now, dir', n);
  }

  lemma NewEntryFound(now: seq<Raw>, dir': seq<Raw>, at: nat, parts: seq<Raw>, short: Raw, name: seq<Byte>)
    requires Created(now, dir', at, parts, short) && IsShort(short) && 0 !in name && name != []
    requires PERIOD !in short[..11]
    requires Find(now, name) == -1 && (forall j :: 0 <= j < at ==> !IsEnd(now[j])) && WellFormed(now)
    requires WellFormed(dir')
    requires SameLive(now, dir', at + |parts|)
    requires NeedsLong(name) ==> AreParts(parts, name, Checksum(short, 11)) && |name| <= 260
    requires !NeedsLong(name) ==> parts == [] && |name| <= 12
    requires !NeedsLong(name) ==> (name[|name| - 1] != PERIOD ==> ReadsAs(short[..11], name))
    ensures Find(dir', name) == if Findable(dir', name, at + |parts|) then at + |parts| else -1
    ensures NeedsLong(name) && |name| <= 247 ==> FileName(short, StateAt(dir', at + |parts|)) == name
  {
    var n := at + |parts|;
    assert dir'[n] == short;
    if NeedsLong(name) {
      if |name| <= 247 {
        FindAfterCreate(now, dir', at, parts, short, name);
      } else {
        LongNameGone(dir', at, parts, short, name);
        OnlyIfHit(now, dir', n, name);
      }
    } else if name[|name| - 1] != PERIOD {
      FindAfterCreateShort(now, dir', at, short, name);
    } else {
      ShortShows(short, name);
      OnlyIfHit(now, dir', n, name);
    }
  }

  /** A name of more than 247 bytes is not gathered again. */
  lemma LongNameGone(dir: seq<Raw>, at: nat, parts: seq<Raw>, short: Raw, name: seq<Byte>)
    requires at + |parts| < |dir| && dir[at + |parts|] == short && PERIOD !in short[..11] && 248 <= |name| <= 260
    requires (forall i :: 0 <= i < |parts| ==> dir[at + i] == parts[i]) && AreParts(parts, name, Checksum(short, 11))
    ensures !MatchesName(short, StateAt(dir, at + |parts|), name)
  {
    PartsAreLong(parts, name, Checksum(short, 11));
    StateAfterParts(dir, at, parts, 0);
    assert parts[0..] == parts;
    LongNameLost(StateAt(dir, at), parts, name, Checksum(short, 11));
    ShortShows(short, name);
  }

  /** A name that was not there is found afterwards only at the new entry, and there
      only if it answers to it. */
  lemma OnlyIfHit(now: seq<Raw>, dir': seq<Raw>, n: nat, name: seq<Byte>)
    requires WellFormed(now) && WellFormed(dir') && SameLive(now, dir', n) && Find(now, name) == -1 && LiveAt(dir', n)
    ensures Find(dir', name) == if MatchesName(dir'[n], StateAt(dir', n), name) then n else -1
  {
    FindIsFirst(now, name, 0);
    FindIsFirst(dir', name, 0);
    forall j: nat | Hit(dir', name, j) ensures j == n {
      assert j != n ==> Kept(now, dir', j) && Hit(now, name, j);
    }
    assert Hit(dir', name, n) <==> MatchesName(dir'[n], StateAt(dir', n), name);
  }

  lemma NewShort(raw: seq<Byte>, attr: Byte, cluster: nat)
    requires |raw| == 11 && raw[0] != 0 && raw[0] != 0xE5
    requires cluster < 0x1_0000_0000 && attr != ATTR_LFN && attr / ATTR_VOLUME % 2 == 0
    ensures var short := ShortEntry(raw, attr, cluster);
      && IsShort(short) && short[..11] == raw && short[11] == attr && FirstCluster(short) == cluster
      && FileSize(short) == 0
      && Checksum(short, 11) == Checksum(raw, 11)
  {
    var short := ShortEntry(raw, attr, cluster);
    ShortEntryFields(raw, attr, cluster);
    assert short[0] == short[..11][0] == raw[0];
    assert raw[..11] == raw;
    ChecksumKept(raw, short, 11);
  }

  lemma AllWritten(dir: seq<Raw>, dir': seq<Raw>, at: nat, parts: seq<Raw>, short: Raw)
    requires PartlyCreated(dir, dir', at, parts + [short], |parts| + 1)
    ensures Created(dir, dir', at, parts, short)
  {
    forall i | 0 <= i < |dir|
      ensures dir'[i] == if at <= i < at + |parts| then parts[i - at] else if i == at + |parts| then short else dir[i]
    {
      assert dir'[i] == if at <= i < at + (|parts| + 1) then (parts + [short])[i - at] else dir[i];
    }
  }

  /** An unused short name for a new name, and how many long-name entries it takes. */
  method ChooseName(dir: seq<Raw>, name: seq<Byte>)
    returns (ok: bool, raw: seq<Byte>, long: bool, count: nat, ghost serial: nat)
    requires 0 !in name && name != []
    ensures ok <==> Nameable(dir, name)
    ensures ok ==> FirstUnused(dir, name, serial) && raw == Alias(name, serial)
    ensures ok ==> GoodShortName(dir, name, raw) && (long <==> NeedsLong(name)) && count + 1 == EntryCount(name)
  {
    raw, long, count, serial := [], false, 0, 0;
    var found, _ := FindEntry(dir, name);
    if found >= 0 {
      return false, raw, long, count, 0;
    }
    ok, raw, serial := BuildUniqueShortName(dir, name);
    if !ok {
      return;
    }
    ChosenIsGood(dir, name, raw, serial);
    long := NameNeedsLong(name);
    count := if long then (|name| + 12) / 13 else 0;
    ok := count <= 20;
  }

  /** Creates an entry under a new name. */
  method CreateEntry(vol: FatVolume, first: nat, name: seq<Byte>, attr: Byte, cluster: nat, ghost chains: set<seq<nat>>,
                     ghost ch: seq<nat>)
    returns (ok: bool, index: nat, ghost cur: seq<nat>)
    requires Sound(vol, chains) && ch in chains && ch != [] && first == ch[0]
    requires WellFormed(Entries(vol.disk, Sectors(vol.geo, ch)))
    requires 0 !in name && name != [] && cluster < 0x1_0000_0000 && attr != ATTR_LFN && attr / ATTR_VOLUME % 2 == 0
    modifies vol
    ensures Sound(vol, Regrown(chains, ch, cur)) && ch <= cur
    ensures OwnOnly(vol.geo, old(vol.disk), vol.disk, Sectors(vol.geo, cur))
    ensures forall a :: a in chains && a != ch ==> Disjoint(a, cur)
    ensures WellFormed(Entries(vol.disk, Sectors(vol.geo, cur)))
    ensures ok ==>
      EntryCreated(Entries(old(vol.disk), Sectors(vol.geo, ch)), Entries(vol.disk, Sectors(vol.geo, cur)), name, attr,
                   cluster, index)
    ensures ok <==>
      CanCreate(vol.geo, FreeClusters(vol.geo, old(vol.disk)), Entries(old(vol.disk), Sectors(vol.geo, ch)), name)
    ensures FreeClusters(vol.geo, vol.disk) + |cur| == FreeClusters(vol.geo, old(vol.disk)) + |ch|
    ensures var free, dir := FreeClusters(vol.geo, old(vol.disk)), Entries(old(vol.disk), Sectors(vol.geo, ch));
            var now, dir' := Before(vol.geo, free, dir, name), Entries(vol.disk, Sectors(vol.geo, cur));
            && |cur| == |ch| + (if Grows(free, dir, name) then 1 else 0)
            && (ok ==> Placed(dir, now, dir', name, attr, cluster, index))
            && (!ok ==> dir' == now && SameLive(dir, dir', -1))
  {
    FileWriting(vol, chains, ch);
    assert Regrown(chains, ch, ch) == chains;
    index, cur := 0, ch;
    var dir := ReadDirectory(vol, first, chains, ch);
    var raw, long, count;
    ghost var serial;
    ok, raw, long, count, serial := ChooseName(dir, name);
    if !ok {
      return false, 0, ch;
    }
    ok, index, cur := PlaceEntry(vol, first, dir, name, raw, attr, cluster, long, count, serial, chains, ch);
  }

  /** Finds room for the entries of a new name and writes them. */
  method PlaceEntry(vol: FatVolume, first: nat, dir: seq<Raw>, name: seq<Byte>, raw: seq<Byte>, attr: Byte,
                    cluster: nat, long: bool, count: nat, ghost serial: nat, ghost chains: set<seq<nat>>,
                      ghost ch: seq<nat>)
    returns (ok: bool, index: nat, ghost cur: seq<nat>)
    requires Sound(vol, chains) && ch in chains && ch != [] && first == ch[0]
    requires dir == Entries(vol.disk, Sectors(vol.geo, ch)) && WellFormed(dir)
    requires 0 !in name && name != [] && |name| <= 260 && cluster < 0x1_0000_0000 && attr != ATTR_LFN
    requires attr / ATTR_VOLUME % 2 == 0
    requires Find(dir, name) == -1 && GoodShortName(dir, name, raw) && (long <==> NeedsLong(name))
    requires count + 1 == EntryCount(name) && FirstUnused(dir, name, serial) && raw == Alias(name, serial)
    modifies vol
    ensures Sound(vol, Regrown(chains, ch, cur)) && ch <= cur
    ensures OwnOnly(vol.geo, old(vol.disk), vol.disk, Sectors(vol.geo, cur))
    ensures forall a :: a in chains && a != ch ==> Disjoint(a, cur)
    ensures WellFormed(Entries(vol.disk, Sectors(vol.geo, cur)))
    ensures ok <==> RoomOrGrowth(vol.geo, FreeClusters(vol.geo, old(vol.disk)), dir, count + 1)
    ensures ok ==> EntryCreated(dir, Entries(vol.disk, Sectors(vol.geo, cur)), name, attr, cluster, index)
    ensures FreeClusters(vol.geo, vol.disk) + |cur| == FreeClusters(vol.geo, old(vol.disk)) + |ch|
    ensures |cur| == |ch| + if NeedsCluster(FreeClusters(vol.geo, old(vol.disk)), dir, count + 1) then 1 else 0
    ensures var now := MadeRoom(vol.geo, FreeClusters(vol.geo, old(vol.disk)), dir, count + 1);
            var dir' := Entries(vol.disk, Sectors(vol.geo, cur));
            && (ok ==> Placed(dir, now, dir', name, attr, cluster, index))
            && (!ok ==> dir' == now && SameLive(dir, dir', -1))
  {
    index := 0;
    var at;
    ok, at, cur := FindRoom(vol, first, dir, count + 1, chains, ch);
    if !ok {
      return false, 0, cur;
    }
    ghost var grown := vol.disk;
    ghost var now := Entries(grown, Sectors(vol.geo, cur));
    assert Placeable(dir, now, name, raw, at, count);
    PutEntry(vol, first, name, raw, attr, cluster, long, count, at, dir, serial, Regrown(chains, ch, cur), cur);
    index := at + count;
    OwnOnlyTwice(vol.geo, old(vol.disk), grown, vol.disk, Sectors(vol.geo, cur));
  }

  /** Writes the entries of a name into the room found for them. */
  method PutEntry(vol: FatVolume, first: nat, name: seq<Byte>, raw: seq<Byte>, attr: Byte, cluster: nat, long: bool,
                  count: nat, at: nat, ghost dir: seq<Raw>, ghost serial: nat, ghost all: set<seq<nat>>,
                    ghost cur: seq<nat>)
    requires Sound(vol, all) && cur in all && cur != [] && first == cur[0] && |raw| == 11 && |name| <= 260
    requires cluster < 0x1_0000_0000 && attr != ATTR_LFN && attr / ATTR_VOLUME % 2 == 0
    requires (long <==> NeedsLong(name)) && count + 1 == EntryCount(name)
    requires FirstUnused(dir, name, serial) && raw == Alias(name, serial)
    requires var now := Entries(vol.disk, Sectors(vol.geo, cur));
      Placeable(dir, now, name, raw, at, count) && FirstRoom(now, at, count + 1)
    modifies vol
    ensures Sound(vol, all) && OwnOnly(vol.geo, old(vol.disk), vol.disk, Sectors(vol.geo, cur))
    ensures FreeClusters(vol.geo, vol.disk) == FreeClusters(vol.geo, old(vol.disk))
    ensures var now, dir' := Entries(old(vol.disk), Sectors(vol.geo, cur)), Entries(vol.disk, Sectors(vol.geo, cur));
            && WellFormed(dir') && EntryCreated(dir, dir', name, attr, cluster, at + count)
            && Placed(dir, now, dir', name, attr, cluster, at + count)
  {
    ghost var now := Entries(vol.disk, Sectors(vol.geo, cur));
    RoomEnds(vol.disk, Sectors(vol.geo, cur), dir, now, name, raw, at, count);
    ghost var entries := WriteNewEntry(vol, first, name, raw, attr, cluster, long, count, at, all, cur);
    NewEntryWritten(dir, now, Entries(vol.disk, Sectors(vol.geo, cur)), at, entries, name, raw, attr, cluster, count);
    IsPlaced(dir, now, Entries(vol.disk, Sectors(vol.geo, cur)), name, attr, cluster, at, count, serial, entries);
  }

  lemma IsPlaced(dir: seq<Raw>, now: seq<Raw>, dir': seq<Raw>, name: seq<Byte>, attr: Byte, cluster: nat, at: nat,
                 count: nat, serial: nat, entries: seq<Raw>)
    requires FirstUnused(dir, name, serial) && AreEntries(entries, name, Alias(name, serial), attr, cluster, count)
    requires FirstRoom(now, at, count + 1) && PartlyCreated(now, dir', at, entries, |entries|)
    requires count + 1 == EntryCount(name)
    ensures Placed(dir, now, dir', name, attr, cluster, at + count)
  {
    assert PlacedAs(dir, now, dir', name, attr, cluster, at + count, serial, entries);
  }

  // ----- mkdir -----

  /** The directory a new cluster is the first of. */
  ghost function DirOf(g: Geo, d: seq<Block>, c: nat): seq<Raw> { Entries(d, Sectors(g, [c])) }

  /** The "." and ".." entries of a new directory, whose cluster is still blank. */
  method InitDirectoryCluster(vol: FatVolume, self: nat, parent: nat, ghost chains: set<seq<nat>>)
    requires Sound(vol, chains) && IsData(vol.geo, self) && parent < 0x1_0000_0000
    requires forall x :: 0 <= x < |vol.disk| && InCluster(vol.geo, self, vol.geo.spc, x) ==> vol.disk[x] == ZeroBlock()
    modifies vol`disk, vol`cacheValid
    ensures Sound(vol, chains) && OwnOnly(vol.geo, old(vol.disk), vol.disk, Sectors(vol.geo, [self]))
    ensures FreeClusters(vol.geo, vol.disk) == FreeClusters(vol.geo, old(vol.disk))
    ensures FreshDir(DirOf(vol.geo, vol.disk, self), self, if IsData(vol.geo, parent) then parent else vol.geo.root)
  {
    LbaInVolume(vol.geo, self);
    var lba := Lba(vol.geo, self);
    var up := if IsData(vol.geo, parent) then parent else vol.geo.root;
    var dot, dotdot := ShortEntry(DotName(1), ATTR_DIRECTORY, self), ShortEntry(DotName(2), ATTR_DIRECTORY, up);
    ShortEntryFields(DotName(1), ATTR_DIRECTORY, self);
    ShortEntryFields(DotName(2), ATTR_DIRECTORY, up);
    var one := WithEntry(vol.disk[lba], 0, dot);
    OneClusterSectors(vol.geo, self);
    InRun(lba, vol.geo.spc, lba);
    ghost var d := vol.disk;
    var written := vol.WriteSector(lba, WithEntry(one, 1, dotdot));
    WritingKept(vol.geo, d, vol.disk, chains);
    FatKept(vol.geo, d, vol.disk);
    DotsWritten(vol.geo, d, vol.disk, self, dot, dotdot);
  }

  lemma DotsWritten(g: Geo, d: seq<Block>, d': seq<Block>, c: nat, dot: Raw, dotdot: Raw)
    requires GeoOk(g) && IsData(g, c) && |d| >= g.partition + g.total && Lba(g, c) < |d|
    requires forall x :: 0 <= x < |d| && InCluster(g, c, g.spc, x) ==> d[x] == ZeroBlock()
    requires d' == d[Lba(g, c) := WithEntry(WithEntry(ZeroBlock(), 0, dot), 1, dotdot)]
    ensures var dir := DirOf(g, d', c); |dir| == 16 * g.spc >= 16 && dir[0] == dot && dir[1] == dotdot
    ensures forall j {:trigger DirOf(g, d', c)[j]} :: 2 <= j < 16 * g.spc ==> DirOf(g, d', c)[j] == EmptyEntry()
  {
    LbaInVolume(g, c);
    OneClusterSectors(g, c);
    var phys, dir := Sectors(g, [c]), DirOf(g, d', c);
    forall j | 0 <= j < 16 * g.spc ensures dir[j] == if j == 0 then dot else if j == 1 then dotdot else EmptyEntry() {
      assert dir[j] == EntryAt(d', phys, j);
      if j < 16 {
        EntryStored(ZeroBlock(), 0, dot, j);
        EntryStored(WithEntry(ZeroBlock(), 0, dot), 1, dotdot, j);
        assert EntryIn(ZeroBlock(), j) == EmptyEntry();
      } else {
        assert InCluster(g, c, g.spc, phys[j / 16]) && phys[j / 16] != Lba(g, c);
        assert EntryIn(ZeroBlock(), j % 16) == EmptyEntry();
      }
    }
  }

  /** A directory can be made: the name is no dot name, there is a cluster for it, and
      without that cluster its entry can still be created. */
  ghost predicate CanMakeDir(g: Geo, free: nat, dir: seq<Raw>, name: seq<Byte>) {
    !IsDotName(name) && free > 0 && CanCreate(g, free - 1, dir, name)
  }

  /** Whether trying to make a directory gives its parent one more cluster. */
  ghost predicate DirGrows(free: nat, dir: seq<Raw>, name: seq<Byte>) {
    !IsDotName(name) && free > 0 && Grows(free - 1, dir, name)
  }

  ghost function BeforeDir(g: Geo, free: nat, dir: seq<Raw>, name: seq<Byte>): seq<Raw> {
    Lengthened(g, dir, DirGrows(free, dir, name))
  }

  /** Makes a directory: a new chain of one cluster and an entry that names it.  When
      the entry cannot be created the cluster is given back. */
  method MakeDirectory(vol: FatVolume, first: nat, name: seq<Byte>, ghost chains: set<seq<nat>>, ghost ch: seq<nat>)
    returns (ok: bool, index: nat, cluster: nat, ghost cur: seq<nat>)
    requires Sound(vol, chains) && ch in chains && ch != [] && first == ch[0]
    requires WellFormed(Entries(vol.disk, Sectors(vol.geo, ch)))
    requires 0 !in name && name != []
    modifies vol
    ensures ok <==>
      CanMakeDir(vol.geo, FreeClusters(vol.geo, old(vol.disk)), Entries(old(vol.disk), Sectors(vol.geo, ch)), name)
    ensures ch <= cur && (forall a :: a in chains && a != ch ==> Disjoint(a, cur))
    ensures WellFormed(Entries(vol.disk, Sectors(vol.geo, cur)))
    ensures ChainsKept(vol.geo, old(vol.disk), vol.disk, chains - {ch})
    ensures !ok ==> Sound(vol, Regrown(chains, ch, cur))
    ensures var free, dir := FreeClusters(vol.geo, old(vol.disk)), Entries(old(vol.disk), Sectors(vol.geo, ch));
            var now, dir' := BeforeDir(vol.geo, free, dir, name), Entries(vol.disk, Sectors(vol.geo, cur));
            && |cur| == |ch| + (if DirGrows(free, dir, name) then 1 else 0)
            && FreeClusters(vol.geo, vol.disk) + |cur| + (if ok then 1 else 0) == free + |ch|
            && (ok ==> Placed(dir, now, dir', name, ATTR_DIRECTORY, cluster, index))
            && (!ok ==> dir' == now && SameLive(dir, dir', -1))
    ensures ok ==> Sound(vol, Regrown(chains, ch, cur) + {[cluster]}) && [cluster] !in chains && cluster !in cur
    ensures ok ==>
      EntryCreated(Entries(old(vol.disk), Sectors(vol.geo, ch)), Entries(vol.disk, Sectors(vol.geo, cur)), name,
                   ATTR_DIRECTORY, cluster, index)
    ensures ok ==> FreshDir(DirOf(vol.geo, vol.disk, cluster), cluster, first)
  {
    index, cluster, cur := 0, 0, ch;
    FileWriting(vol, chains, ch);
    assert Regrown(chains, ch, ch) == chains;
    if IsDotName(name) {
      return false, 0, 0, ch;
    }
    var dir := ReadDirectory(vol, first, chains, ch);
    var found, _ := FindEntry(dir, name);
    if found >= 0 {
      return false, 0, 0, ch;
    }
    ok, cluster := NewDirectoryCluster(vol, first, chains, ch);
    if !ok {
      return;
    }
    ok, index, cur := EnterDirectory(vol, first, name, cluster, old(vol.disk), chains, ch);
  }

  /** Creates the entry of a directory whose cluster is set up, or gives the cluster
      back. */
  method EnterDirectory(vol: FatVolume, first: nat, name: seq<Byte>, cluster: nat, ghost d0: seq<Block>,
                        ghost chains: set<seq<nat>>, ghost ch: seq<nat>)
    returns (ok: bool, index: nat, ghost cur: seq<nat>)
    requires Sound(vol, chains + {[cluster]}) && ch in chains && ch != [] && first == ch[0] && [cluster] !in chains
    requires IsData(vol.geo, cluster)
    requires WellFormed(Entries(vol.disk, Sectors(vol.geo, ch))) && cluster < 0x1_0000_0000 && 0 !in name && name != []
    requires Backed(vol.geo, d0) && Forest(Fat(vol.geo, d0), chains) && ChainsKept(vol.geo, d0, vol.disk, chains)
    modifies vol
    ensures ok <==>
      CanCreate(vol.geo, FreeClusters(vol.geo, old(vol.disk)), Entries(old(vol.disk), Sectors(vol.geo, ch)), name)
    ensures ch <= cur && (forall a :: a in chains && a != ch ==> Disjoint(a, cur))
    ensures WellFormed(Entries(vol.disk, Sectors(vol.geo, cur)))
    ensures ChainsKept(vol.geo, d0, vol.disk, chains - {ch})
    ensures !ok ==> Sound(vol, Regrown(chains, ch, cur))
    ensures var free, dir := FreeClusters(vol.geo, old(vol.disk)), Entries(old(vol.disk), Sectors(vol.geo, ch));
            var now, dir' := Before(vol.geo, free, dir, name), Entries(vol.disk, Sectors(vol.geo, cur));
            && |cur| == |ch| + (if Grows(free, dir, name) then 1 else 0)
            && FreeClusters(vol.geo, vol.disk) + |cur| == free + |ch| + (if ok then 0 else 1)
            && (ok ==> Placed(dir, now, dir', name, ATTR_DIRECTORY, cluster, index))
            && (!ok ==> dir' == now && SameLive(dir, dir', -1))
    ensures ok ==> Sound(vol, Regrown(chains, ch, cur) + {[cluster]}) && cluster !in cur
    ensures ok ==>
      EntryCreated(Entries(old(vol.disk), Sectors(vol.geo, ch)), Entries(vol.disk, Sectors(vol.geo, cur)), name,
                   ATTR_DIRECTORY, cluster, index)
    ensures ok ==> DirOf(vol.geo, vol.disk, cluster) == DirOf(vol.geo, old(vol.disk), cluster)
  {
    ghost var all := chains + {[cluster]};
    ok, index, cur := CreateEntry(vol, first, name, ATTR_DIRECTORY, cluster, all, ch);
    NewChainStays(chains, ch, cur, cluster);
    ChainData(vol.geo, Fat(vol.geo, vol.disk), Regrown(all, ch, cur), cur);
    CreatedElsewhere(vol.geo, d0, old(vol.disk), vol.disk, chains, ch, cur, cluster);
    if !ok {
      ghost var d := vol.disk;
      var freed := FreeChain(vol, Regrown(all, ch, cur), [cluster], cluster);
      assert Regrown(chains, ch, cur) + {[cluster]} - {[cluster]} == Regrown(chains, ch, cur);
      GivenBack(vol.geo, d, vol.disk, Fat(vol.geo, d), Regrown(all, ch, cur), cur);
      ChainsKeptFats(vol.geo, d0, d, vol.disk, chains, chains - {ch});
    }
  }

  /** Creating the entry of a new directory touches neither other chains nor the new
      directory itself. */
  lemma CreatedElsewhere(g: Geo, d0: seq<Block>, d1: seq<Block>, d2: seq<Block>, chains: set<seq<nat>>, ch: seq<nat>,
                         cur: seq<nat>, c: nat)
    requires Backed(g, d0) && Forest(Fat(g, d0), chains) && AllData(g, cur) && IsData(g, c) && Disjoint([c], cur)
    requires forall a :: a in chains && a != ch ==> Disjoint(a, cur)
    requires ChainsKept(g, d0, d1, chains) && OwnOnly(g, d1, d2, Sectors(g, cur))
    ensures ChainsKept(g, d0, d2, chains - {ch}) && DirOf(g, d2, c) == DirOf(g, d1, c)
  {
    var rest := chains - {ch};
    forall a, x | Has(rest, a) && x in Sectors(g, a) && x < |d0| ensures d2[x] == d0[x] {
      assert Has(chains, a);
      ChainData(g, Fat(g, d0), chains, a);
      SectorsIn(g, a);
      SectorsApart(g, a, cur);
      assert d1[x] == d0[x];
    }
    assert forall i {:trigger IsData(g, [c][i])} :: 0 <= i < 1 ==> IsData(g, [c][i]);
    SectorsIn(g, [c]);
    SectorsApart(g, [c], cur);
    var phys := Sectors(g, [c]);
    forall i | 0 <= i < |phys| ensures d2[phys[i]] == d1[phys[i]] { assert phys[i] in phys; }
    EntriesKept(d1, d2, phys);
  }

  /** Changing the tables keeps every chain's sectors. */
  lemma ChainsKeptFats(g: Geo, d0: seq<Block>, d1: seq<Block>, d2: seq<Block>, chains: set<seq<nat>>,
                       some: set<seq<nat>>)
    requires Backed(g, d0) && Forest(Fat(g, d0), chains) && some <= chains && ChainsKept(g, d0, d1, some)
    requires OnlyFats(g, d1, d2)
    ensures ChainsKept(g, d0, d2, some)
  {
    forall a, x | Has(some, a) && x in Sectors(g, a) && x < |d0| ensures d2[x] == d0[x] {
      assert Has(chains, a);
      ChainData(g, Fat(g, d0), chains, a);
      SectorsIn(g, a);
      assert d1[x] == d0[x];
    }
  }

  /** A cluster of its own for a new directory, with its dot entries. */
  method NewDirectoryCluster(vol: FatVolume, first: nat, ghost chains: set<seq<nat>>, ghost ch: seq<nat>)
    returns (ok: bool, cluster: nat)
    requires Sound(vol, chains) && ch in chains && ch != [] && first == ch[0]
    modifies vol
    ensures ok <==> FreeClusters(vol.geo, old(vol.disk)) > 0
    ensures Entries(vol.disk, Sectors(vol.geo, ch)) == Entries(old(vol.disk), Sectors(vol.geo, ch))
    ensures !ok ==> vol.disk == old(vol.disk) && Sound(vol, Regrown(chains, ch, ch))
    ensures ok ==> Sound(vol, chains + {[cluster]}) && [cluster] !in chains && ch != [cluster]
    ensures ok ==> IsData(vol.geo, cluster) && cluster < 0x1_0000_0000
    ensures ok ==> FreshDir(DirOf(vol.geo, vol.disk, cluster), cluster, first)
    ensures ok ==> ChainsKept(vol.geo, old(vol.disk), vol.disk, chains)
    ensures ok ==> FreeClusters(vol.geo, vol.disk) + 1 == FreeClusters(vol.geo, old(vol.disk))
  {
    ghost var g, d0, f := vol.geo, vol.disk, Fat(vol.geo, vol.disk);
    assert Regrown(chains, ch, ch) == chains;
    ChainData(g, f, chains, ch);
    assert IsData(g, ch[0]);
    ok, cluster := vol.AllocCluster();
    if !ok {
      FullForest(g, d0, chains);
      return;
    }
    ForestAlloc(f, chains, cluster);
    FreeTaken(g, d0, vol.disk, cluster, END);
    ghost var d1 := vol.disk;
    BlankCluster(g, d0, d1, cluster);
    InitDirectoryCluster(vol, cluster, first, chains + {[cluster]});
    ElsewhereKept(g, d0, d1, vol.disk, f, chains, ch, cluster);
    AllElsewhereKept(g, d0, d1, vol.disk, f, chains, cluster);
  }

  lemma BlankCluster(g: Geo, d: seq<Block>, d': seq<Block>, c: nat)
    requires Backed(g, d) && IsData(g, c) && Allocated(g, d, d', c)
    ensures forall x :: 0 <= x < |d'| && InCluster(g, c, g.spc, x) ==> d'[x] == ZeroBlock()
  {
    LbaInVolume(g, c);
  }

  lemma AllElsewhereKept(g: Geo, d0: seq<Block>, d1: seq<Block>, d2: seq<Block>, f: seq<nat>, chains: set<seq<nat>>,
                         c: nat)
    requires Backed(g, d0) && f == Fat(g, d0) && Forest(f, chains) && IsData(g, c) && forall a :: a in chains ==>
      c !in a
    requires Allocated(g, d0, d1, c) && OwnOnly(g, d1, d2, Sectors(g, [c]))
    ensures ChainsKept(g, d0, d2, chains)
  {
    OneClusterSectors(g, c);
    forall a, x | Has(chains, a) && x in Sectors(g, a) && x < |d0| ensures d2[x] == d0[x] {
      ChainData(g, f, chains, a);
      SectorsIn(g, a);
      SectorsApart(g, a, [c]);
      InRun(Lba(g, c), g.spc, x);
    }
  }

  /** The parent directory is not affected by setting up the new cluster. */
  lemma ElsewhereKept(g: Geo, d0: seq<Block>, d1: seq<Block>, d2: seq<Block>, f: seq<nat>, chains: set<seq<nat>>,
                      ch: seq<nat>, c: nat)
    requires Backed(g, d0) && f == Fat(g, d0) && Forest(f, chains) && ch in chains && c !in ch && IsData(g, c)
    requires Allocated(g, d0, d1, c) && OwnOnly(g, d1, d2, Sectors(g, [c]))
    ensures Entries(d2, Sectors(g, ch)) == Entries(d0, Sectors(g, ch))
  {
    ChainData(g, f, chains, ch);
    SectorsIn(g, ch);
    SectorsApart(g, ch, [c]);
    OneClusterSectors(g, c);
    var phys := Sectors(g, ch);
    forall i | 0 <= i < |phys| ensures d2[phys[i]] == d0[phys[i]] {
      assert phys[i] in phys;
      InRun(Lba(g, c), g.spc, phys[i]);
    }
    EntriesKept(d0, d2, phys);
  }

  lemma NewChainStays(chains: set<seq<nat>>, ch: seq<nat>, cur: seq<nat>, c: nat)
    requires ch in chains && ch != [] && ch <= cur && [c] !in chains
    requires forall a :: a in chains + {[c]} && a != ch ==> Disjoint(a, cur)
    ensures Regrown(chains + {[c]}, ch, cur) == Regrown(chains, ch, cur) + {[c]}
    ensures [c] !in Regrown(chains, ch, cur) && Disjoint([c], cur) && c !in cur
    ensures forall a :: a in chains && a != ch ==> Disjoint(a, cur)
  {
    assert [c] in chains + {[c]} && Disjoint([c], cur) && c in [c];
    assert cur[0] == ch[0];
  }

  /** Freeing another chain leaves a directory alone. */
  lemma GivenBack(g: Geo, d: seq<Block>, d': seq<Block>, f: seq<nat>, all: set<seq<nat>>, cur: seq<nat>)
    requires Backed(g, d) && f == Fat(g, d) && Forest(f, all) && cur in all && OnlyFats(g, d, d')
    ensures Entries(d', Sectors(g, cur)) == Entries(d, Sectors(g, cur))
  {
    ChainData(g, f, all, cur);
    SectorsIn(g, cur);
    EntriesKept(d, d', Sectors(g, cur));
  }
}
