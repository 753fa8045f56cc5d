/** Deleting an entry of a FAT32 directory (fs/fat32_dir.c), and unlink and rmdir
    (fs/fat32.c), which also give the entry's cluster chain back. */
module FatDelete {
  import opened Bitmap
  import opened Bytes
  import opened FatTable
  import opened FatChains
  import opened FatFiles
  import opened FatWrite
  import opened FatNames
  import opened FatDirs
  import opened FatAlias
  import opened FatEntries
  import opened FatCreate

  // ----- the long entries of a file -----

  /** How many long-name entries belong to an entry a scan has reached. */
  function LongCount(r: Raw, s: LfnState): nat
    requires |s.name| == NAME_SIZE
  {
    if HasLongName(r, s) then s.total else 0
  }

  /** The `n` entries before entry `i` are long-name entries. */
  ghost predicate LongBefore(dir: seq<Raw>, i: nat, n: nat) {
    n <= i <= |dir| && forall j {:trigger dir[j]} :: i - n <= j < i ==> !IsFree(dir[j]) && IsLong(dir[j])
  }

  /** What a scan has gathered it has gathered from the entries just before. */
  lemma {:induction false} GatheredBefore(dir: seq<Raw>, i: nat)
    requires i <= |dir|
    ensures var s := StateAt(dir, i);
            s.valid ==> s.nextOrder <= s.total && LongBefore(dir, i, s.total - s.nextOrder)
  {
    if i > 0 {
      GatheredBefore(dir, i - 1);
    }
  }

  lemma LongEntriesBefore(dir: seq<Raw>, k: nat)
    requires k < |dir|
    ensures LongBefore(dir, k, LongCount(dir[k], StateAt(dir, k)))
  {
    GatheredBefore(dir, k);
  }

  // ----- deleting -----

  /** An entry marked as deleted; the short one also loses its cluster and size. */
  function DeletedEntry(r: Raw, short: bool): Raw {
    [0xE5] + (if short then r[1..20] + Zeros(2) + r[22..26] + Zeros(6) else r[1..])
  }

  /** The last `n` entries up to entry `k` have been deleted. */
  ghost predicate PartlyDeleted(dir: seq<Raw>, now: seq<Raw>, k: nat, n: nat) {
    && |now| == |dir| && n <= k + 1 <= |dir|
    && forall j {:trigger now[j]} :: 0 <= j < |dir| ==>
       now[j] == if k - n < j <= k then DeletedEntry(dir[j], j == k) else dir[j]
  }

  /** Entry `k` and the long-name entries that belong to it have been deleted, and
      nothing else changed. */
  ghost predicate Deleted(dir: seq<Raw>, now: seq<Raw>, k: nat) {
    k < |dir| && PartlyDeleted(dir, now, k, LongCount(dir[k], StateAt(dir, k)) + 1)
  }

  /** Deletes one raw entry. */
  method DeleteOne(vol: FatVolume, first: nat, k: nat, short: bool, ghost chains: set<seq<nat>>, ghost ch: seq<nat>)
    returns (ok: bool)
    requires Sound(vol, chains) && ch in chains && ch != [] && first == ch[0] && k < 16 * |Sectors(vol.geo, ch)|
    modifies vol
    ensures ok && Sound(vol, chains) && OwnOnly(vol.geo, old(vol.disk), vol.disk, Sectors(vol.geo, ch))
    ensures var was := Entries(old(vol.disk), Sectors(vol.geo, ch));
            Entries(vol.disk, Sectors(vol.geo, ch)) == was[k := DeletedEntry(was[k], short)]
    ensures FreeClusters(vol.geo, vol.disk) == FreeClusters(vol.geo, old(vol.disk))
  {
    var placed, lba, offset := RawEntryPosition(vol, first, k, chains, ch);
    ghost var phys := Sectors(vol.geo, ch);
    ChainData(vol.geo, Fat(vol.geo, vol.disk), chains, ch);
    SectorsIn(vol.geo, ch);
    SectorsDistinct(vol.geo, ch);
    assert lba in phys && offset / 32 == k % 16;
    var r := EntryIn(vol.disk[lba], offset / 32);
    assert r == EntryAt(vol.disk, phys, k);
    EntriesUpdated(vol.disk, phys, k, DeletedEntry(r, short));
    ghost var d := vol.disk;
    ok := vol.WriteSector(lba, WithEntry(vol.disk[lba], offset / 32, DeletedEntry(r, short)));
    WritingKept(vol.geo, d, vol.disk, chains);
    FatKept(vol.geo, d, vol.disk);
  }

  lemma OneMoreDeleted(dir: seq<Raw>, was: seq<Raw>, k: nat, n: nat)
    requires PartlyDeleted(dir, was, k, n) && n <= k
    ensures was[k - n] == dir[k - n]
    ensures PartlyDeleted(dir, was[k - n := DeletedEntry(dir[k - n], n == 0)], k, n + 1)
  {}

  /** Deletes a short entry and the long-name entries before it, last one first. */
  method DeleteEntryChain(vol: FatVolume, first: nat, index: nat, count: nat, ghost chains: set<seq<nat>>,
                          ghost ch: seq<nat>)
    returns (ok: bool)
    requires Sound(vol, chains) && ch in chains && ch != [] && first == ch[0]
    requires count <= index < 16 * |Sectors(vol.geo, ch)|
    modifies vol
    ensures ok && Sound(vol, chains) && OwnOnly(vol.geo, old(vol.disk), vol.disk, Sectors(vol.geo, ch))
    ensures var phys := Sectors(vol.geo, ch);
      PartlyDeleted(Entries(old(vol.disk), phys), Entries(vol.disk, phys), index, count + 1)
    ensures FreeClusters(vol.geo, vol.disk) == FreeClusters(vol.geo, old(vol.disk))
  {
    ghost var phys := Sectors(vol.geo, ch);
    ghost var dir := Entries(vol.disk, phys);
    for i := 0 to count + 1
      invariant Sound(vol, chains) && OwnOnly(vol.geo, old(vol.disk), vol.disk, phys)
      invariant PartlyDeleted(dir, Entries(vol.disk, phys), index, i)
      invariant FreeClusters(vol.geo, vol.disk) == FreeClusters(vol.geo, old(vol.disk))
    {
      ghost var before, was := vol.disk, Entries(vol.disk, phys);
      OneMoreDeleted(dir, was, index, i);
      ok := DeleteOne(vol, first, index - i, i == 0, chains, ch);
      if !ok {
        return;
      }
      OwnOnlyTwice(vol.geo, old(vol.disk), before, vol.disk, phys);
    }
    ok := true;
  }

  /** Entry `k` is gone and all other files are as they were. */
  ghost predicate EntryGone(dir: seq<Raw>, dir': seq<Raw>, k: nat) {
    SameLive(dir, dir', k) && !LiveAt(dir', k) && WellFormed(dir')
  }

  lemma DeletedIsGone(dir: seq<Raw>, dir': seq<Raw>, k: nat, n: nat)
    requires WellFormed(dir) && PartlyDeleted(dir, dir', k, n + 1) && IsShort(dir[k]) && LongBefore(dir, k, n)
    ensures EntryGone(dir, dir', k)
  {
    assert forall j :: k - n <= j <= k ==> IsDeleted(dir'[j]);
    RewrittenLive(dir, dir', k - n, k);
    assert forall i {:trigger dir'[i]} :: 0 <= i < |dir'| && IsEnd(dir'[i]) ==> i > k && IsEnd(dir[i]);
    assert forall j {:trigger dir'[j]} :: k < j < |dir'| ==> dir'[j] == dir[j];
  }

  /** Deleting an entry changes no lookup but those that led to it. */
  lemma FindAfterDelete(dir: seq<Raw>, dir': seq<Raw>, k: nat, name: seq<Byte>)
    requires WellFormed(dir) && EntryGone(dir, dir', k) && Find(dir, name) != k
    ensures Find(dir', name) == Find(dir, name)
  {
    FindKept(dir, dir', k, name);
  }

  /** Deleting the entry just created makes every lookup what it was. */
  lemma DeleteUndoesCreate(dir: seq<Raw>, mid: seq<Raw>, after: seq<Raw>, k: nat, name: seq<Byte>)
    requires WellFormed(dir) && !LiveAt(dir, k) && SameLive(dir, mid, k) && EntryGone(mid, after, k)
    ensures Find(after, name) == Find(dir, name)
  {
    SameLiveTwice(dir, mid, after, k);
    FindIsFirst(dir, name, 0);
    assert Find(dir, name) >= 0 ==> LiveAt(dir, Find(dir, name));
    FindKept(dir, after, k, name);
  }

  // ----- unlink -----

  /** The chain of a file other than the directory that holds its entry. */
  ghost predicate OwnChain(chains: set<seq<nat>>, ch: seq<nat>, own: seq<nat>, cluster: nat) {
    own in chains && own != ch && own != [] && own[0] == cluster
  }

  /** Gives a chain back and then deletes the entry that named it. */
  method RemoveEntry(vol: FatVolume, first: nat, k: nat, count: nat, cluster: nat, hasChain: bool,
                     ghost chains: set<seq<nat>>, ghost ch: seq<nat>, ghost own: seq<nat>)
    returns (ok: bool)
    requires Sound(vol, chains) && ch in chains && ch != [] && first == ch[0]
    requires hasChain ==> OwnChain(chains, ch, own, cluster)
    requires var dir := Entries(vol.disk, Sectors(vol.geo, ch));
      WellFormed(dir) && LiveAt(dir, k) && LongBefore(dir, k, count)
    modifies vol
    ensures ok && Sound(vol, if hasChain then chains - {own} else chains)
    ensures OwnOnly(vol.geo, old(vol.disk), vol.disk, Sectors(vol.geo, ch))
    ensures EntryGone(Entries(old(vol.disk), Sectors(vol.geo, ch)), Entries(vol.disk, Sectors(vol.geo, ch)), k)
    ensures PartlyDeleted(Entries(old(vol.disk), Sectors(vol.geo, ch)), Entries(vol.disk, Sectors(vol.geo, ch)), k,
                          count + 1)
    ensures FreeClusters(vol.geo, vol.disk) == FreeClusters(vol.geo, old(vol.disk)) + if hasChain then |own| else 0
  {
    ghost var g, d0, left := vol.geo, vol.disk, chains;
    ghost var dir := Entries(d0, Sectors(g, ch));
    if hasChain {
      ok := FreeChain(vol, chains, own, cluster);
      GivenBack(g, d0, vol.disk, Fat(g, d0), chains, ch);
      left := chains - {own};
      if !ok {
        return;
      }
    }
    ghost var d1 := vol.disk;
    ok := DeleteEntryChain(vol, first, k, count, left, ch);
    DeletedIsGone(dir, Entries(vol.disk, Sectors(g, ch)), k, count);
    assert OwnOnly(g, d0, d1, Sectors(g, ch));
    OwnOnlyTwice(g, d0, d1, vol.disk, Sectors(g, ch));
  }

  /** Removes a file: its chain, if it has one, and its entries. */
  method UnlinkEntry(vol: FatVolume, first: nat, name: seq<Byte>, ghost chains: set<seq<nat>>, ghost ch: seq<nat>,
                     ghost own: seq<nat>)
    returns (ok: bool)
    requires Sound(vol, chains) && ch in chains && ch != [] && first == ch[0]
    requires WellFormed(Entries(vol.disk, Sectors(vol.geo, ch)))
    requires var dir := Entries(vol.disk, Sectors(vol.geo, ch));
             var k := Find(dir, name);
             k >= 0 && IsData(vol.geo, FirstCluster(dir[k])) ==> OwnChain(chains, ch, own, FirstCluster(dir[k]))
    modifies vol
    ensures var dir := Entries(old(vol.disk), Sectors(vol.geo, ch));
            var k := Find(dir, name);
            && (ok <==> k >= 0 && !IsDirectory(dir[k]))
            && (ok ==> Sound(vol, if IsData(vol.geo, FirstCluster(dir[k])) then chains - {own} else chains))
            && (ok ==> EntryGone(dir, Entries(vol.disk, Sectors(vol.geo, ch)), k))
            && (ok ==> Deleted(dir, Entries(vol.disk, Sectors(vol.geo, ch)), k))
            && (ok ==> FreeClusters(vol.geo, vol.disk) == FreeClusters(vol.geo, old(vol.disk))
                         + if IsData(vol.geo, FirstCluster(dir[k])) then |own| else 0)
    ensures !ok ==> vol.disk == old(vol.disk) && Sound(vol, chains)
    ensures OwnOnly(vol.geo, old(vol.disk), vol.disk, Sectors(vol.geo, ch))
  {
    var dir := ReadDirectory(vol, first, chains, ch);
    var k, state := FindEntry(dir, name);
    if k < 0 || IsDirectory(dir[k]) {
      return false;
    }
    var cluster := FirstCluster(dir[k]);
    LongEntriesBefore(dir, k);
    ok := RemoveEntry(vol, first, k, LongCount(dir[k], state), cluster, IsData(vol.geo, cluster), chains, ch, own);
  }

  /** Creating a file under a new name and unlinking it again: the chains are those of
      before, but for a cluster the directory may have grown by, and every lookup gives
      what it gave before. */
  method CreateThenUnlink(vol: FatVolume, first: nat, name: seq<Byte>, ghost chains: set<seq<nat>>, ghost ch: seq<nat>)
    returns (created: bool, removed: bool, ghost cur: seq<nat>)
    requires Sound(vol, chains) && ch in chains && ch != [] && first == ch[0]
    requires WellFormed(Entries(vol.disk, Sectors(vol.geo, ch)))
    requires 0 !in name && name != [] && if NeedsLong(name) then |name| <= 247 else name[|name| - 1] != PERIOD
    modifies vol
    ensures created <==>
      CanCreate(vol.geo, FreeClusters(vol.geo, old(vol.disk)), Entries(old(vol.disk), Sectors(vol.geo, ch)), name)
    ensures created ==> removed && Sound(vol, Regrown(chains, ch, cur)) && ch <= cur
    ensures created ==>
      forall n :: Find(Entries(vol.disk, Sectors(vol.geo, cur)), n) ==
        Find(Entries(old(vol.disk), Sectors(vol.geo, ch)), n)
  {
    ghost var dir := Entries(vol.disk, Sectors(vol.geo, ch));
    var index;
    removed := false;
    created, index, cur := CreateEntry(vol, first, name, 0, 0, chains, ch);
    if !created {
      return;
    }
    ghost var mid := Entries(vol.disk, Sectors(vol.geo, cur));
    NewIsFound(dir, mid, name, 0, 0, index);
    removed := UnlinkEntry(vol, first, name, Regrown(chains, ch, cur), cur, []);
    AllUndone(dir, mid, Entries(vol.disk, Sectors(vol.geo, cur)), index);
  }

  // ----- rmdir -----

  /** The files of a directory from entry `i` on, up to its end mark. */
  ghost function Lives(dir: seq<Raw>, i: nat): seq<nat>
    requires i <= |dir|
    decreases |dir| - i
  {
    if i == |dir| || IsEnd(dir[i]) then [] else (if IsShort(dir[i]) then [i] else []) + Lives(dir, i + 1)
  }

  lemma {:induction false} LivesAre(dir: seq<Raw>, i: nat)
    requires WellFormed(dir) && i <= |dir|
    ensures forall j: nat {:trigger LiveAt(dir, j)} {:trigger j in Lives(dir, i)} :: j in Lives(dir, i) <==>
      i <= j && LiveAt(dir, j)
    decreases |dir| - i
  {
    if i < |dir| {
      if IsEnd(dir[i]) {
        assert forall j {:trigger LiveAt(dir, j)} :: i < j < |dir| ==> IsEnd(dir[j]);
      } else {
        LivesAre(dir, i + 1);
      }
    }
  }

  /** File number `index` of a directory, with its name. */
  method GetDirEntry(dir: seq<Raw>, index: nat) returns (k: int, name: seq<Byte>)
    ensures k == if index < |Lives(dir, 0)| then Lives(dir, 0)[index] else -1
    ensures k >= 0 ==> k < |dir| && name == FileName(dir[k], StateAt(dir, k))
  {
    var state, current := Blank(), 0;
    for i := 0 to |dir|
      invariant state == StateAt(dir, i) && current <= index && |Lives(dir, 0)| == current + |Lives(dir, i)|
      invariant Lives(dir, 0)[current..] == Lives(dir, i)
    {
      var r := dir[i];
      if IsEnd(r) {
        return -1, [];
      }
      if !IsDeleted(r) && IsLong(r) {
        var _, next := Capture(state, r);
        state := next;
      } else if !IsShort(r) {
        state := Blank();
      } else {
        assert Lives(dir, 0)[current..][0] == i && Lives(dir, 0)[current..][1..] == Lives(dir, i + 1);
        if current == index {
          return i, FileName(r, state);
        }
        state, current := Blank(), current + 1;
      }
    }
    return -1, [];
  }

  method IsDirectoryEmpty(dir: seq<Raw>) returns (empty: bool)
    requires WellFormed(dir)
    ensures empty <==> OnlyDots(dir)
  {
    LivesAre(dir, 0);
    ghost var all := Lives(dir, 0);
    var index := 0;
    while true
      invariant index <= |all|
      invariant forall x :: 0 <= x < index ==>
        LiveAt(dir, all[x]) && IsDotName(FileName(dir[all[x]], StateAt(dir, all[x])))
      decreases |all| - index
    {
      var k, name := GetDirEntry(dir, index);
      if k < 0 {
        assert forall j: nat {:trigger LiveAt(dir, j)} :: LiveAt(dir, j) ==> j in all;
        return true;
      }
      assert all[index] in all && LiveAt(dir, all[index]);
      if !IsDotName(name) {
        return false;
      }
      index := index + 1;
    }
  }

  /** Removes a directory that holds nothing but its dot entries. */
  method RemoveDirectory(vol: FatVolume, first: nat, name: seq<Byte>, ghost chains: set<seq<nat>>, ghost ch: seq<nat>,
                         ghost own: seq<nat>)
    returns (ok: bool)
    requires Sound(vol, chains) && ch in chains && ch != [] && first == ch[0]
    requires WellFormed(Entries(vol.disk, Sectors(vol.geo, ch)))
    requires var dir := Entries(vol.disk, Sectors(vol.geo, ch));
             var k := Find(dir, name);
             k >= 0 && IsDirectory(dir[k]) ==>
               OwnChain(chains, ch, own, FirstCluster(dir[k])) && WellFormed(Entries(vol.disk, Sectors(vol.geo, own)))
    modifies vol
    ensures var dir := Entries(old(vol.disk), Sectors(vol.geo, ch));
            var k := Find(dir, name);
            && (ok <==> k >= 0 && IsDirectory(dir[k]) && OnlyDots(Entries(old(vol.disk), Sectors(vol.geo, own))))
            && (ok ==> EntryGone(dir, Entries(vol.disk, Sectors(vol.geo, ch)), k))
            && (ok ==> Deleted(dir, Entries(vol.disk, Sectors(vol.geo, ch)), k))
    ensures if ok then Sound(vol, chains - {own}) else vol.disk == old(vol.disk) && Sound(vol, chains)
    ensures ok ==> FreeClusters(vol.geo, vol.disk) == FreeClusters(vol.geo, old(vol.disk)) + |own|
    ensures OwnOnly(vol.geo, old(vol.disk), vol.disk, Sectors(vol.geo, ch))
  {
    var dir := ReadDirectory(vol, first, chains, ch);
    var k, state := FindEntry(dir, name);
    if k < 0 || !IsDirectory(dir[k]) {
      return false;
    }
    var cluster := FirstCluster(dir[k]);
    var inner := ReadDirectory(vol, cluster, chains, own);
    var empty := IsDirectoryEmpty(inner);
    if !empty {
      return false;
    }
    LongEntriesBefore(dir, k);
    ok := RemoveEntry(vol, first, k, LongCount(dir[k], state), cluster, true, chains, ch, own);
  }

  /** Making a directory under a new name and removing it again: the chains are those
      of before, but for a cluster the parent may have grown by, and every lookup gives
      what it gave before. */
  method MakeThenRemove(vol: FatVolume, first: nat, name: seq<Byte>, ghost chains: set<seq<nat>>, ghost ch: seq<nat>)
    returns (made: bool, removed: bool, ghost cur: seq<nat>)
    requires Sound(vol, chains) && ch in chains && ch != [] && first == ch[0]
    requires WellFormed(Entries(vol.disk, Sectors(vol.geo, ch)))
    requires 0 !in name && name != [] && if NeedsLong(name) then |name| <= 247 else name[|name| - 1] != PERIOD
    modifies vol
    ensures made <==>
      CanMakeDir(vol.geo, FreeClusters(vol.geo, old(vol.disk)), Entries(old(vol.disk), Sectors(vol.geo, ch)), name)
    ensures made ==> removed && Sound(vol, Regrown(chains, ch, cur)) && ch <= cur
    ensures made ==>
      forall n :: Find(Entries(vol.disk, Sectors(vol.geo, cur)), n) ==
        Find(Entries(old(vol.disk), Sectors(vol.geo, ch)), n)
  {
    ghost var dir := Entries(vol.disk, Sectors(vol.geo, ch));
    var index, cluster;
    removed := false;
    made, index, cluster, cur := MakeDirectory(vol, first, name, chains, ch);
    if !made {
      return;
    }
    NewApart(chains, ch, cur, cluster);
    removed := RemoveNew(vol, first, name, index, cluster, dir, Regrown(chains, ch, cur) + {[cluster]}, cur);
  }

  lemma NewApart(chains: set<seq<nat>>, ch: seq<nat>, cur: seq<nat>, c: nat)
    requires [c] !in chains && c !in cur
    ensures [c] !in Regrown(chains, ch, cur) && [c] != cur
    ensures Regrown(chains, ch, cur) + {[c]} - {[c]} == Regrown(chains, ch, cur)
  {
    assert c in [c];
  }

  /** Removes a directory that has just been made. */
  method RemoveNew(vol: FatVolume, first: nat, name: seq<Byte>, ghost k: nat, ghost cluster: nat, ghost dir: seq<Raw>,
                   ghost chains: set<seq<nat>>, ghost ch: seq<nat>)
    returns (ok: bool)
    requires Sound(vol, chains) && ch in chains && ch != [] && first == ch[0] && [cluster] in chains && [cluster] != ch
    requires WellFormed(dir) && WellFormed(Entries(vol.disk, Sectors(vol.geo, ch)))
    requires EntryCreated(dir, Entries(vol.disk, Sectors(vol.geo, ch)), name, ATTR_DIRECTORY, cluster, k)
    requires name != [] && if NeedsLong(name) then |name| <= 247 else name[|name| - 1] != PERIOD
    requires FreshDir(DirOf(vol.geo, vol.disk, cluster), cluster, first)
    modifies vol
    ensures ok && Sound(vol, chains - {[cluster]})
    ensures forall n :: Find(Entries(vol.disk, Sectors(vol.geo, ch)), n) == Find(dir, n)
  {
    ghost var mid := Entries(vol.disk, Sectors(vol.geo, ch));
    NewIsFound(dir, mid, name, ATTR_DIRECTORY, cluster, k);
    FreshIsEmpty(DirOf(vol.geo, vol.disk, cluster), cluster, first);
    ok := RemoveDirectory(vol, first, name, chains, ch, [cluster]);
    AllUndone(dir, mid, Entries(vol.disk, Sectors(vol.geo, ch)), k);
  }

  /** The entry just created is the one the name leads to. */
  lemma NewIsFound(dir: seq<Raw>, dir': seq<Raw>, name: seq<Byte>, attr: Byte, cluster: nat, k: nat)
    requires EntryCreated(dir, dir', name, attr, cluster, k) && name != []
    requires if NeedsLong(name) then |name| <= 247 else name[|name| - 1] != PERIOD
    ensures Find(dir', name) == k && k < |dir'| && dir'[k][11] == attr && FirstCluster(dir'[k]) == cluster
    ensures !LiveAt(dir, k) && SameLive(dir, dir', k) && (attr == ATTR_DIRECTORY ==> IsDirectory(dir'[k]))
  {}

  lemma AllUndone(dir: seq<Raw>, mid: seq<Raw>, after: seq<Raw>, k: nat)
    requires WellFormed(dir) && !LiveAt(dir, k) && SameLive(dir, mid, k) && EntryGone(mid, after, k)
    ensures forall n :: Find(after, n) == Find(dir, n)
  {
    forall n ensures Find(after, n) == Find(dir, n) { DeleteUndoesCreate(dir, mid, after, k, n); }
  }
}
