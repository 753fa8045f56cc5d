/** Writing to a FAT32 file and keeping its directory entry up to date
    (fs/fat32_file.c, fs/fat32_name.c): first cluster and size are written back into
    the entry, and nothing else in the parent directory changes. */
module FatUpdate {
  import opened Bitmap
  import opened Extents
  import opened Contents
  import opened FatTable
  import opened FatChains
  import opened FatFiles
  import opened FatWrite
  import opened FatNames
  import opened FatDirs
  import opened FatAlias
  import opened FatEntries
  import opened FatCreate

  /** A file as looking it up describes it, with the sector and offset of its entry;
      sector 0 stands for no entry. */
  datatype FatFile = FatFile(first: nat, size: nat, attr: Byte, lba: nat, offset: nat)

  /** The file's chain, long enough for its size; empty for a file without clusters. */
  ghost predicate FileOk(g: Geo, chains: set<seq<nat>>, file: FatFile, ch: seq<nat>) {
    if IsData(g, file.first) then ch in chains && ch != [] && ch[0] == file.first && file.size <= 512 * |Sectors(g, ch)|
    else ch == []
  }

  // ----- the entry of a file -----

  ghost predicate Describes(r: Raw, file: FatFile) {
    r[11] == file.attr && FirstCluster(r) == file.first && FileSize(r) == file.size
  }

  /** Entry `k` describes the file now; its name and times and all other entries are
      as they were. */
  ghost predicate Redescribed(dir: seq<Raw>, dir': seq<Raw>, k: nat, file: FatFile) {
    && |dir'| == |dir| && k < |dir| && Describes(dir'[k], file) && SameButFields(dir[k], dir'[k])
    && forall j {:trigger dir'[j]} :: 0 <= j < |dir| && j != k ==> dir'[j] == dir[j]
  }

  /** Where the entry of the file lies in its parent directory, if it has one. */
  ghost predicate EntryOf(g: Geo, d: seq<Block>, dirCh: seq<nat>, k: nat, file: FatFile) {
    var phys := Sectors(g, dirCh);
    && k < 16 * |phys| && file.lba == phys[k / 16] && file.offset == 32 * (k % 16)
    && Describes(Entries(d, phys)[k], file)
  }

  lemma RedescribedTwice(a: seq<Raw>, b: seq<Raw>, c: seq<Raw>, k: nat, f: FatFile, f': FatFile)
    requires Redescribed(a, b, k, f) && Redescribed(b, c, k, f')
    ensures Redescribed(a, c, k, f')
  {}

  lemma {:induction false} StatesKept(dir: seq<Raw>, dir': seq<Raw>, k: nat, file: FatFile, j: nat)
    requires Redescribed(dir, dir', k, file) && IsShort(dir[k]) && IsShort(dir'[k]) && j <= |dir|
    ensures StateAt(dir', j) == StateAt(dir, j)
  {
    if j > 0 {
      StatesKept(dir, dir', k, file, j - 1);
    }
  }

  /** An entry is called what it was called. */
  lemma NamesKept(r: Raw, r': Raw, s: LfnState, name: seq<Byte>)
    requires SameButFields(r, r') && |s.name| == NAME_SIZE
    ensures MatchesName(r', s, name) <==> MatchesName(r, s, name)
    ensures FileName(r', s) == FileName(r, s)
  {
    assert forall i :: 0 <= i < 11 ==> r'[i] == r'[..11][i] == r[..11][i] == r[i];
    ChecksumKept(r, r', 11);
    SameBlanks(r, r', 8);
    SameBlanks(r[8..], r'[8..], 3);
  }

  lemma {:induction false} SameBlanks(a: seq<Byte>, b: seq<Byte>, n: nat)
    requires n <= |a| && n <= |b| && forall i :: 0 <= i < n ==> a[i] == b[i]
    ensures UpToBlank(a, n) == UpToBlank(b, n)
  {
    if n > 0 {
      SameBlanks(a[1..], b[1..], n - 1);
    }
  }

  /** Rewriting the cluster and size of a file changes no lookup. */
  lemma FindRedescribed(dir: seq<Raw>, dir': seq<Raw>, k: nat, file: FatFile, name: seq<Byte>)
    requires Redescribed(dir, dir', k, file) && WellFormed(dir) && IsShort(dir[k]) && file.attr == dir[k][11]
    ensures Find(dir', name) == Find(dir, name) && WellFormed(dir') && IsShort(dir'[k])
    ensures SameLive(dir, dir', k)
  {
    assert dir'[k][0] == dir'[k][..11][0] == dir[k][..11][0] == dir[k][0];
    forall j: nat | j <= |dir| ensures StateAt(dir', j) == StateAt(dir, j) { StatesKept(dir, dir', k, file, j); }
    forall j: nat | j < |dir| ensures Hit(dir', name, j) <==> Hit(dir, name, j) {
      if j == k {
        NamesKept(dir[k], dir'[k], StateAt(dir, k), name);
      }
    }
    assert WellFormed(dir') by {
      forall i, j | 0 <= i < j < |dir'| && IsEnd(dir'[i]) ensures IsEnd(dir'[j]) {
        assert IsEnd(dir[i]) && IsEnd(dir[j]);
      }
    }
    FindIsFirst(dir, name, 0);
    FindIsFirst(dir', name, 0);
    var x, y := Find(dir, name), Find(dir', name);
    assert x >= 0 ==> Hit(dir', name, x);
    assert y >= 0 ==> Hit(dir, name, y);
  }

  /** Only the tables, the sectors `phys` and the sector `lba` differ. */
  ghost predicate OwnAndEntry(g: Geo, d0: seq<Block>, d: seq<Block>, phys: seq<nat>, lba: nat) {
    |d| == |d0| && forall x {:trigger d[x]} :: 0 <= x < |d0| && !InFats(g, x) && x !in phys && x != lba ==>
      d[x] == d0[x]
  }

  /** Writes attributes, first cluster and size of a file back into its entry. */
  method UpdateEntry(vol: FatVolume, file: FatFile, ghost was: FatFile, ghost chains: set<seq<nat>>,
                     ghost dirCh: seq<nat>, ghost k: nat)
    returns (ok: bool)
    requires Sound(vol, chains) && dirCh in chains && file.first < 0x1_0000_0000 && file.size < 0x1_0000_0000
    requires file.lba != 0 ==> EntryOf(vol.geo, vol.disk, dirCh, k, was) && file.lba == was.lba
    requires file.lba != 0 ==> file.offset == was.offset
    modifies vol
    ensures Sound(vol, chains) && (ok <==> file.lba != 0) && OwnAndEntry(vol.geo, old(vol.disk), vol.disk, [], file.lba)
    ensures TablesSame(vol.geo, old(vol.disk), vol.disk)
    ensures FreeClusters(vol.geo, vol.disk) == FreeClusters(vol.geo, old(vol.disk))
    ensures ok ==> EntryOf(vol.geo, vol.disk, dirCh, k, file) && file.lba in Sectors(vol.geo, dirCh)
    ensures ok ==>
      Redescribed(Entries(old(vol.disk), Sectors(vol.geo, dirCh)), Entries(vol.disk, Sectors(vol.geo, dirCh)), k, file)
    ensures !ok ==> vol.disk == old(vol.disk)
  {
    if file.lba == 0 || file.offset + 32 > 512 {
      return false;
    }
    ghost var d, phys := vol.disk, Sectors(vol.geo, dirCh);
    ChainData(vol.geo, Fat(vol.geo, vol.disk), chains, dirCh);
    SectorsIn(vol.geo, dirCh);
    SectorsDistinct(vol.geo, dirCh);
    assert file.lba in phys && file.offset / 32 == k % 16;
    var r := EntryIn(vol.disk[file.lba], file.offset / 32);
    assert r == EntryAt(vol.disk, phys, k);
    var r' := WithFields(r, file.attr, file.first, file.size);
    WithFieldsAre(r, file.attr, file.first, file.size);
    EntriesUpdated(vol.disk, phys, k, r');
    ok := vol.WriteSector(file.lba, WithEntry(vol.disk[file.lba], file.offset / 32, r'));
    WritingKept(vol.geo, d, vol.disk, chains);
    FatKept(vol.geo, d, vol.disk);
  }

  // ----- what other files see -----

  lemma ContentsKept(g: Geo, d: seq<Block>, d': seq<Block>, chains: set<seq<nat>>, a: seq<nat>, size: nat)
    requires GeoOk(g) && |d| >= g.partition + g.total && ChainsKept(g, d, d', chains) && a in chains && AllData(g, a)
    ensures Content(d', Sectors(g, a), size) == Content(d, Sectors(g, a), size)
    ensures Entries(d', Sectors(g, a)) == Entries(d, Sectors(g, a))
  {
    SectorsIn(g, a);
    assert Has(chains, a);
    forall i | 0 <= i < |Sectors(g, a)| ensures d'[Sectors(g, a)[i]] == d[Sectors(g, a)[i]] {
      assert Sectors(g, a)[i] in Sectors(g, a);
    }
    ContentKept(d, d', Sectors(g, a), size);
    EntriesKept(d, d', Sectors(g, a));
  }

  /** A write to the sectors of `cur` and to one sector of `dirCh` reaches no other
      chain. */
  lemma OthersKept(g: Geo, d: seq<Block>, d': seq<Block>, f: seq<nat>, chains: set<seq<nat>>, ch: seq<nat>,
                   cur: seq<nat>, dirCh: seq<nat>, lba: nat)
    requires Backed(g, d) && |f| == g.clusters + 2 && Forest(f, chains) && AllData(g, cur) && dirCh in chains
    requires (forall a :: a in chains && a != ch ==> Disjoint(a, cur)) && (lba == 0 || lba in Sectors(g, dirCh))
    requires OwnAndEntry(g, d, d', Sectors(g, cur), lba)
    ensures ChainsKept(g, d, d', Others(chains, ch, dirCh, lba))
  {
    var rest := Others(chains, ch, dirCh, lba);
    ChainData(g, f, chains, dirCh);
    forall a, x | Has(rest, a) && x in Sectors(g, a) && x < |d| ensures d'[x] == d[x] {
      assert Has(chains, a) && Has(chains, dirCh);
      ChainData(g, f, chains, a);
      SectorsIn(g, a);
      SectorsApart(g, a, cur);
      if lba != 0 {
        SectorsApart(g, a, dirCh);
      }
      assert Within(Sectors(g, a), g.DataStart(), g.partition + g.total);
    }
  }

  /** The chains a write to the file of chain `ch` has nothing to do with. */
  ghost function Others(chains: set<seq<nat>>, ch: seq<nat>, dirCh: seq<nat>, lba: nat): set<seq<nat>> {
    chains - {ch} - (if lba == 0 then {} else {dirCh})
  }

  // ----- the first cluster -----

  /** The file has a first cluster, or can be given one and record it. */
  ghost predicate CanStart(g: Geo, free: nat, file: FatFile) {
    IsData(g, file.first) || (file.size == 0 && file.first == 0 && free > 0 && file.lba != 0)
  }

  /** What a file's entry says, if it has one. */
  ghost predicate EntryKnown(g: Geo, d: seq<Block>, dirCh: seq<nat>, k: nat, file: FatFile) {
    file.lba != 0 ==> EntryOf(g, d, dirCh, k, file)
  }

  /** The parent directory, if the file has an entry: nothing but the entry changed,
      and it describes the file. */
  ghost predicate EntryFollows(g: Geo, d: seq<Block>, d': seq<Block>, dirCh: seq<nat>, k: nat, file: FatFile) {
    && EntryKnown(g, d', dirCh, k, file)
    && (file.lba != 0 ==> Redescribed(Entries(d, Sectors(g, dirCh)), Entries(d', Sectors(g, dirCh)), k, file))
  }

  lemma EntryStays(g: Geo, d: seq<Block>, d': seq<Block>, dirCh: seq<nat>, k: nat, file: FatFile)
    requires EntryKnown(g, d, dirCh, k, file) && Entries(d', Sectors(g, dirCh)) == Entries(d, Sectors(g, dirCh))
    ensures EntryFollows(g, d, d', dirCh, k, file)
  {}

  /** Gives a file its first cluster if it has none yet, and records it in the file's
      entry; when there is no entry to record it in, the cluster is given back. */
  method EnsureFirstCluster(vol: FatVolume, file: FatFile, ghost chains: set<seq<nat>>, ghost ch: seq<nat>,
                            ghost dirCh: seq<nat>, ghost k: nat)
    returns (ok: bool, file': FatFile, ghost cur: seq<nat>)
    requires Sound(vol, chains) && FileOk(vol.geo, chains, file, ch) && dirCh in chains && dirCh != ch
    requires EntryKnown(vol.geo, vol.disk, dirCh, k, file)
    modifies vol
    ensures Sound(vol, Regrown(chains, ch, cur)) && ch <= cur
    ensures forall a :: a in chains && a != ch ==> Disjoint(a, cur)
    ensures ok <==> CanStart(vol.geo, FreeClusters(vol.geo, old(vol.disk)), file)
    ensures FreeClusters(vol.geo, vol.disk) + |cur| == FreeClusters(vol.geo, old(vol.disk)) + |ch|
    ensures EntryFollows(vol.geo, old(vol.disk), vol.disk, dirCh, k, file')
    ensures ok ==> cur != [] && file' == file.(first := cur[0])
    ensures ok ==> OwnAndEntry(vol.geo, old(vol.disk), vol.disk, Sectors(vol.geo, cur), file.lba)
    ensures ok ==> if ch == [] then |cur| == 1 && file.size == 0 else cur == ch && vol.disk == old(vol.disk)
    ensures ok && ch == [] ==> FirstFree(vol.geo, Fat(vol.geo, old(vol.disk)), cur[0])
    ensures !ok ==> cur == ch == [] && file' == file && ChainsKept(vol.geo, old(vol.disk), vol.disk, chains)
  {
    file', cur := file, ch;
    NothingWritten(vol, chains, ch, file);
    EntryStays(vol.geo, vol.disk, vol.disk, dirCh, k, file);
    if IsData(vol.geo, file.first) {
      return true, file, ch;
    }
    if file.size != 0 || file.first != 0 {
      return false, file, ch;
    }
    var c;
    ok, c := vol.AllocCluster();
    if !ok {
      FullForest(vol.geo, vol.disk, chains);
      return false, file, ch;
    }
    ghost var d1 := vol.disk;
    StartedChain(vol.geo, old(vol.disk), d1, chains, dirCh, c);
    file' := file.(first := c);
    ok := UpdateEntry(vol, file', file, chains + {[c]}, dirCh, k);
    if ok {
      cur := [c];
      StartedFrame(vol.geo, old(vol.disk), d1, vol.disk, c, file.lba);
      return;
    }
    ok := FreeChain(vol, chains + {[c]}, [c], c);
    GaveBackCluster(vol.geo, old(vol.disk), d1, vol.disk, chains, c);
    EntryStays(vol.geo, old(vol.disk), vol.disk, dirCh, k, file);
    return false, file, ch;
  }

  lemma StartedChain(g: Geo, d0: seq<Block>, d1: seq<Block>, chains: set<seq<nat>>, dirCh: seq<nat>, c: nat)
    requires Backed(g, d0) && Backed(g, d1) && Forest(Fat(g, d0), chains) && dirCh in chains && IsData(g, c)
    requires Fat(g, d0)[c] == 0 && Allocated(g, d0, d1, c) && Fat(g, d1) == Fat(g, d0)[c := END]
    ensures Forest(Fat(g, d1), chains + {[c]}) && [c] !in chains && Regrown(chains, [], [c]) == chains + {[c]}
    ensures FreeClusters(g, d1) + 1 == FreeClusters(g, d0)
    ensures forall a :: a in chains ==> c !in a && Disjoint(a, [c])
    ensures Entries(d1, Sectors(g, dirCh)) == Entries(d0, Sectors(g, dirCh))
  {
    var f := Fat(g, d0);
    ForestAlloc(f, chains, c);
    FreeTaken(g, d0, d1, c, END);
    NoEmptyChain(f, chains);
    AppendedApart(chains, [], [], c);
    assert [] + [c] == [c];
    ElsewhereKept(g, d0, d1, d1, f, chains, dirCh, c);
  }

  lemma StartedFrame(g: Geo, d0: seq<Block>, d1: seq<Block>, d2: seq<Block>, c: nat, lba: nat)
    requires IsData(g, c) && Allocated(g, d0, d1, c) && OwnAndEntry(g, d1, d2, [], lba) && TablesSame(g, d1, d2)
    ensures OwnAndEntry(g, d0, d2, Sectors(g, [c]), lba)
  {
    OneClusterSectors(g, c);
    forall x | 0 <= x < |d0| && !InFats(g, x) && x !in Sectors(g, [c]) && x != lba ensures d2[x] == d0[x] {
      InRun(Lba(g, c), g.spc, x);
      assert d2[x] == d1[x];
    }
  }

  lemma GaveBackCluster(g: Geo, d0: seq<Block>, d1: seq<Block>, d2: seq<Block>, chains: set<seq<nat>>, c: nat)
    requires Backed(g, d0) && Backed(g, d2) && Forest(Fat(g, d0), chains) && IsData(g, c) && Fat(g, d0)[c] == 0
    requires Allocated(g, d0, d1, c) && OnlyFats(g, d1, d2) && Fat(g, d2) == Cleared(Fat(g, d0)[c := END], [c])
    requires forall a :: a in chains ==> c !in a
    ensures Fat(g, d2) == Fat(g, d0) && FreeClusters(g, d2) == FreeClusters(g, d0) && ChainsKept(g, d0, d2, chains)
    ensures forall a :: a in chains ==> Entries(d2, Sectors(g, a)) == Entries(d0, Sectors(g, a))
  {
    assert Fat(g, d2) == Fat(g, d0);
    OneClusterSectors(g, c);
    forall a, x | Has(chains, a) && x in Sectors(g, a) && x < |d0| ensures d2[x] == d0[x] {
      ChainData(g, Fat(g, d0), chains, a);
      SectorsIn(g, a);
      SectorsApart(g, a, [c]);
      InRun(Lba(g, c), g.spc, x);
      assert d2[x] == d1[x];
    }
    forall a | a in chains ensures Entries(d2, Sectors(g, a)) == Entries(d0, Sectors(g, a)) {
      ChainData(g, Fat(g, d0), chains, a);
      ContentsKept(g, d0, d2, chains, a, 0);
    }
  }

  lemma NothingWritten(vol: FatVolume, chains: set<seq<nat>>, ch: seq<nat>, file: FatFile)
    requires Sound(vol, chains) && FileOk(vol.geo, chains, file, ch)
    ensures Sound(vol, Regrown(chains, ch, ch)) && Regrown(chains, ch, ch) == chains
    ensures forall a :: a in chains && a != ch ==> Disjoint(a, ch)
  {
    NoEmptyChain(Fat(vol.geo, vol.disk), chains);
    assert Regrown(chains, ch, ch) == chains;
    if ch != [] {
      FileWriting(vol, chains, ch);
    }
  }

  // ----- writing -----

  /** The bytes `part` are in place at an offset of a file, and the others of its old
      bytes are what they were. */
  ghost predicate BytesStored(g: Geo, d: seq<Block>, ch: seq<nat>, size: nat, d': seq<Block>, cur: seq<nat>, size': nat,
                              offset: nat, part: seq<Byte>)
  {
    && offset <= size
    && var m := Min(size', Max(size, offset + |part|));
       Content(d', Sectors(g, cur), size')[..m] == Overwrite(Content(d, Sectors(g, ch), size), offset, part)[..m]
  }

  ghost predicate IsLeast(g: Geo, offset: nat, n: nat, c: nat, r: nat) {
    r <= c && (r == c || Enough(g, offset, n, r)) && (r > 0 ==> !Enough(g, offset, n, r - 1))
  }

  lemma {:induction false} LeastExists(g: Geo, offset: nat, n: nat, c: nat)
    ensures exists r: nat :: IsLeast(g, offset, n, c, r)
  {
    if c > 0 && Enough(g, offset, n, c - 1) {
      LeastExists(g, offset, n, c - 1);
      var r: nat :| IsLeast(g, offset, n, c - 1, r);
      assert IsLeast(g, offset, n, c, r);
    } else {
      assert IsLeast(g, offset, n, c, c);
    }
  }

  /** The least number of clusters that is enough for a request, given that `c` is. */
  ghost function Clusters(g: Geo, offset: nat, n: nat, c: nat): nat {
    LeastExists(g, offset, n, c);
    var r: nat :| IsLeast(g, offset, n, c, r);
    r
  }

  lemma ClustersAre(g: Geo, offset: nat, n: nat, c: nat, used: nat)
    requires Enough(g, offset, n, c) && 0 < used && Enough(g, offset, n, used) && !Enough(g, offset, n, used - 1)
    ensures used == Clusters(g, offset, n, c)
  {
    var r := Clusters(g, offset, n, c);
    if r < used {
      EnoughMore(g, offset, n, r, used - 1);
    } else if used < r {
      EnoughMore(g, offset, n, used, r - 1);
    }
  }

  /** How many bytes a write that succeeds reports: all of them, unless it reached into
      the last sector. */
  ghost function Transferred(g: Geo, offset: nat, n: nat, c: nat): nat {
    if offset + n <= LAST_SECTOR then n else Copied(offset, offset + n, SectorCount(g, Clusters(g, offset, n, c)))
  }

  /** The size of a file after a write that reported so many bytes. */
  ghost function SizeAfter(size: nat, offset: nat, written: nat): nat {
    Max(size, (offset + written) % 0x1_0000_0000)
  }

  /** What a write that visited `n` sectors has stored where it belongs. */
  ghost function StoredBy(offset: nat, buf: seq<Byte>, n: nat): seq<Byte> {
    var all := Storable(offset, buf);
    all[..Done(offset, offset + |all|, 512 * n)]
  }

  /** What is stored of a request once there are `c` clusters for it. */
  ghost function PartStored(g: Geo, offset: nat, buf: seq<Byte>, c: nat): seq<Byte> {
    if Enough(g, offset, |buf|, c) then Storable(offset, buf) else StoredBy(offset, buf, SectorCount(g, c))
  }

  /** Writes the data of a file that has a first cluster. */
  method WriteData(vol: FatVolume, first: nat, size: nat, offset: nat, buf: seq<Byte>, ghost chains: set<seq<nat>>,
                   ghost ch: seq<nat>)
    returns (ok: bool, written: nat, ghost cur: seq<nat>)
    requires Sound(vol, chains) && ch in chains && ch != [] && first == ch[0]
    requires offset <= size <= 512 * |Sectors(vol.geo, ch)| && buf != [] && offset + |buf| < 0x1_0000_0000
    requires size < 0x1_0000_0000
    modifies vol
    ensures Sound(vol, Regrown(chains, ch, cur)) && ch <= cur
    ensures forall a :: a in chains && a != ch ==> Disjoint(a, cur)
    ensures AllData(vol.geo, cur) && OwnOnly(vol.geo, old(vol.disk), vol.disk, Sectors(vol.geo, cur))
    ensures FreeClusters(vol.geo, vol.disk) + |cur| == FreeClusters(vol.geo, old(vol.disk)) + |ch|
    ensures var c := |ch| + FreeClusters(vol.geo, old(vol.disk));
            && DataCounts(vol.geo, offset, |buf|, |ch|, c, ok, written, |cur|)
            && var size' := if ok then SizeAfter(size, offset, written) else size;
               && size' <= 512 * |Sectors(vol.geo, cur)|
               && BytesStored(vol.geo, old(vol.disk), ch, size, vol.disk, cur, size', offset,
                              PartStored(vol.geo, offset, buf, c))
  {
    ghost var d0, phys0, n, used := vol.disk, Sectors(vol.geo, ch), 0, 0;
    ghost var c := |ch| + FreeClusters(vol.geo, vol.disk);
    FileWriting(vol, chains, ch);
    GrownAny(d0, phys0, d0, phys0, offset, Storable(offset, buf));
    ok, written, cur, n, used := WriteOn(vol, first, offset, buf, d0, phys0, chains, ch, ch);
    WritingFacts(vol, d0, chains, ch, cur);
    DataCounted(vol.geo, offset, buf, ch, cur, c, ok, n, used, written);
    PrefixFits(vol.geo, ch, cur, size);
    ghost var size' := if ok then SizeAfter(size, offset, written) else size;
    SizeHeld(size, offset, written, 512 * |Sectors(vol.geo, cur)|, ok);
    GrownPart(vol.geo, d0, ch, vol.disk, cur, size, size', offset, buf, n);
  }

  /** Success, number of clusters and bytes reported of a write to a chain of `len`
      clusters, when it can have at most `c`. */
  ghost predicate DataCounts(g: Geo, offset: nat, n: nat, len: nat, c: nat, ok: bool, written: nat, len': nat) {
    && (ok <==> Enough(g, offset, n, c))
    && len' == (if ok then Max(len, Clusters(g, offset, n, c)) else c)
    && (ok ==> written == Transferred(g, offset, n, c))
  }

  /** What the write loop has done, by the number of clusters there were. */
  lemma DataCounted(g: Geo, offset: nat, buf: seq<Byte>, ch: seq<nat>, cur: seq<nat>, c: nat, ok: bool, n: nat,
                    used: nat, written: nat)
    requires buf != [] && offset + |buf| < 0x1_0000_0000 && n <= |Sectors(g, cur)|
    requires written == Copied(offset, offset + |buf|, n) && (ok <==> Enough(g, offset, |buf|, c))
    requires ok ==> 0 < used && |cur| == Max(|ch|, used)
    requires ok ==> Enough(g, offset, |buf|, used) && !Enough(g, offset, |buf|, used - 1)
    requires ok && offset + |buf| <= LAST_SECTOR ==> written == |buf| && offset + |buf| <= 512 * n
    requires ok && offset + |buf| > LAST_SECTOR ==> n == SectorCount(g, used)
    requires !ok ==> |cur| == c && n == |Sectors(g, cur)|
    ensures DataCounts(g, offset, |buf|, |ch|, c, ok, written, |cur|)
    ensures PartStored(g, offset, buf, c) == StoredBy(offset, buf, n)
    ensures ok ==> (offset + written) % 0x1_0000_0000 <= 512 * |Sectors(g, cur)|
  {
    if ok {
      ClustersAre(g, offset, |buf|, c, used);
      AllStored(g, offset, buf, cur, n, used, written);
    } else {
      BaseIs(g, cur, |cur|);
      BaseEnds(g, cur);
    }
  }

  /** A write that succeeds has stored all it can, and its chain holds its size. */
  lemma AllStored(g: Geo, offset: nat, buf: seq<Byte>, cur: seq<nat>, n: nat, used: nat, written: nat)
    requires buf != [] && offset + |buf| < 0x1_0000_0000 && n <= |Sectors(g, cur)|
    requires Enough(g, offset, |buf|, used) && written == Copied(offset, offset + |buf|, n)
    requires offset + |buf| <= LAST_SECTOR ==> written == |buf| && offset + |buf| <= 512 * n
    requires offset + |buf| > LAST_SECTOR ==> n == SectorCount(g, used)
    ensures StoredBy(offset, buf, n) == Storable(offset, buf)
    ensures (offset + written) % 0x1_0000_0000 <= 512 * |Sectors(g, cur)|
  {
    var all := Storable(offset, buf);
    if offset + |buf| > LAST_SECTOR {
      EnoughIsMore(g, offset, |buf|, used);
      assert 512 * n > 0x1_0000_0000;
    }
    assert offset + |all| <= 512 * n || all == [];
    assert all[..|all|] == all;
  }

  /** The bytes of a file whose first `n` sectors a write has visited. */
  lemma GrownPart(g: Geo, d0: seq<Block>, ch: seq<nat>, d: seq<Block>, cur: seq<nat>, size: nat, size': nat,
                  offset: nat, buf: seq<Byte>, n: nat)
    requires Grown(d0, Sectors(g, ch), d, Sectors(g, cur), offset, Storable(offset, buf), 512 * n)
    requires offset <= size <= 512 * |Sectors(g, ch)| && n <= |Sectors(g, cur)|
    requires size <= size' <= 512 * |Sectors(g, cur)| && size' < 0x1_0000_0000
    ensures BytesStored(g, d0, ch, size, d, cur, size', offset, StoredBy(offset, buf, n))
  {
    var before, after := Content(d0, Sectors(g, ch), size), Content(d, Sectors(g, cur), size');
    var part := StoredBy(offset, buf, n);
    var all, m := Overwrite(before, offset, part), Min(size', Max(size, offset + |part|));
    forall i | 0 <= i < m ensures after[i] == all[i] {
      assert after[i] == ByteAt(d, Sectors(g, cur), i);
      assert i < size ==> before[i] == ByteAt(d0, Sectors(g, ch), i);
    }
  }

  lemma SizeHeld(size: nat, offset: nat, written: nat, room: nat, ok: bool)
    requires size <= room && size < 0x1_0000_0000 && (ok ==> (offset + written) % 0x1_0000_0000 <= room)
    ensures ok ==> size <= SizeAfter(size, offset, written) <= room && SizeAfter(size, offset, written) < 0x1_0000_0000
  {}

  lemma PrefixFits(g: Geo, ch: seq<nat>, cur: seq<nat>, size: nat)
    requires ch <= cur && size <= 512 * |Sectors(g, ch)|
    ensures size <= 512 * |Sectors(g, cur)|
  {
    SectorsPrefix(g, ch, cur);
  }

  lemma DirectoryApart(g: Geo, d0: seq<Block>, d: seq<Block>, chains: set<seq<nat>>, dirCh: seq<nat>, cur: seq<nat>)
    requires Backed(g, d0) && Forest(Fat(g, d0), chains) && dirCh in chains && AllData(g, cur) && Disjoint(dirCh, cur)
    requires OwnOnly(g, d0, d, Sectors(g, cur))
    ensures Entries(d, Sectors(g, dirCh)) == Entries(d0, Sectors(g, dirCh))
  {
    ChainData(g, Fat(g, d0), chains, dirCh);
    SectorsIn(g, dirCh);
    SectorsApart(g, dirCh, cur);
    var phys := Sectors(g, dirCh);
    forall i | 0 <= i < |phys| ensures d[phys[i]] == d0[phys[i]] { assert phys[i] in phys; }
    EntriesKept(d0, d, phys);
  }

  /** The write gets as far as looking for clusters. */
  ghost predicate Begins(g: Geo, free: nat, file: FatFile, offset: nat, n: nat) {
    file.attr / ATTR_DIRECTORY % 2 == 0 && offset <= file.size && n > 0 && CanStart(g, free, file)
  }

  /** When a write of `n` bytes to a file of so many clusters succeeds. */
  ghost predicate CanWrite(g: Geo, free: nat, file: FatFile, clusters: nat, offset: nat, n: nat) {
    && file.attr / ATTR_DIRECTORY % 2 == 0 && offset <= file.size
    && (n == 0 || (&& CanStart(g, free, file) && offset + n < 0x1_0000_0000 && Enough(g, offset, n, clusters + free)
                   && (file.lba != 0 || NewSize(g, free, file, clusters, offset, n) == file.size)))
  }

  /** The size a write that gets all the clusters it needs leaves. */
  ghost function NewSize(g: Geo, free: nat, file: FatFile, clusters: nat, offset: nat, n: nat): nat {
    if n == 0 then file.size else SizeAfter(file.size, offset, Transferred(g, offset, n, clusters + free))
  }

  /** How many clusters a file has after a write, successful or not. */
  ghost function LengthAfter(g: Geo, free: nat, file: FatFile, clusters: nat, offset: nat, n: nat): nat {
    if !Begins(g, free, file, offset, n) then clusters
    else if offset + n >= 0x1_0000_0000 then Max(clusters, 1)
    else if Enough(g, offset, n, clusters + free) then Max(clusters, Clusters(g, offset, n, clusters + free))
    else clusters + free
  }

  /** Success, size, number of clusters and bytes reported, all as the state before the
      write decides them. */
  ghost predicate WriteCounts(g: Geo, free: nat, file: FatFile, clusters: nat, offset: nat, n: nat, ok: bool,
                              size': nat, clusters': nat, written: nat) {
    && (ok <==> CanWrite(g, free, file, clusters, offset, n))
    && clusters' == LengthAfter(g, free, file, clusters, offset, n)
    && (ok ==> size' == NewSize(g, free, file, clusters, offset, n))
    && (ok ==> written == if n == 0 then 0 else Transferred(g, offset, n, clusters + free))
  }

  /** The bytes a write, successful or not, has put in place. */
  ghost function PartAfter(g: Geo, free: nat, file: FatFile, clusters: nat, offset: nat, buf: seq<Byte>): seq<Byte> {
    if Begins(g, free, file, offset, |buf|) && offset + |buf| < 0x1_0000_0000
    then PartStored(g, offset, buf, clusters + free) else []
  }

  /** A write that succeeds has put its whole buffer in place if and only if it ends at or
      before the last sector. */
  lemma WrittenRight(g: Geo, free: nat, file: FatFile, clusters: nat, offset: nat, buf: seq<Byte>)
    requires buf != [] && CanWrite(g, free, file, clusters, offset, |buf|)
    ensures PartAfter(g, free, file, clusters, offset, buf) == buf <==> offset + |buf| <= LAST_SECTOR
    ensures offset + |buf| <= LAST_SECTOR ==>
      NewSize(g, free, file, clusters, offset, |buf|) == Max(file.size, offset + |buf|)
  {
    if offset + |buf| <= LAST_SECTOR {
      assert buf[..|buf|] == buf;
    } else {
      EnoughIsMore(g, offset, |buf|, clusters + free);
    }
  }

  /** A write that starts in the last sector, for one the byte that would bring a file to
      the largest size FAT32 allows, stores nothing, takes every free cluster and fails. */
  lemma LastSectorLost(g: Geo, free: nat, file: FatFile, clusters: nat, offset: nat, buf: seq<Byte>)
    requires Begins(g, free, file, offset, |buf|) && LAST_SECTOR <= offset && offset + |buf| < 0x1_0000_0000
    ensures !CanWrite(g, free, file, clusters, offset, |buf|)
    ensures LengthAfter(g, free, file, clusters, offset, |buf|) == clusters + free
    ensures PartAfter(g, free, file, clusters, offset, buf) == []
  {
    CopiedNothing(offset, offset + |buf|, SectorCount(g, clusters + free));
  }

  /** Such a write: one byte at the end of a file of 2^32 - 512 bytes. */
  lemma LastSectorExample(g: Geo, free: nat, clusters: nat, first: nat, lba: nat)
    requires IsData(g, first)
    ensures var file := FatFile(first, LAST_SECTOR, 0, lba, 0);
            && !CanWrite(g, free, file, clusters, LAST_SECTOR, 1)
            && LengthAfter(g, free, file, clusters, LAST_SECTOR, 1) == clusters + free
  {
    LastSectorLost(g, free, FatFile(first, LAST_SECTOR, 0, lba, 0), clusters, LAST_SECTOR, [0]);
  }

  /** What a write, successful or not, does: the chain grew from `ch` to `cur`, away from
      all others, whose sectors are as they were; the entry describes the file as it
      now is and nothing else in its directory changed; the bytes `part` are in place and
      every other byte of the file is as it was. */
  ghost predicate RangeWritten(g: Geo, d: seq<Block>, d': seq<Block>, chains: set<seq<nat>>, ch: seq<nat>,
                               cur: seq<nat>, dirCh: seq<nat>, k: nat, file: FatFile, file': FatFile, offset: nat,
                                 part: seq<Byte>, ok: bool)
  {
    && ch <= cur && (forall a :: a in chains && a != ch ==> Disjoint(a, cur))
    && FileOk(g, Regrown(chains, ch, cur), file', cur)
    && ChainsKept(g, d, d', Others(chains, ch, dirCh, file.lba))
    && (ok || file.lba != 0 ==> EntryFollows(g, d, d', dirCh, k, file'))
    && (ok || file.lba != 0 ==> file' == file.(first := file'.first, size := file'.size))
    && (!ok && file.lba != 0 ==> file'.size == file.size)
    && (cur == [] ==> file'.first == file.first)
    && (file.attr / ATTR_DIRECTORY % 2 == 1 || offset > file.size ==> d' == d && cur == ch && file' == file)
    && (offset <= file.size ==>
       BytesStored(g, d, ch, file.size, d', cur, if ok then file'.size else file.size, offset, part))
  }

  /** Writes a buffer at an offset of a file, growing its chain as needed, and brings
      the file's entry up to date. */
  method WriteFileRange(vol: FatVolume, file: FatFile, offset: nat, buf: seq<Byte>, ghost chains: set<seq<nat>>,
                        ghost ch: seq<nat>, ghost dirCh: seq<nat>, ghost k: nat)
    returns (ok: bool, file': FatFile, written: nat, ghost cur: seq<nat>)
    requires Sound(vol, chains) && FileOk(vol.geo, chains, file, ch) && dirCh in chains && dirCh != ch
    requires EntryKnown(vol.geo, vol.disk, dirCh, k, file) && file.size < 0x1_0000_0000
    requires offset < 0x1_0000_0000 && |buf| < 0x1_0000_0000
    modifies vol
    ensures Sound(vol, Regrown(chains, ch, cur))
    ensures FreeClusters(vol.geo, vol.disk) + |cur| == FreeClusters(vol.geo, old(vol.disk)) + |ch|
    ensures WriteCounts(vol.geo, FreeClusters(vol.geo, old(vol.disk)), file, |ch|, offset, |buf|, ok, file'.size, |cur|,
                        written)
    ensures RangeWritten(vol.geo, old(vol.disk), vol.disk, chains, ch, cur, dirCh, k, file, file', offset,
                         PartAfter(vol.geo, FreeClusters(vol.geo, old(vol.disk)), file, |ch|, offset, buf), ok)
  {
    NothingWritten(vol, chains, ch, file);
    EntryStays(vol.geo, vol.disk, vol.disk, dirCh, k, file);
    StoredNothing(vol.geo, vol.disk, vol.disk, ch, ch, file.size, offset);
    if file.attr / ATTR_DIRECTORY % 2 == 1 || offset > file.size {
      return false, file, 0, ch;
    }
    if buf == [] {
      return true, file, 0, ch;
    }
    ok, file', written, cur := WriteSome(vol, file, offset, buf, chains, ch, dirCh, k);
  }

  /** Gives the file a first cluster if it needs one and writes. */
  method WriteSome(vol: FatVolume, file: FatFile, offset: nat, buf: seq<Byte>, ghost chains: set<seq<nat>>,
                   ghost ch: seq<nat>, ghost dirCh: seq<nat>, ghost k: nat)
    returns (ok: bool, file': FatFile, written: nat, ghost cur: seq<nat>)
    requires Sound(vol, chains) && FileOk(vol.geo, chains, file, ch) && dirCh in chains && dirCh != ch
    requires EntryKnown(vol.geo, vol.disk, dirCh, k, file) && offset <= file.size < 0x1_0000_0000 && buf != []
    requires file.attr / ATTR_DIRECTORY % 2 == 0
    modifies vol
    ensures Sound(vol, Regrown(chains, ch, cur))
    ensures FreeClusters(vol.geo, vol.disk) + |cur| == FreeClusters(vol.geo, old(vol.disk)) + |ch|
    ensures WriteCounts(vol.geo, FreeClusters(vol.geo, old(vol.disk)), file, |ch|, offset, |buf|, ok, file'.size, |cur|,
                        written)
    ensures RangeWritten(vol.geo, old(vol.disk), vol.disk, chains, ch, cur, dirCh, k, file, file', offset,
                         PartAfter(vol.geo, FreeClusters(vol.geo, old(vol.disk)), file, |ch|, offset, buf), ok)
  {
    written := 0;
    ghost var free := FreeClusters(vol.geo, vol.disk);
    EntryPlace(vol, chains, dirCh, k, file);
    ok, file', cur := EnsureFirstCluster(vol, file, chains, ch, dirCh, k);
    ghost var d0, d1, cur0, file1 := old(vol.disk), vol.disk, cur, file';
    SameStart(vol.geo, d0, d1, ch, cur, file.size, ok);
    StoredNothing(vol.geo, d0, d1, ch, cur, file.size, offset);
    if !ok {
      NotStarted(vol, d0, chains, ch, dirCh, file);
      return false, file, 0, ch;
    }
    StartedSound(vol, d0, chains, ch, cur, dirCh, file');
    if offset + |buf| >= 0x1_0000_0000 {
      return false, file', 0, cur;
    }
    assert |cur0| + FreeClusters(vol.geo, d1) == |ch| + free && |cur0| == Max(|ch|, 1);
    ok, file', written, cur := WriteStarted(vol, file', offset, buf, file, d0, chains, ch, cur, dirCh, k);
    CountsAfterStart(vol.geo, free, file, |ch|, |cur0|, |cur|, offset, buf, ok, file'.size, written);
  }

  /** A file `file` has been given the chain `cur`, if it had none, and is now `file1`. */
  ghost predicate HasStarted(g: Geo, d0: seq<Block>, d1: seq<Block>, chains: set<seq<nat>>, ch: seq<nat>, cur: seq<nat>,
                             dirCh: seq<nat>, k: nat, file: FatFile, file1: FatFile) {
    && Backed(g, d0) && Forest(Fat(g, d0), chains) && dirCh in chains && dirCh != ch && cur != [] && ch <= cur
    && (file.lba == 0 || file.lba in Sectors(g, dirCh)) && file1 == file.(first := cur[0])
    && (forall a :: a in chains && a != ch ==> Disjoint(a, cur))
    && OwnAndEntry(g, d0, d1, Sectors(g, cur), file.lba) && EntryFollows(g, d0, d1, dirCh, k, file1)
    && Content(d1, Sectors(g, cur), file.size) == Content(d0, Sectors(g, ch), file.size)
  }

  /** Writes to a file that has been given a first cluster. */
  method WriteStarted(vol: FatVolume, file1: FatFile, offset: nat, buf: seq<Byte>, ghost file: FatFile,
                      ghost d0: seq<Block>, ghost chains: set<seq<nat>>, ghost ch: seq<nat>, ghost cur0: seq<nat>,
                        ghost dirCh: seq<nat>, ghost k: nat)
    returns (ok: bool, file': FatFile, written: nat, ghost cur: seq<nat>)
    requires HasStarted(vol.geo, d0, vol.disk, chains, ch, cur0, dirCh, k, file, file1)
    requires Sound(vol, Regrown(chains, ch, cur0)) && FileOk(vol.geo, Regrown(chains, ch, cur0), file1, cur0)
    requires dirCh in Regrown(chains, ch, cur0) && dirCh != cur0 && file.attr / ATTR_DIRECTORY % 2 == 0
    requires offset <= file.size < 0x1_0000_0000 && buf != [] && offset + |buf| < 0x1_0000_0000
    modifies vol
    ensures Sound(vol, Regrown(chains, ch, cur))
    ensures FreeClusters(vol.geo, vol.disk) + |cur| == FreeClusters(vol.geo, old(vol.disk)) + |cur0|
    ensures var c := |cur0| + FreeClusters(vol.geo, old(vol.disk));
            && Recorded(vol.geo, file.lba, file.size, offset, |buf|, |cur0|, c, ok, file'.size, written, |cur|)
            && RangeWritten(vol.geo, d0, vol.disk, chains, ch, cur, dirCh, k, file, file', offset,
                            PartStored(vol.geo, offset, buf, c), ok)
  {
    ghost var d1, c := vol.disk, |cur0| + FreeClusters(vol.geo, vol.disk);
    ok, file', written, cur := WriteAndRecord(vol, file1, offset, buf, Regrown(chains, ch, cur0), cur0, dirCh, k);
    WrittenAfterStart(vol.geo, d0, d1, vol.disk, chains, ch, cur0, cur, dirCh, k, file, file1, file', offset,
                      PartStored(vol.geo, offset, buf, c), ok);
  }

  /** Getting a first cluster and writing make up one write. */
  lemma WrittenAfterStart(g: Geo, d0: seq<Block>, d1: seq<Block>, d2: seq<Block>, chains: set<seq<nat>>, ch: seq<nat>,
                          cur0: seq<nat>, cur: seq<nat>, dirCh: seq<nat>, k: nat, file: FatFile, file1: FatFile,
                            file2: FatFile, offset: nat, part: seq<Byte>, ok: bool)
    requires HasStarted(g, d0, d1, chains, ch, cur0, dirCh, k, file, file1) && cur0 <= cur && AllData(g, cur)
    requires forall a :: a in Regrown(chains, ch, cur0) && a != cur0 ==> Disjoint(a, cur)
    requires OwnAndEntry(g, d1, d2, Sectors(g, cur), file.lba) && file2 == file1.(size := file2.size)
    requires !ok && file.lba != 0 ==> file2 == file1
    requires ok || file.lba != 0 ==> EntryFollows(g, d1, d2, dirCh, k, file2)
    requires FileOk(g, Regrown(Regrown(chains, ch, cur0), cur0, cur), file2, cur) && offset <= file.size
    requires file.attr / ATTR_DIRECTORY % 2 == 0
    requires BytesStored(g, d1, cur0, file.size, d2, cur, if ok then file2.size else file.size, offset, part)
    ensures Regrown(Regrown(chains, ch, cur0), cur0, cur) == Regrown(chains, ch, cur)
    ensures RangeWritten(g, d0, d2, chains, ch, cur, dirCh, k, file, file2, offset, part, ok)
  {
    WroteInTwo(g, d0, d1, d2, chains, ch, cur0, cur, dirCh, k, file.lba);
    if ok || file.lba != 0 {
      FollowsTwice(g, d0, d1, d2, dirCh, k, file1, file2);
    }
  }

  lemma EntryPlace(vol: FatVolume, chains: set<seq<nat>>, dirCh: seq<nat>, k: nat, file: FatFile)
    requires Sound(vol, chains) && dirCh in chains && EntryKnown(vol.geo, vol.disk, dirCh, k, file)
    ensures file.lba == 0 || file.lba in Sectors(vol.geo, dirCh)
  {}

  lemma NotStarted(vol: FatVolume, d0: seq<Block>, chains: set<seq<nat>>, ch: seq<nat>, dirCh: seq<nat>, file: FatFile)
    requires Sound(vol, Regrown(chains, ch, ch)) && ch == [] && FileOk(vol.geo, chains, file, ch) && Backed(vol.geo, d0)
    requires Forest(Fat(vol.geo, d0), chains)
    requires ChainsKept(vol.geo, d0, vol.disk, chains)
    ensures FileOk(vol.geo, Regrown(chains, ch, ch), file, ch)
    ensures ChainsKept(vol.geo, d0, vol.disk, Others(chains, ch, dirCh, file.lba))
  {
    var rest := Others(chains, ch, dirCh, file.lba);
    forall a, x | Has(rest, a) && x in Sectors(vol.geo, a) && x < |d0| ensures vol.disk[x] == d0[x] {
      assert Has(chains, a);
    }
  }

  /** Getting a first cluster and writing, as far as numbers go. */
  lemma CountsAfterStart(g: Geo, free: nat, file: FatFile, len: nat, started: nat, after: nat, offset: nat,
                         buf: seq<Byte>, ok: bool, size': nat, written: nat)
    requires Begins(g, free, file, offset, |buf|) && offset + |buf| < 0x1_0000_0000 && started == Max(len, 1)
    requires Recorded(g, file.lba, file.size, offset, |buf|, started, len + free, ok, size', written, after)
    ensures WriteCounts(g, free, file, len, offset, |buf|, ok, size', after, written)
    ensures PartAfter(g, free, file, len, offset, buf) == PartStored(g, offset, buf, len + free)
  {
    if Enough(g, offset, |buf|, len + free) {
      NeedsOne(g, offset, |buf|, len + free);
    }
  }

  /** Any request takes a cluster. */
  lemma NeedsOne(g: Geo, offset: nat, n: nat, c: nat)
    requires n > 0 && Enough(g, offset, n, c)
    ensures Clusters(g, offset, n, c) > 0
  {
    CopiedStep(offset, offset + n, 0);
  }

  lemma StoredShorter(g: Geo, d: seq<Block>, ch: seq<nat>, size: nat, d': seq<Block>, cur: seq<nat>, size': nat,
                      offset: nat, part: seq<Byte>)
    requires BytesStored(g, d, ch, size, d', cur, size', offset, part) && size <= size'
    ensures BytesStored(g, d, ch, size, d', cur, size, offset, part)
  {
    var a, b, all := Content(d', Sectors(g, cur), size), Content(d', Sectors(g, cur), size'),
      Overwrite(Content(d, Sectors(g, ch), size), offset, part);
    var m := Min(size', Max(size, offset + |part|));
    forall i | 0 <= i < size ensures a[i] == all[..size][i] {
      assert a[i] == ByteAt(d', Sectors(g, cur), i) == b[i] == b[..m][i] == all[..m][i];
    }
  }

  lemma StoredNothing(g: Geo, d: seq<Block>, d': seq<Block>, ch: seq<nat>, cur: seq<nat>, size: nat, offset: nat)
    requires Content(d', Sectors(g, cur), size) == Content(d, Sectors(g, ch), size)
    ensures offset <= size ==> BytesStored(g, d, ch, size, d', cur, size, offset, [])
  {
    if offset <= size {
      var s := Content(d, Sectors(g, ch), size);
      assert Overwrite(s, offset, [])[..size] == s;
    }
  }

  /** Having been given a first cluster a file still has the same bytes. */
  lemma SameStart(g: Geo, d: seq<Block>, d': seq<Block>, ch: seq<nat>, cur: seq<nat>, size: nat, ok: bool)
    requires if ok then (if ch == [] then size == 0 else cur == ch && d' == d) else cur == ch == []
    ensures Content(d', Sectors(g, cur), size) == Content(d, Sectors(g, ch), size)
  {
    if !ok {
      assert ChainExtents(g, []) == [];
      var a, b := Content(d', [], size), Content(d, [], size);
      forall i | 0 <= i < size ensures a[i] == b[i] {
        assert a[i] == ByteAt(d', [], i) && b[i] == ByteAt(d, [], i);
      }
    }
  }

  lemma StartedSound(vol: FatVolume, d0: seq<Block>, chains: set<seq<nat>>, ch: seq<nat>, cur: seq<nat>,
                     dirCh: seq<nat>, file: FatFile)
    requires Sound(vol, Regrown(chains, ch, cur)) && cur != [] && ch <= cur && file.first == cur[0] && dirCh in chains
    requires dirCh != ch
    requires forall a :: a in chains && a != ch ==> Disjoint(a, cur)
    requires if ch == [] then file.size == 0 else cur == ch
    requires ch != [] ==> file.size <= 512 * |Sectors(vol.geo, ch)|
    requires Backed(vol.geo, d0) && Forest(Fat(vol.geo, d0), chains)
    requires OwnAndEntry(vol.geo, d0, vol.disk, Sectors(vol.geo, cur), file.lba)
    requires file.lba == 0 || file.lba in Sectors(vol.geo, dirCh)
    ensures cur in Regrown(chains, ch, cur) && dirCh in Regrown(chains, ch, cur) && dirCh != cur
    ensures AllData(vol.geo, cur)
    ensures FileOk(vol.geo, Regrown(chains, ch, cur), file, cur) && file.size <= 512 * |Sectors(vol.geo, cur)|
    ensures ChainsKept(vol.geo, d0, vol.disk, Others(chains, ch, dirCh, file.lba))
  {
    ChainData(vol.geo, Fat(vol.geo, vol.disk), Regrown(chains, ch, cur), cur);
    assert IsData(vol.geo, cur[0]);
    assert cur[0] in cur && Disjoint(dirCh, cur);
    OthersKept(vol.geo, d0, vol.disk, Fat(vol.geo, d0), chains, ch, cur, dirCh, file.lba);
  }

  lemma WroteInTwo(g: Geo, d0: seq<Block>, d1: seq<Block>, d2: seq<Block>, chains: set<seq<nat>>, ch: seq<nat>,
                   cur0: seq<nat>, cur: seq<nat>, dirCh: seq<nat>, k: nat, lba: nat)
    requires Backed(g, d0) && Forest(Fat(g, d0), chains) && dirCh in chains && dirCh != ch && cur0 != [] && cur0 <= cur
    requires ch <= cur0 && AllData(g, cur)
    requires forall a :: a in chains && a != ch ==> Disjoint(a, cur0)
    requires forall a :: a in Regrown(chains, ch, cur0) && a != cur0 ==> Disjoint(a, cur)
    requires OwnAndEntry(g, d0, d1, Sectors(g, cur0), lba) && OwnAndEntry(g, d1, d2, Sectors(g, cur), lba)
    requires lba == 0 || lba in Sectors(g, dirCh)
    ensures Regrown(Regrown(chains, ch, cur0), cur0, cur) == Regrown(chains, ch, cur)
    ensures forall a :: a in chains && a != ch ==> Disjoint(a, cur)
    ensures ChainsKept(g, d0, d2, Others(chains, ch, dirCh, lba))
  {
    RegrownAgain(chains, ch, cur0, cur);
    forall a: seq<nat> | a in chains && a != ch ensures Disjoint(a, cur) {
      assert Disjoint(a, cur0) && cur0[0] in cur0;
      assert a in Regrown(chains, ch, cur0);
      assert a == cur0 ==> Disjoint(a, a);
    }
    SectorsPrefix(g, cur0, cur);
    forall x | 0 <= x < |d0| && !InFats(g, x) && x !in Sectors(g, cur) && x != lba ensures d2[x] == d0[x] {
      assert x !in Sectors(g, cur0);
      assert d2[x] == d1[x];
    }
    OthersKept(g, d0, d2, Fat(g, d0), chains, ch, cur, dirCh, lba);
  }

  lemma SectorsPrefix(g: Geo, a: seq<nat>, b: seq<nat>)
    requires a <= b
    ensures Sectors(g, a) <= Sectors(g, b)
  {
    PhysSplit(ChainExtents(g, b), |a|);
    assert ChainExtents(g, b)[..|a|] == ChainExtents(g, a);
  }

  lemma FollowsTwice(g: Geo, d0: seq<Block>, d1: seq<Block>, d2: seq<Block>, dirCh: seq<nat>, k: nat, file1: FatFile,
                     file2: FatFile)
    requires EntryFollows(g, d0, d1, dirCh, k, file1) && EntryFollows(g, d1, d2, dirCh, k, file2)
    requires file1.lba == file2.lba
    ensures EntryFollows(g, d0, d2, dirCh, k, file2)
  {}

  /** Success, size, bytes reported and number of clusters of a write whose size is
      recorded in the file's entry. */
  ghost predicate Recorded(g: Geo, lba: nat, size: nat, offset: nat, n: nat, len: nat, c: nat, ok: bool, size': nat,
                           written: nat, len': nat) {
    var grown := SizeAfter(size, offset, Transferred(g, offset, n, c));
    && (ok <==> Enough(g, offset, n, c) && (lba != 0 || grown == size))
    && (ok ==> written == Transferred(g, offset, n, c) && size' == grown)
    && len' == if Enough(g, offset, n, c) then Max(len, Clusters(g, offset, n, c)) else c
  }

  /** Writes the data of a file with a first cluster and then, if it grew, its size
      into its entry. */
  method WriteAndRecord(vol: FatVolume, file: FatFile, offset: nat, buf: seq<Byte>, ghost chains: set<seq<nat>>,
                        ghost ch: seq<nat>, ghost dirCh: seq<nat>, ghost k: nat)
    returns (ok: bool, file': FatFile, written: nat, ghost cur: seq<nat>)
    requires Sound(vol, chains) && FileOk(vol.geo, chains, file, ch) && ch != [] && dirCh in chains && dirCh != ch
    requires EntryKnown(vol.geo, vol.disk, dirCh, k, file) && offset <= file.size < 0x1_0000_0000 && buf != []
    requires offset + |buf| < 0x1_0000_0000
    modifies vol
    ensures Sound(vol, Regrown(chains, ch, cur)) && ch <= cur && FileOk(vol.geo, Regrown(chains, ch, cur), file', cur)
    ensures AllData(vol.geo, cur)
    ensures forall a :: a in chains && a != ch ==> Disjoint(a, cur)
    ensures OwnAndEntry(vol.geo, old(vol.disk), vol.disk, Sectors(vol.geo, cur), file.lba)
    ensures FreeClusters(vol.geo, vol.disk) + |cur| == FreeClusters(vol.geo, old(vol.disk)) + |ch|
    ensures ok || file.lba != 0 ==> EntryFollows(vol.geo, old(vol.disk), vol.disk, dirCh, k, file')
    ensures file' == file.(size := file'.size) && (!ok && file.lba != 0 ==> file' == file)
    ensures var c := |ch| + FreeClusters(vol.geo, old(vol.disk));
            && Recorded(vol.geo, file.lba, file.size, offset, |buf|, |ch|, c, ok, file'.size, written, |cur|)
            && BytesStored(vol.geo, old(vol.disk), ch, file.size, vol.disk, cur, if ok then file'.size else file.size,
                           offset, PartStored(vol.geo, offset, buf, c))
  {
    file' := file;
    ghost var part := PartStored(vol.geo, offset, buf, |ch| + FreeClusters(vol.geo, vol.disk));
    ok, written, cur := WriteData(vol, file.first, file.size, offset, buf, chains, ch);
    ghost var all, d1 := Regrown(chains, ch, cur), vol.disk;
    DirectoryApart(vol.geo, old(vol.disk), d1, chains, dirCh, cur);
    EntryStays(vol.geo, old(vol.disk), d1, dirCh, k, file);
    var size := (offset + written) % 0x1_0000_0000;
    if ok && size > file.size {
      file' := file.(size := size);
      StoredShorter(vol.geo, old(vol.disk), ch, file.size, d1, cur, size, offset, part);
      ok := UpdateEntry(vol, file', file, all, dirCh, k);
      EntryElsewhere(vol.geo, d1, vol.disk, all, dirCh, cur, file'.lba, size);
      EntryElsewhere(vol.geo, d1, vol.disk, all, dirCh, cur, file'.lba, file.size);
    }
  }

  /** Rewriting an entry of the parent does not touch the file. */
  lemma EntryElsewhere(g: Geo, d: seq<Block>, d': seq<Block>, chains: set<seq<nat>>, dirCh: seq<nat>, cur: seq<nat>,
                       lba: nat, size: nat)
    requires Backed(g, d) && Forest(Fat(g, d), chains) && dirCh in chains && AllData(g, cur) && Disjoint(dirCh, cur)
    requires OwnAndEntry(g, d, d', [], lba) && TablesSame(g, d, d') && (lba == 0 || lba in Sectors(g, dirCh))
    ensures Content(d', Sectors(g, cur), size) == Content(d, Sectors(g, cur), size)
  {
    ChainData(g, Fat(g, d), chains, dirCh);
    SectorsIn(g, cur);
    SectorsApart(g, dirCh, cur);
    var phys := Sectors(g, cur);
    forall i | 0 <= i < |phys| ensures d'[phys[i]] == d[phys[i]] { assert phys[i] in phys && phys[i] >= g.DataStart(); }
    ContentKept(d, d', phys, size);
  }

  /** Forgets the contents of a file; its chain stays for later writes. */
  method TruncateFile(vol: FatVolume, file: FatFile, ghost chains: set<seq<nat>>, ghost ch: seq<nat>,
                      ghost dirCh: seq<nat>, ghost k: nat)
    returns (ok: bool, file': FatFile)
    requires Sound(vol, chains) && FileOk(vol.geo, chains, file, ch) && dirCh in chains && dirCh != ch
    requires EntryKnown(vol.geo, vol.disk, dirCh, k, file) && file.first < 0x1_0000_0000
    modifies vol
    ensures Sound(vol, chains) && (ok <==> file.attr / ATTR_DIRECTORY % 2 == 0 && file.lba != 0)
    ensures FreeClusters(vol.geo, vol.disk) == FreeClusters(vol.geo, old(vol.disk))
    ensures ok ==> file' == file.(size := 0) && FileOk(vol.geo, chains, file', ch)
    ensures ok ==> EntryFollows(vol.geo, old(vol.disk), vol.disk, dirCh, k, file')
    ensures ChainsKept(vol.geo, old(vol.disk), vol.disk, chains - {dirCh}) && (!ok ==> vol.disk == old(vol.disk))
  {
    file' := file;
    if file.attr / ATTR_DIRECTORY % 2 == 1 {
      return false, file;
    }
    file' := file.(size := 0);
    ok := UpdateEntry(vol, file', file, chains, dirCh, k);
    if ok {
      EntryOnly(vol.geo, old(vol.disk), vol.disk, chains, dirCh, file.lba);
    }
  }

  lemma EntryOnly(g: Geo, d: seq<Block>, d': seq<Block>, chains: set<seq<nat>>, dirCh: seq<nat>, lba: nat)
    requires Backed(g, d) && Forest(Fat(g, d), chains) && dirCh in chains && lba in Sectors(g, dirCh)
    requires OwnAndEntry(g, d, d', [], lba)
    ensures ChainsKept(g, d, d', chains - {dirCh})
  {
    var rest := chains - {dirCh};
    ChainData(g, Fat(g, d), chains, dirCh);
    forall a, x | Has(rest, a) && x in Sectors(g, a) && x < |d| ensures d'[x] == d[x] {
      assert Has(chains, a) && Has(chains, dirCh);
      ChainData(g, Fat(g, d), chains, a);
      SectorsIn(g, a);
      SectorsApart(g, a, dirCh);
    }
  }

  // ----- create, write, find, read -----

  /** The file an entry of a directory describes. */
  method FileFromEntry(vol: FatVolume, first: nat, dir: seq<Raw>, k: nat, ghost chains: set<seq<nat>>,
                       ghost ch: seq<nat>)
    returns (file: FatFile)
    requires Sound(vol, chains) && ch in chains && ch != [] && first == ch[0] && k < |dir|
    requires dir == Entries(vol.disk, Sectors(vol.geo, ch))
    modifies vol`cacheValid, vol`cacheLba, vol`cache
    ensures Sound(vol, chains) && EntryOf(vol.geo, vol.disk, ch, k, file) && file.lba != 0 && Describes(dir[k], file)
  {
    var placed, lba, offset := RawEntryPosition(vol, first, k, chains, ch);
    ChainData(vol.geo, Fat(vol.geo, vol.disk), chains, ch);
    SectorsIn(vol.geo, ch);
    assert lba in Sectors(vol.geo, ch);
    file := FatFile(FirstCluster(dir[k]), FileSize(dir[k]), dir[k][11], lba, offset);
  }

  /** A chain is a path to its end. */
  lemma ChainIsPath(g: Geo, f: seq<nat>, ch: seq<nat>)
    requires |f| == g.clusters + 2 && IsChain(f, ch) && AllData(g, ch)
    ensures IsPath(g, f, ch[0], ch) && IsData(g, ch[0])
  {
    assert IsData(g, ch[0]);
    forall i | 0 <= i < |ch| - 1 ensures FatFiles.Linked(f, ch, i) { assert Follows(f, ch, i); }
  }

  /** Creating a file under a new name, writing to it, looking the name up again and
      reading the file the entry describes gives back what was written, if and only if it
      does not reach into the last sector of a 32-bit position.  The write succeeds
      exactly when there are clusters enough once the directory has grown. */
  method CreateWriteRead(vol: FatVolume, first: nat, name: seq<Byte>, buf: seq<Byte>, ghost chains: set<seq<nat>>,
                         ghost ch: seq<nat>)
    returns (created: bool, wrote: bool, out: seq<Byte>, ghost dirCh: seq<nat>, ghost own: seq<nat>, ghost left: nat)
    requires Sound(vol, chains) && ch in chains && ch != [] && first == ch[0]
    requires WellFormed(Entries(vol.disk, Sectors(vol.geo, ch)))
    requires 0 !in name && name != [] && if NeedsLong(name) then |name| <= 247 else name[|name| - 1] != PERIOD
    requires 0 < |buf| < 0x1_0000_0000
    modifies vol
    ensures created <==>
      CanCreate(vol.geo, FreeClusters(vol.geo, old(vol.disk)), Entries(old(vol.disk), Sectors(vol.geo, ch)), name)
    ensures left + |dirCh| == FreeClusters(vol.geo, old(vol.disk)) + |ch|
    ensures wrote <==> created && Enough(vol.geo, 0, |buf|, left)
    ensures wrote ==> (out == buf <==> |buf| <= LAST_SECTOR)
    ensures wrote ==> Sound(vol, Regrown(chains, ch, dirCh) + {own}) && ch <= dirCh && own !in chains
    ensures wrote ==> ChainsKept(vol.geo, old(vol.disk), vol.disk, chains - {ch})
  {
    wrote, out, own := false, [], [];
    var index;
    created, index, dirCh := CreateEntry(vol, first, name, 0, 0, chains, ch);
    left := FreeClusters(vol.geo, vol.disk);
    if !created {
      return;
    }
    ghost var d1, all := vol.disk, Regrown(chains, ch, dirCh);
    wrote, out, own := WriteReadNew(vol, first, name, index, buf, all, dirCh);
    if wrote {
      ChainData(vol.geo, Fat(vol.geo, d1), all, dirCh);
      NewOwn(vol.geo, old(vol.disk), d1, vol.disk, chains, ch, dirCh, own);
    }
  }

  /** Writes to the file a new, empty entry stands for, looks its name up and reads it. */
  method WriteReadNew(vol: FatVolume, first: nat, name: seq<Byte>, k: nat, buf: seq<Byte>, ghost chains: set<seq<nat>>,
                      ghost ch: seq<nat>)
    returns (ok: bool, out: seq<Byte>, ghost own: seq<nat>)
    requires Sound(vol, chains) && ch in chains && ch != [] && first == ch[0] && 0 < |buf| < 0x1_0000_0000
    requires var dir := Entries(vol.disk, Sectors(vol.geo, ch));
             && WellFormed(dir) && k < |dir| && IsShort(dir[k]) && dir[k][11] == 0 && FirstCluster(dir[k]) == 0
             && FileSize(dir[k]) == 0 && Find(dir, name) == k
    modifies vol
    ensures ok <==> Enough(vol.geo, 0, |buf|, FreeClusters(vol.geo, old(vol.disk)))
    ensures ok ==> (out == buf <==> |buf| <= LAST_SECTOR) && own != []
    ensures ok ==> Sound(vol, Regrown(chains, [], own)) && (forall a :: a in chains ==> Disjoint(a, own))
    ensures ok ==> ChainsKept(vol.geo, old(vol.disk), vol.disk, chains - {ch})
  {
    out := [];
    ghost var dir := Entries(vol.disk, Sectors(vol.geo, ch));
    ok, own := WriteNew(vol, first, k, buf, chains, ch);
    if !ok {
      return;
    }
    ghost var file :| Redescribed(dir, Entries(vol.disk, Sectors(vol.geo, ch)), k, file)
                      && file.attr == 0 && file.first == own[0] && NewlyWritten(vol.geo, vol.disk, own, file.size, buf);
    NoEmptyChain(Fat(vol.geo, vol.disk), Regrown(chains, [], own));
    FindRedescribed(dir, Entries(vol.disk, Sectors(vol.geo, ch)), k, file, name);
    out := ReadByName(vol, first, name, k, Regrown(chains, [], own), ch, own);
  }

  /** A file written from the start on: the bytes of the buffer, or fewer bytes than it has
      when it reaches into the last sector. */
  ghost predicate NewlyWritten(g: Geo, d: seq<Block>, own: seq<nat>, size: nat, buf: seq<Byte>) {
    && size <= 512 * |Sectors(g, own)|
    && if |buf| <= LAST_SECTOR then Content(d, Sectors(g, own), size) == buf else size < |buf|
  }

  /** Writes to the file a new, empty entry stands for. */
  method WriteNew(vol: FatVolume, first: nat, k: nat, buf: seq<Byte>, ghost chains: set<seq<nat>>, ghost ch: seq<nat>)
    returns (ok: bool, ghost own: seq<nat>)
    requires Sound(vol, chains) && ch in chains && ch != [] && first == ch[0] && 0 < |buf| < 0x1_0000_0000
    requires var dir := Entries(vol.disk, Sectors(vol.geo, ch));
      k < |dir| && dir[k][11] == 0 && FirstCluster(dir[k]) == 0 && FileSize(dir[k]) == 0
    modifies vol
    ensures Sound(vol, Regrown(chains, [], own))
    ensures ok <==> Enough(vol.geo, 0, |buf|, FreeClusters(vol.geo, old(vol.disk)))
    ensures forall a :: a in chains ==> Disjoint(a, own)
    ensures ChainsKept(vol.geo, old(vol.disk), vol.disk, chains - {ch})
    ensures ok ==> own != []
    ensures ok ==>
      exists file ::
        Redescribed(Entries(old(vol.disk), Sectors(vol.geo, ch)), Entries(vol.disk, Sectors(vol.geo, ch)), k, file)
                && file.attr == 0 && file.first == own[0] && NewlyWritten(vol.geo, vol.disk, own, file.size, buf)
  {
    var dir := ReadDirectory(vol, first, chains, ch);
    var file := FileFromEntry(vol, first, dir, k, chains, ch);
    ghost var free := FreeClusters(vol.geo, vol.disk);
    NoEmptyChain(Fat(vol.geo, vol.disk), chains);
    var file', written;
    ok, file', written, own := WriteFileRange(vol, file, 0, buf, chains, [], ch, k);
    assert Others(chains, [], ch, file.lba) == chains - {ch};
    if ok {
      NeedsOne(vol.geo, 0, |buf|, free);
      WroteAll(vol.geo, old(vol.disk), vol.disk, own, file'.size, buf, free);
    }
  }

  lemma WroteAll(g: Geo, d: seq<Block>, d': seq<Block>, own: seq<nat>, size: nat, buf: seq<Byte>, free: nat)
    requires GeoOk(g) && 0 < |buf| < 0x1_0000_0000 && Enough(g, 0, |buf|, free) && size <= 512 * |Sectors(g, own)|
    requires size == SizeAfter(0, 0, Transferred(g, 0, |buf|, free))
    requires BytesStored(g, d, [], 0, d', own, size, 0, Storable(0, buf))
    ensures NewlyWritten(g, d', own, size, buf)
  {
    if |buf| <= LAST_SECTOR {
      assert Storable(0, buf) == buf;
      assert Overwrite(Content(d, Sectors(g, []), 0), 0, buf) == buf;
    } else {
      ShortOfIt(g, |buf|, free);
    }
  }

  /** The windows of the second time round. */
  lemma {:induction false} SecondRound(limit: nat, j: nat)
    requires LAST_SECTOR < limit < 0x1_0000_0000 && j <= 128
    ensures Copied(0, limit, 0x80_0000 + j) == LAST_SECTOR + 512 * j
  {
    if j == 0 {
      CopiedFirst(0, limit, 0x80_0000);
    } else {
      SecondRound(limit, j - 1);
      CopiedStep(0, limit, 0x80_0000 + (j - 1));
      assert Pos(0x80_0000 + (j - 1)) == 512 * (j - 1);
      WindowIs(j - 1, 0, limit);
    }
  }

  /** A buffer that reaches into the last sector ends up as a file shorter than itself. */
  lemma ShortOfIt(g: Geo, n: nat, c: nat)
    requires GeoOk(g) && LAST_SECTOR < n < 0x1_0000_0000 && Enough(g, 0, n, c)
    ensures Transferred(g, 0, n, c) % 0x1_0000_0000 < n
  {
    var used := Clusters(g, 0, n, c);
    EnoughIsMore(g, 0, n, used);
    var sectors, before := SectorCount(g, used), SectorCount(g, used - 1);
    if before > 0x80_0000 {
      SecondRound(n, 1);
      CopiedMore(0, n, 0x80_0000 + 1, before);
    }
    SecondRound(n, sectors - 0x80_0000);
  }

  lemma NewOwn(g: Geo, d0: seq<Block>, d1: seq<Block>, d2: seq<Block>, chains: set<seq<nat>>, ch: seq<nat>,
               dirCh: seq<nat>, own: seq<nat>)
    requires Backed(g, d0) && Forest(Fat(g, d0), chains) && ch in chains && own != [] && dirCh != []
    requires AllData(g, dirCh)
    requires (forall a :: a in chains && a != ch ==> Disjoint(a, dirCh)) && forall a ::
      a in Regrown(chains, ch, dirCh) ==> Disjoint(a, own)
    requires ch <= dirCh && OwnOnly(g, d0, d1, Sectors(g, dirCh))
    requires ChainsKept(g, d1, d2, Regrown(chains, ch, dirCh) - {dirCh})
    ensures Regrown(Regrown(chains, ch, dirCh), [], own) == Regrown(chains, ch, dirCh) + {own} && own !in chains
    ensures ChainsKept(g, d0, d2, chains - {ch})
  {
    NoEmptyChain(Fat(g, d0), chains);
    assert own[0] in own && dirCh[0] in dirCh && Has(chains, ch) && IsChain(Fat(g, d0), ch) && ch[0] in ch;
    assert Disjoint(dirCh, own);
    assert own in chains ==> own == ch || Disjoint(own, own);
    var rest, kept := chains - {ch}, Regrown(chains, ch, dirCh) - {dirCh};
    forall a, x | Has(rest, a) && x in Sectors(g, a) && x < |d0| ensures d2[x] == d0[x] {
      assert Has(chains, a) && Disjoint(a, dirCh);
      ChainData(g, Fat(g, d0), chains, a);
      assert a[0] in a;
      assert a != dirCh;
      assert Has(kept, a);
      SectorsIn(g, a);
      SectorsApart(g, a, dirCh);
      assert d1[x] == d0[x];
    }
  }

  /** Looks a name up and reads the whole file. */
  method ReadByName(vol: FatVolume, first: nat, name: seq<Byte>, ghost k: nat, ghost chains: set<seq<nat>>,
                    ghost ch: seq<nat>, ghost own: seq<nat>)
    returns (out: seq<Byte>)
    requires Sound(vol, chains) && ch in chains && ch != [] && first == ch[0] && own in chains && own != []
    requires var dir := Entries(vol.disk, Sectors(vol.geo, ch));
             && k < |dir| && Find(dir, name) == k && !IsDirectory(dir[k])
             && FirstCluster(dir[k]) == own[0] && FileSize(dir[k]) <= 512 * |Sectors(vol.geo, own)|
    modifies vol`cacheValid, vol`cacheLba, vol`cache
    ensures Sound(vol, chains)
    ensures out == Content(vol.disk, Sectors(vol.geo, own), FileSize(Entries(vol.disk, Sectors(vol.geo, ch))[k]))
  {
    var dir := ReadDirectory(vol, first, chains, ch);
    var found, _ := FindEntry(dir, name);
    var r := dir[found];
    ChainData(vol.geo, Fat(vol.geo, vol.disk), chains, own);
    ChainIsPath(vol.geo, Fat(vol.geo, vol.disk), own);
    var ok;
    ok, out := ReadFileRange(vol, FirstCluster(r), FileSize(r), IsDirectory(r), 0, FileSize(r), own);
    assert Content(vol.disk, Sectors(vol.geo, own), FileSize(r))[0..FileSize(r)] ==
      Content(vol.disk, Sectors(vol.geo, own), FileSize(r));
  }
}
