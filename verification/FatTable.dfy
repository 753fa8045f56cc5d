/** The FAT32 file allocation table (fs/fat32_core.c, fs/fat32.c; section 4 of the
    Microsoft FAT Specification): geometry, entries read through a one-sector
    cache, mirrored entry writes and cluster allocation. */
module FatTable {
  import opened Bitmap
  import opened Bytes

  const END := 0x0FFF_FFF8
  const ENTRY_BITS := 0x1000_0000

  datatype Geo = Geo(partition: nat, reserved: nat, tables: nat, fatSectors: nat, spc: nat,
                     clusters: nat, total: nat, root: nat) {
    function FatStart(): nat { partition + reserved }
    function DataStart(): nat { partition + reserved + (if tables == 2 then fatSectors else 0) + fatSectors }
  }

  /** What mounting checks, and the cluster limit of FAT32: every data cluster
      number is below the end-of-chain marks. */
  predicate GeoOk(g: Geo) {
    && g.reserved > 0 && 1 <= g.tables <= 2 && g.fatSectors > 0 && 1 <= g.spc <= 128
    && 0 < g.clusters && g.clusters + 2 <= 128 * g.fatSectors && g.clusters + 2 <= END
    && g.DataStart() + g.clusters * g.spc <= g.partition + g.total <= 0x1_0000_0000
    && IsData(g, g.root)
  }

  /** The fields of the boot sector that mounting looks at. */
  datatype BootSector = BootSector(signed: bool, jump: nat, bytesPerSector: nat, spc: nat, reserved: nat, tables: nat,
                                   rootEntries: nat, total16: nat, total32: nat, fatSize16: nat, fatSize32: nat,
                                     root: nat)

  /** A power of two that fits in a byte. */
  predicate IsPowerOfTwo(n: nat) { n in {1, 2, 4, 8, 16, 32, 64, 128} }

  /** The number of sectors a boot sector gives. */
  function TotalSectors(b: BootSector): nat { if b.total16 != 0 then b.total16 else b.total32 }

  /** The header is that of a FAT32 volume with 512-byte sectors. */
  predicate HeaderOk(b: BootSector) {
    && b.signed && (b.jump == 0xEB || b.jump == 0xE9) && b.bytesPerSector == 512 && IsPowerOfTwo(b.spc)
    && b.rootEntries == 0 && b.fatSize16 == 0
  }

  /** The layout a boot sector describes: reserved sectors, tables, and as many whole
      clusters as still fit. */
  ghost predicate LaysOut(b: BootSector, partition: nat, g: Geo) {
    && g == Geo(partition, b.reserved, b.tables, b.fatSize32, b.spc, g.clusters, TotalSectors(b), b.root)
    && g.DataStart() + g.clusters * g.spc <= partition + TotalSectors(b) < g.DataStart() + g.clusters * g.spc + g.spc
  }

  /** The layout has every part, its tables have an entry for every cluster, and the
      root directory lies in it. */
  ghost predicate Complete(g: Geo) {
    && g.reserved > 0 && 1 <= g.tables <= 2 && g.fatSectors > 0 && 0 < g.clusters
    && g.clusters + 2 <= 128 * g.fatSectors
    && IsData(g, g.root)
  }

  ghost predicate HasLayout(b: BootSector, partition: nat) {
    exists layout :: LaysOut(b, partition, layout) && Complete(layout)
  }

  /** Checks a boot sector.  It is accepted exactly when its header is sound and the
      layout it describes is complete and lies inside the device and below 2^32; that
      layout is the result, and is sound geometry exactly when it keeps to the cluster
      limit of FAT32. */
  method Mount(b: BootSector, partition: nat, blockCount: nat) returns (ok: bool, g: Geo)
    requires b.fatSize32 < 0x1_0000_0000 && b.reserved < 0x1_0000 && b.spc < 256
    ensures ok <==>
      && HeaderOk(b) && partition + TotalSectors(b) <= blockCount && partition + TotalSectors(b) <= 0x1_0000_0000
                    && HasLayout(b, partition)
    ensures ok ==> LaysOut(b, partition, g) && Complete(g) && (GeoOk(g) <==> g.clusters + 2 <= END)
  {
    g := Geo(partition, b.reserved, b.tables, b.fatSize32, b.spc, 0, 0, b.root);
    LayoutIs(b, partition);
    if partition >= blockCount || !b.signed || (b.jump != 0xEB && b.jump != 0xE9) {
      return false, g;
    }
    if b.bytesPerSector != 512 || !IsPowerOfTwo(b.spc) || b.spc > 128 || b.reserved == 0 || b.tables == 0
      || b.tables > 2
       || b.rootEntries != 0 || b.fatSize16 != 0 || b.fatSize32 == 0 {
      return false, g;
    }
    var total := if b.total16 != 0 then b.total16 else b.total32;
    var fatRegion := b.reserved + b.tables * b.fatSize32;
    if total == 0 || total > blockCount - partition || fatRegion >= total || partition + total > 0x1_0000_0000 {
      return false, g;
    }
    var clusters := (total - fatRegion) / b.spc;
    if clusters == 0 || b.fatSize32 * 128 < clusters + 2 {
      return false, g;
    }
    g := g.(clusters := clusters, total := total);
    if !IsData(g, b.root) {
      return false, g;
    }
    OneLayout(b, partition, g);
    GeoIs(g);
    return true, g;
  }

  /** A complete layout below 2^32 is sound geometry but for the cluster limit. */
  lemma GeoIs(g: Geo)
    requires Complete(g) && IsPowerOfTwo(g.spc)
    requires g.DataStart() + g.clusters * g.spc <= g.partition + g.total <= 0x1_0000_0000
    ensures GeoOk(g) <==> g.clusters + 2 <= END
  {}

  /** When there is a complete layout, in terms of the fields. */
  lemma LayoutIs(b: BootSector, partition: nat)
    ensures HasLayout(b, partition) && b.spc > 0 <==>
      && b.spc > 0 && b.reserved > 0 && 1 <= b.tables <= 2 && b.fatSize32 > 0
      && var region := b.reserved + b.tables * b.fatSize32;
      && region < TotalSectors(b)
      && var clusters := (TotalSectors(b) - region) / b.spc;
      && clusters > 0 && b.fatSize32 * 128 >= clusters + 2 && 2 <= b.root && b.root - 2 < clusters
  {
    if b.spc > 0 && 1 <= b.tables <= 2 {
      TableSectors(b.tables, b.fatSize32);
      var region := b.reserved + b.tables * b.fatSize32;
      if region < TotalSectors(b) {
        OneLayout(b, partition, Geo(partition, b.reserved, b.tables, b.fatSize32, b.spc,
                                    (TotalSectors(b) - region) / b.spc, TotalSectors(b), b.root));
      } else {
        forall layout | LaysOut(b, partition, layout) ensures !Complete(layout) { NoClusters(b, partition, layout); }
      }
    }
  }

  lemma NoClusters(b: BootSector, partition: nat, g: Geo)
    requires LaysOut(b, partition, g) && g.DataStart() >= partition + TotalSectors(b) && b.spc > 0
    ensures g.clusters == 0
  {
    if g.clusters > 0 {
      MulStep(0, g.clusters, g.spc);
    }
  }

  /** There is one layout, the one computed. */
  lemma OneLayout(b: BootSector, partition: nat, g: Geo)
    requires 1 <= b.tables <= 2 && b.spc > 0
    requires var region := b.reserved + b.tables * b.fatSize32;
             && region < TotalSectors(b)
             && g == Geo(partition, b.reserved, b.tables, b.fatSize32, b.spc, (TotalSectors(b) - region) / b.spc,
                         TotalSectors(b), b.root)
    ensures LaysOut(b, partition, g) && forall layout :: LaysOut(b, partition, layout) ==> layout == g
  {
    TableSectors(b.tables, b.fatSize32);
    var n := TotalSectors(b) - (b.reserved + b.tables * b.fatSize32);
    DivFits(n, b.spc);
    forall layout | LaysOut(b, partition, layout) ensures layout == g {
      DivUnique(n, b.spc, layout.clusters);
    }
  }

  lemma DivUnique(n: nat, x: nat, q: nat)
    requires x > 0 && q * x <= n < q * x + x
    ensures q == n / x
  {
    DivFits(n, x);
    if q < n / x {
      MulStep(q, n / x, x);
    } else if n / x < q {
      MulStep(n / x, q, x);
    }
  }

  lemma TableSectors(tables: nat, size: nat)
    requires 1 <= tables <= 2
    ensures tables * size == (if tables == 2 then size else 0) + size
  {}

  lemma DivFits(n: nat, x: nat)
    requires x > 0
    ensures n / x * x <= n < n / x * x + x
  {}

  predicate IsData(g: Geo, c: nat) { 2 <= c && c - 2 < g.clusters }

  /** A value an entry of a well-formed table may have. */
  predicate IsEntryValue(g: Geo, v: nat) { v == 0 || END <= v < ENTRY_BITS || IsData(g, v) }

  function Lba(g: Geo, c: nat): nat
    requires IsData(g, c)
  {
    g.DataStart() + (c - 2) * g.spc
  }

  lemma {:induction false} MulStep(k: nat, n: nat, x: nat)
    requires k < n
    ensures k * x + x <= n * x
  {
    assert n * x == (n - 1) * x + x;
    if k < n - 1 {
      MulStep(k, n - 1, x);
    }
  }

  /** A cluster's sectors lie in the data region, below 2^32. */
  lemma LbaInVolume(g: Geo, c: nat)
    requires GeoOk(g) && IsData(g, c)
    ensures g.DataStart() <= Lba(g, c) && Lba(g, c) + g.spc <= g.partition + g.total
  {
    MulStep(c - 2, g.clusters, g.spc);
  }

  /** Different clusters share no sector. */
  lemma LbaApart(g: Geo, b: nat, c: nat)
    requires IsData(g, b) && IsData(g, c) && b < c
    ensures Lba(g, b) + g.spc <= Lba(g, c)
  {
    MulStep(b - 2, c - 2, g.spc);
  }

  ghost predicate Backed(g: Geo, d: seq<Block>) { GeoOk(g) && |d| >= g.partition + g.total }

  /** The sector that holds entry `e` of copy `t`. */
  function FatSector(g: Geo, t: nat, e: nat): nat {
    g.FatStart() + (if t == 0 then 0 else g.fatSectors) + e / 128
  }

  lemma FatSectorIn(g: Geo, t: nat, e: nat)
    requires GeoOk(g) && t < g.tables && e < 128 * g.fatSectors
    ensures g.FatStart() <= FatSector(g, t, e) < g.DataStart() <= g.partition + g.total
  {
    assert 0 <= g.clusters * g.spc;
  }

  ghost function Raw(g: Geo, d: seq<Block>, t: nat, e: nat): nat
    requires Backed(g, d) && t < g.tables && e < 128 * g.fatSectors
  {
    FatSectorIn(g, t, e);
    Word(d[FatSector(g, t, e)], e % 128)
  }

  /** Entry `c` of the first copy, without its four reserved bits. */
  ghost predicate IsEntry(g: Geo, d: seq<Block>, c: nat, v: nat)
    requires Backed(g, d) && c < g.clusters + 2
  {
    v == Raw(g, d, 0, c) % ENTRY_BITS
  }

  ghost predicate IsFat(g: Geo, d: seq<Block>, f: seq<nat>)
    requires Backed(g, d)
  {
    |f| == g.clusters + 2 && forall c {:trigger IsEntry(g, d, c, f[c])} :: 0 <= c < |f| ==> IsEntry(g, d, c, f[c])
  }

  /** The table a volume's chains are read from. */
  ghost function Fat(g: Geo, d: seq<Block>): (f: seq<nat>)
    requires Backed(g, d)
    ensures IsFat(g, d, f)
  {
    var f0 := seq(g.clusters + 2, c requires 0 <= c < g.clusters + 2 => Raw(g, d, 0, c) % ENTRY_BITS);
    assert IsFat(g, d, f0);
    var f :| IsFat(g, d, f);
    f
  }

  /** The copies of the table agree. */
  ghost predicate Mirrored(g: Geo, d: seq<Block>)
    requires Backed(g, d)
  {
    forall t, e {:trigger Raw(g, d, t, e)} :: 0 <= t < g.tables && 0 <= e < 128 * g.fatSectors ==>
      Raw(g, d, t, e) == Raw(g, d, 0, e)
  }

  function Masked(old_: nat, v: nat): nat { old_ - old_ % ENTRY_BITS + v % ENTRY_BITS }

  ghost predicate InFats(g: Geo, x: nat) { g.FatStart() <= x < g.DataStart() }

  /** Entry `c` became `v` in the first `n` copies, its reserved bits kept; nothing
      else changed. */
  ghost predicate EntryWritten(g: Geo, d: seq<Block>, d': seq<Block>, c: nat, v: nat, n: nat) {
    && Backed(g, d) && Backed(g, d') && |d'| == |d| && n <= g.tables && c < g.clusters + 2
    && (forall t, e {:trigger Raw(g, d', t, e)} :: 0 <= t < g.tables && 0 <= e < 128 * g.fatSectors ==>
          Raw(g, d', t, e) == if t < n && e == c then Masked(Raw(g, d, t, e), v) else Raw(g, d, t, e))
    && (forall x {:trigger d'[x]} :: 0 <= x < |d| && !InFats(g, x) ==> d'[x] == d[x])
  }

  /** Writing all copies changes one entry, keeps the reserved bits of every copy
      and keeps the copies equal. */
  lemma EntryWrittenFat(g: Geo, d: seq<Block>, d': seq<Block>, c: nat, v: nat)
    requires EntryWritten(g, d, d', c, v, g.tables) && v < ENTRY_BITS
    ensures Fat(g, d') == Fat(g, d)[c := v]
    ensures Mirrored(g, d) ==> Mirrored(g, d')
    ensures forall t :: 0 <= t < g.tables ==> Raw(g, d', t, c) / ENTRY_BITS == Raw(g, d, t, c) / ENTRY_BITS
  {
    var f, f' := Fat(g, d), Fat(g, d');
    forall e | 0 <= e < g.clusters + 2 ensures f'[e] == f[c := v][e] {
      assert IsEntry(g, d, e, f[e]) && IsEntry(g, d', e, f'[e]);
      MaskedParts(Raw(g, d, 0, e), v);
    }
    forall t | 0 <= t < g.tables ensures Raw(g, d', t, c) / ENTRY_BITS == Raw(g, d, t, c) / ENTRY_BITS {
      MaskedParts(Raw(g, d, t, c), v);
    }
    if Mirrored(g, d) {
      forall t, e | 0 <= t < g.tables && 0 <= e < 128 * g.fatSectors ensures Raw(g, d', t, e) == Raw(g, d', 0, e) {
        assert Raw(g, d, t, e) == Raw(g, d, 0, e);
      }
    }
  }

  lemma MaskedParts(old_: nat, v: nat)
    requires v < ENTRY_BITS
    ensures Masked(old_, v) % ENTRY_BITS == v && Masked(old_, v) / ENTRY_BITS == old_ / ENTRY_BITS
  {}

  /** Rewriting the sector of entry `c` in copy `t`. */
  lemma EntryStep(g: Geo, d: seq<Block>, d1: seq<Block>, c: nat, v: nat, t: nat)
    requires EntryWritten(g, d, d1, c, v, t) && t < g.tables && v < ENTRY_BITS
    requires FatSector(g, t, c) < |d1|
    ensures Masked(Word(d1[FatSector(g, t, c)], c % 128), v) < 0x1_0000_0000
    ensures var x := FatSector(g, t, c);
            EntryWritten(g, d, d1[x := WithWord(d1[x], c % 128, Masked(Word(d1[x], c % 128), v))], c, v, t + 1)
  {
    var x := FatSector(g, t, c);
    var was := Word(d1[x], c % 128);
    assert was - was % ENTRY_BITS <= 0xF000_0000;
    var d2 := d1[x := WithWord(d1[x], c % 128, Masked(was, v))];
    FatSectorIn(g, t, c);
    forall u, e | 0 <= u < g.tables && 0 <= e < 128 * g.fatSectors
      ensures Raw(g, d2, u, e) == if u < t + 1 && e == c then Masked(Raw(g, d, u, e), v) else Raw(g, d, u, e)
    {
      FatSectorIn(g, u, e);
      assert Raw(g, d1, u, e) == if u < t && e == c then Masked(Raw(g, d, u, e), v) else Raw(g, d, u, e);
      if FatSector(g, u, e) == x {
        SameSector(g, u, e, t, c);
      }
    }
  }

  lemma SameSector(g: Geo, u: nat, e: nat, t: nat, c: nat)
    requires GeoOk(g) && u < g.tables && t < g.tables && e < 128 * g.fatSectors && c < 128 * g.fatSectors
    requires FatSector(g, u, e) == FatSector(g, t, c)
    ensures u == t && e / 128 == c / 128 && (e % 128 == c % 128 ==> e == c)
  {
    assert e / 128 < g.fatSectors && c / 128 < g.fatSectors;
  }

  // ----- the volume -----

  class FatVolume {
    const geo: Geo
    var disk: seq<Block>
    var cacheValid: bool
    var cacheLba: nat
    var cache: Block

    /** The cached sector, if any, is the one on disk. */
    ghost predicate Valid()
      reads this
    {
      && Backed(geo, disk)
      && (cacheValid ==> cacheLba < |disk| && cache == disk[cacheLba])
    }

    constructor (g: Geo, d: seq<Block>)
      requires Backed(g, d)
      ensures Valid() && geo == g && disk == d
    {
      geo, disk, cacheValid, cacheLba, cache := g, d, false, 0, ZeroBlock();
    }

    method WriteSector(lba: nat, blk: Block) returns (ok: bool)
      requires Valid()
      modifies this`disk, this`cacheValid
      ensures Valid() && (ok <==> geo.partition <= lba < geo.partition + geo.total)
      ensures disk == if ok then old(disk)[lba := blk] else old(disk)
    {
      if !(geo.partition <= lba < geo.partition + geo.total) {
        return false;
      }
      disk := disk[lba := blk];
      cacheValid := false;
      return true;
    }

    /** Reads an entry of the first copy through the sector cache. */
    method NextCluster(c: nat) returns (ok: bool, next: nat)
      requires Valid()
      modifies this`cacheValid, this`cacheLba, this`cache
      ensures Valid()
      ensures ok <==> IsData(geo, c) && IsEntryValue(geo, Fat(geo, disk)[c])
      ensures IsData(geo, c) ==> next == Fat(geo, disk)[c]
    {
      if !IsData(geo, c) {
        return false, 0;
      }
      var sector := geo.FatStart() + c * 4 / 512;
      var index := c * 4 % 512 / 4;
      assert sector == FatSector(geo, 0, c) && index == c % 128;
      FatSectorIn(geo, 0, c);
      if !cacheValid || cacheLba != sector {
        cache := disk[sector];
        cacheLba, cacheValid := sector, true;
      }
      next := Word(cache, index) % ENTRY_BITS;
      assert IsEntry(geo, disk, c, Fat(geo, disk)[c]);
      ok := !(next != 0 && next < END && !IsData(geo, next));
    }

    /** Writes an entry into every copy of the table. */
    method WriteFatEntry(c: nat, v: nat) returns (ok: bool)
      requires Valid() && v < ENTRY_BITS
      modifies this`disk, this`cacheValid
      ensures Valid() && (ok <==> IsData(geo, c) && IsEntryValue(geo, v))
      ensures !ok ==> disk == old(disk)
      ensures ok ==> EntryWritten(geo, old(disk), disk, c, v, geo.tables)
      ensures ok ==> Fat(geo, disk) == Fat(geo, old(disk))[c := v] && (Mirrored(geo, old(disk)) ==> Mirrored(geo, disk))
    {
      if !IsData(geo, c) || !IsEntryValue(geo, v) {
        return false;
      }
      for t := 0 to geo.tables
        invariant Valid() && EntryWritten(geo, old(disk), disk, c, v, t)
      {
        var sector := FatSector(geo, t, c);
        FatSectorIn(geo, t, c);
        EntryStep(geo, old(disk), disk, c, v, t);
        var blk := disk[sector];
        blk := WithWord(blk, c % 128, Masked(Word(blk, c % 128), v));
        var written := WriteSector(sector, blk);
      }
      EntryWrittenFat(geo, old(disk), disk, c, v);
      return true;
    }

    /** Clears the sectors of a cluster. */
    method ZeroCluster(c: nat) returns (ok: bool)
      requires Valid()
      modifies this`disk, this`cacheValid
      ensures Valid() && (ok <==> IsData(geo, c)) && |disk| == |old(disk)|
      ensures !ok ==> disk == old(disk)
      ensures ok ==> Zeroed(geo, old(disk), disk, c, geo.spc)
    {
      if !IsData(geo, c) {
        return false;
      }
      LbaInVolume(geo, c);
      var lba := Lba(geo, c);
      for s := 0 to geo.spc
        invariant Valid() && Zeroed(geo, old(disk), disk, c, s)
      {
        var written := WriteSector(lba + s, ZeroBlock());
      }
      return true;
    }

    /** Takes the lowest free cluster, marks it as the end of a chain and clears
        its sectors. */
    method AllocCluster() returns (ok: bool, c: nat)
      requires Valid()
      modifies this`disk, this`cacheValid, this`cacheLba, this`cache
      ensures Valid() && |disk| == |old(disk)|
      ensures !ok ==> disk == old(disk) && NoneFree(geo, Fat(geo, disk))
      ensures ok ==> FirstFree(geo, Fat(geo, old(disk)), c) && Allocated(geo, old(disk), disk, c)
      ensures ok ==> Fat(geo, disk) == Fat(geo, old(disk))[c := END]
      ensures ok && Mirrored(geo, old(disk)) ==> Mirrored(geo, disk)
    {
      ghost var f := Fat(geo, disk);
      c := 2;
      while c < geo.clusters + 2
        invariant 2 <= c <= geo.clusters + 2 && Valid() && disk == old(disk)
        invariant forall b :: 2 <= b < c ==> f[b] != 0
      {
        var read, value := NextCluster(c);
        if !read {
          assert FullUpTo(geo, f, c);
          return false, 0;
        }
        if value == 0 {
          var written := WriteFatEntry(c, END);
          ghost var marked := disk;
          var zeroed := ZeroCluster(c);
          ClusterAlone(geo, old(disk), marked, disk, c);
          return true, c;
        }
        c := c + 1;
      }
      assert FullUpTo(geo, f, c);
      return false, 0;
    }
  }

  /** No entry is zero, at least up to the first one that makes no sense. */
  ghost predicate NoneFree(g: Geo, f: seq<nat>)
    requires |f| == g.clusters + 2
  {
    exists n :: FullUpTo(g, f, n)
  }

  ghost predicate FullUpTo(g: Geo, f: seq<nat>, n: nat) {
    2 <= n <= |f| && (forall b :: 2 <= b < n ==> f[b] != 0) && (n < |f| ==> !IsEntryValue(g, f[n]))
  }

  ghost predicate FirstFree(g: Geo, f: seq<nat>, c: nat)
    requires |f| == g.clusters + 2
  {
    IsData(g, c) && f[c] == 0 && forall b :: 2 <= b < c ==> f[b] != 0
  }

  /** Outside the tables, cluster `c` is zero and nothing else changed. */
  ghost predicate Allocated(g: Geo, d: seq<Block>, d': seq<Block>, c: nat) {
    && |d'| == |d| && IsData(g, c)
    && forall x {:trigger d'[x]} :: 0 <= x < |d| && !InFats(g, x) ==>
       d'[x] == if InCluster(g, c, g.spc, x) then ZeroBlock() else d[x]
  }

  /** Writes outside the tables leave them alone. */
  lemma FatKept(g: Geo, d: seq<Block>, d': seq<Block>)
    requires Backed(g, d) && |d'| == |d| && forall x {:trigger d'[x]} :: 0 <= x < |d| && InFats(g, x) ==> d'[x] == d[x]
    ensures Fat(g, d') == Fat(g, d) && (Mirrored(g, d) ==> Mirrored(g, d'))
  {
    forall t, e | 0 <= t < g.tables && 0 <= e < 128 * g.fatSectors ensures Raw(g, d', t, e) == Raw(g, d, t, e) {
      FatSectorIn(g, t, e);
      assert InFats(g, FatSector(g, t, e));
    }
    var f, f' := Fat(g, d), Fat(g, d');
    forall c | 0 <= c < |f| ensures f'[c] == f[c] {
      assert IsEntry(g, d, c, f[c]) && IsEntry(g, d', c, f'[c]);
    }
    if Mirrored(g, d) {
      forall t, e | 0 <= t < g.tables && 0 <= e < 128 * g.fatSectors ensures Raw(g, d', t, e) == Raw(g, d', 0, e) {
        assert Raw(g, d, t, e) == Raw(g, d, 0, e);
      }
    }
  }

  /** Clearing a cluster after marking it. */
  lemma ClusterAlone(g: Geo, d0: seq<Block>, d1: seq<Block>, d2: seq<Block>, c: nat)
    requires EntryWritten(g, d0, d1, c, END, g.tables) && Zeroed(g, d1, d2, c, g.spc)
    ensures Fat(g, d2) == Fat(g, d1) && (Mirrored(g, d1) ==> Mirrored(g, d2)) && Allocated(g, d0, d2, c)
  {
    LbaInVolume(g, c);
    assert forall x :: InFats(g, x) ==> !InCluster(g, c, g.spc, x);
    FatKept(g, d1, d2);
  }

  ghost predicate InCluster(g: Geo, c: nat, n: nat, x: nat)
    requires IsData(g, c)
  {
    Lba(g, c) <= x < Lba(g, c) + n
  }

  /** The first `n` sectors of cluster `c` are zero and nothing else changed. */
  ghost predicate Zeroed(g: Geo, d: seq<Block>, d': seq<Block>, c: nat, n: nat) {
    && |d'| == |d| && IsData(g, c)
    && forall x {:trigger d'[x]} :: 0 <= x < |d| ==> d'[x] == if InCluster(g, c, n, x) then ZeroBlock() else d[x]
  }
}
