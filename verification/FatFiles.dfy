/** FAT32 file contents (fs/fat32_file.c): reading by runs of clusters equals looking
    every byte up through the chain. */
module FatFiles {
  import opened Bitmap
  import opened Extents
  import opened Contents
  import opened FatTable

  const RUN_MAX := 128

  // ----- the sectors of a chain -----

  ghost function ClusterExtent(g: Geo, c: nat): Extent {
    Extent(if IsData(g, c) then Lba(g, c) else 0, g.spc)
  }

  ghost function ChainExtents(g: Geo, ch: seq<nat>): (es: seq<Extent>)
    ensures |es| == |ch| && forall i :: 0 <= i < |ch| ==> es[i] == ClusterExtent(g, ch[i])
  {
    seq(|ch|, i requires 0 <= i < |ch| => ClusterExtent(g, ch[i]))
  }

  /** The sectors of a file, in order. */
  ghost function Sectors(g: Geo, ch: seq<nat>): seq<nat> { Phys(ChainExtents(g, ch)) }

  /** How many sectors come before cluster `i`. */
  ghost function Base(g: Geo, ch: seq<nat>, i: nat): nat
    requires i <= |ch|
  {
    |Sectors(g, ch[..i])|
  }

  ghost predicate AllData(g: Geo, ch: seq<nat>) {
    forall i {:trigger IsData(g, ch[i])} :: 0 <= i < |ch| ==> IsData(g, ch[i])
  }

  lemma SectorsAt(g: Geo, ch: seq<nat>, i: nat)
    requires i < |ch|
    ensures Sectors(g, ch) == Sectors(g, ch[..i]) + Run(ClusterExtent(g, ch[i]).start, g.spc) + Sectors(g, ch[i + 1..])
    ensures Base(g, ch, i + 1) == Base(g, ch, i) + g.spc <= |Sectors(g, ch)|
  {
    var es := ChainExtents(g, ch);
    PhysAt(es, i);
    assert es[..i] == ChainExtents(g, ch[..i]) && es[i + 1..] == ChainExtents(g, ch[i + 1..]);
    PhysSnoc(es, i);
    assert es[..i + 1] == ChainExtents(g, ch[..i + 1]);
  }

  lemma SectorIs(g: Geo, ch: seq<nat>, i: nat, s: nat)
    requires AllData(g, ch) && i < |ch| && s < g.spc
    ensures Base(g, ch, i) + s < |Sectors(g, ch)| && Sectors(g, ch)[Base(g, ch, i) + s] == Lba(g, ch[i]) + s
  {
    SectorsAt(g, ch, i);
    assert IsData(g, ch[i]);
  }

  lemma BaseEnds(g: Geo, ch: seq<nat>)
    ensures Base(g, ch, 0) == 0 && Base(g, ch, |ch|) == |Sectors(g, ch)|
  {
    assert ch[..0] == [] && ch[..|ch|] == ch;
    assert ChainExtents(g, []) == [];
  }

  lemma BaseInside(g: Geo, ch: seq<nat>, i: nat)
    requires i <= |ch|
    ensures Base(g, ch, i) <= |Sectors(g, ch)|
  {
    if i < |ch| {
      SectorsAt(g, ch, i);
    } else {
      BaseEnds(g, ch);
    }
  }

  /** Every sector of a file lies in the data region of the volume. */
  lemma {:induction false} SectorsIn(g: Geo, ch: seq<nat>)
    requires GeoOk(g) && AllData(g, ch)
    ensures Within(Sectors(g, ch), g.DataStart(), g.partition + g.total)
  {
    if ch != [] {
      var es := ChainExtents(g, ch);
      assert IsData(g, ch[0]);
      assert forall i {:trigger IsData(g, ch[1..][i])} :: 0 <= i < |ch| - 1 ==> IsData(g, ch[i + 1]);
      SectorsIn(g, ch[1..]);
      LbaInVolume(g, ch[0]);
      assert es[1..] == ChainExtents(g, ch[1..]);
      assert Sectors(g, ch) == Run(Lba(g, ch[0]), g.spc) + Sectors(g, ch[1..]);
    }
  }

  // ----- paths through any table -----

  /** The clusters reached from `first`; the table may be damaged or cyclic. */
  ghost predicate IsPath(g: Geo, f: seq<nat>, first: nat, ch: seq<nat>) {
    && |f| == g.clusters + 2 && AllData(g, ch) && (ch != [] ==> ch[0] == first)
    && forall i {:trigger Linked(f, ch, i)} :: 0 <= i < |ch| - 1 ==> Linked(f, ch, i)
  }

  ghost predicate Linked(f: seq<nat>, ch: seq<nat>, i: nat)
    requires i + 1 < |ch|
  {
    ch[i] < |f| && f[ch[i]] == ch[i + 1]
  }

  /** The path goes no further. */
  ghost predicate Stuck(g: Geo, f: seq<nat>, first: nat, ch: seq<nat>) {
    if ch == [] then !IsData(g, first)
    else ch[|ch| - 1] < |f| && !IsData(g, f[ch[|ch| - 1]])
  }

  /** Any table has a path from any cluster that is stuck or as long as wanted. */
  lemma {:induction false} PathExists(g: Geo, f: seq<nat>, first: nat, n: nat) returns (ch: seq<nat>)
    requires |f| == g.clusters + 2
    ensures IsPath(g, f, first, ch) && |ch| <= n && (|ch| == n || Stuck(g, f, first, ch))
  {
    if n == 0 || !IsData(g, first) {
      ch := [];
    } else if n == 1 {
      ch := [first];
    } else {
      var front := PathExists(g, f, first, n - 1);
      if |front| < n - 1 {
        return front;
      }
      var last := front[|front| - 1];
      assert IsData(g, last);
      if !IsData(g, f[last]) {
        ch := front;
      } else {
        ch := front + [f[last]];
        forall i | 0 <= i < |ch| ensures IsData(g, ch[i]) { assert i < |front| ==> IsData(g, front[i]); }
        forall i | 0 <= i < |ch| - 1 ensures Linked(f, ch, i) { assert i < |front| - 1 ==> Linked(f, front, i); }
      }
    }
  }

  // ----- reading -----

  /** Reads `count` sectors at once; refuses what does not lie in the volume. */
  method ReadSectors(vol: FatVolume, lba: nat, count: nat) returns (ok: bool, out: seq<Byte>)
    requires vol.Valid()
    ensures ok <==> count > 0 && vol.geo.partition <= lba && lba + count <= vol.geo.partition + vol.geo.total
    ensures ok ==> |out| == 512 * count && forall j :: 0 <= j < |out| ==> out[j] == vol.disk[lba + j / 512][j % 512]
  {
    if count == 0 {
      return false, [];
    }
    var last := lba + count - 1;
    if !(vol.geo.partition <= lba < vol.geo.partition + vol.geo.total) || last > 0xFFFF_FFFF
       || !(vol.geo.partition <= last < vol.geo.partition + vol.geo.total) {
      return false, [];
    }
    out := [];
    for i := 0 to count
      invariant |out| == 512 * i && forall j :: 0 <= j < |out| ==> out[j] == vol.disk[lba + j / 512][j % 512]
    {
      out := out + vol.disk[lba + i];
    }
    ok := true;
  }

  /** A path that reaches past byte `pos`, or is stuck. */
  ghost predicate Reaches(g: Geo, f: seq<nat>, first: nat, ch: seq<nat>, pos: nat) {
    IsPath(g, f, first, ch) && (512 * |Sectors(g, ch)| > pos || Stuck(g, f, first, ch))
  }

  /** The table leads on from cluster `i` exactly when the path does. */
  lemma PathNext(g: Geo, f: seq<nat>, first: nat, ch: seq<nat>, i: nat, pos: nat)
    requires Reaches(g, f, first, ch, pos) && i < |ch| && ch[i] < |f| && pos >= 512 * Base(g, ch, i + 1)
    ensures IsData(g, f[ch[i]]) <==> i + 1 < |ch|
    ensures i + 1 < |ch| ==> ch[i + 1] == f[ch[i]]
    ensures i + 1 == |ch| ==> Base(g, ch, i + 1) == |Sectors(g, ch)|
  {
    BaseEnds(g, ch);
    if i + 1 < |ch| {
      assert Linked(f, ch, i) && IsData(g, ch[i + 1]);
    }
  }

  /** Reads the entry of cluster `i` of a path. */
  method NextOnPath(vol: FatVolume, first: nat, ghost ch: seq<nat>, ghost i: nat, cluster: nat, ghost pos: nat)
    returns (ok: bool, next: nat)
    requires vol.Valid() && Reaches(vol.geo, Fat(vol.geo, vol.disk), first, ch, pos)
    requires i < |ch| && cluster == ch[i] && pos >= 512 * Base(vol.geo, ch, i + 1)
    modifies vol`cacheValid, vol`cacheLba, vol`cache
    ensures vol.Valid() && (ok <==> i + 1 < |ch|)
    ensures ok ==> next == ch[i + 1]
    ensures !ok ==> Base(vol.geo, ch, i + 1) == |Sectors(vol.geo, ch)|
  {
    assert IsData(vol.geo, ch[i]);
    PathNext(vol.geo, Fat(vol.geo, vol.disk), first, ch, i, pos);
    ok, next := vol.NextCluster(cluster);
    ok := ok && IsData(vol.geo, next);
  }

  /** Follows the path to the cluster an offset falls in. */
  method SkipClusters(vol: FatVolume, first: nat, offset: nat, ghost ch: seq<nat>)
    returns (ok: bool, cluster: nat, rest: nat, ghost i: nat)
    requires vol.Valid() && Reaches(vol.geo, Fat(vol.geo, vol.disk), first, ch, offset) && ch != []
    modifies vol`cacheValid, vol`cacheLba, vol`cache
    ensures vol.Valid() && (ok <==> offset < 512 * |Sectors(vol.geo, ch)|)
    ensures ok ==> i < |ch| && cluster == ch[i] && rest < 512 * vol.geo.spc
    ensures ok ==> offset == 512 * Base(vol.geo, ch, i) + rest
  {
    var bytes := vol.geo.spc * 512;
    cluster, rest, i := first, offset, 0;
    BaseEnds(vol.geo, ch);
    while rest >= bytes
      invariant vol.Valid() && i < |ch| && cluster == ch[i] && offset == 512 * Base(vol.geo, ch, i) + rest
    {
      rest := rest - bytes;
      SectorsAt(vol.geo, ch, i);
      var next;
      ok, next := NextOnPath(vol, first, ch, i, cluster, offset);
      if !ok {
        return false, 0, 0, 0;
      }
      cluster, i := next, i + 1;
    }
    SectorsAt(vol.geo, ch, i);
    ok := true;
  }

  /** The sectors of `cluster` are those from index `base` on in `phys`. */
  ghost predicate ClusterAt(g: Geo, phys: seq<nat>, base: nat, cluster: nat) {
    && IsData(g, cluster) && base + g.spc <= |phys|
    && forall m {:trigger phys[m]} :: base <= m < base + g.spc ==> phys[m] == Lba(g, cluster) + (m - base)
  }

  lemma ClusterIsAt(g: Geo, ch: seq<nat>, i: nat)
    requires AllData(g, ch) && i < |ch|
    ensures ClusterAt(g, Sectors(g, ch), Base(g, ch, i), ch[i])
    ensures Base(g, ch, i + 1) == Base(g, ch, i) + g.spc <= |Sectors(g, ch)|
  {
    assert IsData(g, ch[i]);
    SectorsAt(g, ch, i);
    var all, at := Sectors(g, ch), Base(g, ch, i);
    forall m | at <= m < at + g.spc ensures all[m] == Lba(g, ch[i]) + (m - at) { SectorIs(g, ch, i, m - at); }
  }

  /** Whole sectors of a cluster. */
  method ReadFull(vol: FatVolume, ghost phys: seq<nat>, ghost base: nat, cluster: nat, sector: nat, count: nat)
    returns (out: seq<Byte>)
    requires vol.Valid() && ClusterAt(vol.geo, phys, base, cluster) && count > 0 && sector + count <= vol.geo.spc
    ensures |out| == 512 * count && Fetched(vol.disk, phys, 512 * (base + sector), out)
  {
    LbaInVolume(vol.geo, cluster);
    var ok;
    ok, out := ReadSectors(vol, Lba(vol.geo, cluster) + sector, count);
    assert phys[base + sector] == Lba(vol.geo, cluster) + sector;
    assert Contiguous(phys, base + sector, count);
    RunFetched(vol.disk, phys, base + sector, count, out);
  }

  /** Part of one sector of a cluster. */
  method ReadPart(vol: FatVolume, ghost phys: seq<nat>, ghost base: nat, cluster: nat, sector: nat, from: nat,
                  size: nat)
    returns (out: seq<Byte>)
    requires vol.Valid() && ClusterAt(vol.geo, phys, base, cluster) && sector < vol.geo.spc && from + size <= 512
    ensures |out| == size && Fetched(vol.disk, phys, 512 * (base + sector) + from, out)
  {
    LbaInVolume(vol.geo, cluster);
    var ok, buf := ReadSectors(vol, Lba(vol.geo, cluster) + sector, 1);
    OneSector(vol.disk, Lba(vol.geo, cluster) + sector, buf);
    out := buf[from..from + size];
    assert phys[base + sector] == Lba(vol.geo, cluster) + sector;
    PartFetched(vol.disk, phys, base + sector, 512 * (base + sector) + from, out);
  }

  lemma OneSector(disk: seq<Block>, lba: nat, buf: seq<Byte>)
    requires lba < |disk| && |buf| == 512 && forall j :: 0 <= j < |buf| ==>
      lba + j / 512 < |disk| && buf[j] == disk[lba + j / 512][j % 512]
    ensures buf == disk[lba]
  {
    forall j | 0 <= j < 512 ensures buf[j] == disk[lba][j] {
      assert j / 512 == 0 && j % 512 == j;
    }
  }

  /** What is left of a cluster from a sector on: whole sectors, then part of one. */
  method ReadRest(vol: FatVolume, ghost phys: seq<nat>, ghost base: nat, cluster: nat, sector: nat, n: nat)
    returns (out: seq<Byte>)
    requires vol.Valid() && ClusterAt(vol.geo, phys, base, cluster) && sector <= vol.geo.spc
    ensures |out| == Min(n, 512 * (vol.geo.spc - sector)) && Fetched(vol.disk, phys, 512 * (base + sector), out)
  {
    out := [];
    var next := sector;
    if n >= 512 && sector < vol.geo.spc {
      var full := n / 512;
      if full > vol.geo.spc - sector {
        full := vol.geo.spc - sector;
      }
      out := ReadFull(vol, phys, base, cluster, sector, full);
      next := sector + full;
    }
    if |out| < n && next < vol.geo.spc {
      var part := ReadPart(vol, phys, base, cluster, next, 0, n - |out|);
      FetchedMore(vol.disk, phys, 512 * (base + sector), out, part);
      out := out + part;
    }
  }

  /** What is left of a cluster from a byte on. */
  method ReadInside(vol: FatVolume, ghost phys: seq<nat>, ghost base: nat, cluster: nat, offset: nat, n: nat)
    returns (out: seq<Byte>)
    requires vol.Valid() && ClusterAt(vol.geo, phys, base, cluster) && offset < 512 * vol.geo.spc
    ensures |out| == Min(n, 512 * vol.geo.spc - offset) && Fetched(vol.disk, phys, 512 * base + offset, out)
  {
    var sector, within := offset / 512, offset % 512;
    if within == 0 {
      out := ReadRest(vol, phys, base, cluster, sector, n);
      return;
    }
    var size := if 512 - within > n then n else 512 - within;
    out := ReadPart(vol, phys, base, cluster, sector, within, size);
    var rest := ReadRest(vol, phys, base, cluster, sector + 1, n - size);
    JoinParts(vol.disk, phys, 512 * base + offset, out, rest, 512 * (base + (sector + 1)));
    out := out + rest;
  }

  /** The longest run of clusters from `i` on that are consecutive on disk, wholly
      inside the request, and no more than the limit. */
  method ScanRun(vol: FatVolume, first: nat, ghost ch: seq<nat>, ghost i: nat, cluster: nat, limit: nat, ghost end: nat)
    returns (run: nat, scan: nat)
    requires vol.Valid() && end > 0 && Reaches(vol.geo, Fat(vol.geo, vol.disk), first, ch, end - 1)
    requires i < |ch| && cluster == ch[i] && limit >= 1
    requires 512 * Base(vol.geo, ch, i) + limit * (512 * vol.geo.spc) <= end
    modifies vol`cacheValid, vol`cacheLba, vol`cache
    ensures vol.Valid() && 1 <= run <= limit && IsRunOf(vol.geo, ch, i, run) && scan == ch[i + run - 1]
  {
    run, scan := 1, cluster;
    assert IsData(vol.geo, ch[i]);
    RunOfOne(vol.geo, ch, i);
    while run < limit
      invariant vol.Valid() && 1 <= run <= limit && IsRunOf(vol.geo, ch, i, run) && scan == ch[i + run - 1]
    {
      RunReaches(vol.geo, ch, i, run, limit, end);
      var ok, next := NextOnPath(vol, first, ch, i + run - 1, scan, end - 1);
      if !ok || next != scan + 1 {
        break;
      }
      RunOfMore(vol.geo, ch, i, run);
      scan, run := next, run + 1;
    }
  }

  lemma RunReaches(g: Geo, ch: seq<nat>, i: nat, run: nat, limit: nat, end: nat)
    requires IsRunOf(g, ch, i, run) && run < limit && 1 <= g.spc
    requires 512 * Base(g, ch, i) + limit * (512 * g.spc) <= end
    ensures 512 * Base(g, ch, i + run) < end
  {
    MulStep(run, limit, 512 * g.spc);
  }

  /** `run` clusters from `i` on occupy consecutive sectors. */
  ghost predicate IsRunOf(g: Geo, ch: seq<nat>, i: nat, run: nat) {
    && AllData(g, ch) && run >= 1 && i + run <= |ch|
    && var n := Base(g, ch, i + run) - Base(g, ch, i);
    && n == run * g.spc && 512 * n == run * (512 * g.spc)
    && Contiguous(Sectors(g, ch), Base(g, ch, i), n)
    && IsData(g, ch[i + run - 1]) && IsData(g, ch[i]) && Lba(g, ch[i + run - 1]) + g.spc == Lba(g, ch[i]) + n
  }

  lemma RunOfOne(g: Geo, ch: seq<nat>, i: nat)
    requires AllData(g, ch) && i < |ch| && 1 <= g.spc
    ensures IsRunOf(g, ch, i, 1)
  {
    assert IsData(g, ch[i]);
    SectorsAt(g, ch, i);
    SectorIs(g, ch, i, 0);
    var all, at := Sectors(g, ch), Base(g, ch, i);
    forall m | at <= m < at + g.spc ensures all[m] == all[at] + (m - at) { SectorIs(g, ch, i, m - at); }
  }

  lemma RunOfMore(g: Geo, ch: seq<nat>, i: nat, run: nat)
    requires IsRunOf(g, ch, i, run) && 1 <= g.spc && i + run < |ch| && ch[i + run] == ch[i + run - 1] + 1
    ensures IsRunOf(g, ch, i, run + 1)
  {
    assert IsData(g, ch[i + run]);
    SectorsAt(g, ch, i + run);
    SectorIs(g, ch, i, 0);
    NextLba(g, ch[i + run - 1]);
    MulMore(run, g.spc);
    MulMore(run, 512 * g.spc);
    var all, at, mid := Sectors(g, ch), Base(g, ch, i), Base(g, ch, i + run);
    forall m | at <= m < mid + g.spc ensures all[m] == all[at] + (m - at) {
      if m >= mid {
        SectorIs(g, ch, i + run, m - mid);
      }
    }
  }

  lemma NextLba(g: Geo, c: nat)
    requires IsData(g, c) && IsData(g, c + 1)
    ensures Lba(g, c + 1) == Lba(g, c) + g.spc
  {
    MulMore(c - 2, g.spc);
  }

  lemma MulMore(k: nat, x: nat)
    ensures (k + 1) * x == k * x + x
  {}

  /** As many clusters as fit, but at most `cap`. */
  lemma Capped(n: nat, x: nat, cap: nat)
    requires x > 0 && n >= x && cap >= 1
    ensures 1 <= Min(n / x, cap) && Min(n / x, cap) * x <= n
  {
    assert n / x * x <= n && n / x >= 1;
    if cap < n / x {
      MulStep(cap, n / x, x);
    }
  }

  /** Reads a run of at least two clusters in one go. */
  method ReadRun(vol: FatVolume, ghost ch: seq<nat>, ghost i: nat, cluster: nat, run: nat) returns (out: seq<Byte>)
    requires vol.Valid() && run >= 1 && IsRunOf(vol.geo, ch, i, run) && cluster == ch[i]
    ensures |out| == run * (512 * vol.geo.spc) && 512 * Base(vol.geo, ch, i) + |out| == 512 * Base(vol.geo, ch, i + run)
    ensures Fetched(vol.disk, Sectors(vol.geo, ch), 512 * Base(vol.geo, ch, i), out)
  {
    RunInVolume(vol.geo, ch, i, run);
    var ok;
    ok, out := ReadSectors(vol, Lba(vol.geo, cluster), run * vol.geo.spc);
    RunFetched(vol.disk, Sectors(vol.geo, ch), Base(vol.geo, ch, i), run * vol.geo.spc, out);
  }

  lemma RunInVolume(g: Geo, ch: seq<nat>, i: nat, run: nat)
    requires GeoOk(g) && IsRunOf(g, ch, i, run)
    ensures run * g.spc > 0 && g.partition <= Lba(g, ch[i]) && Lba(g, ch[i]) + run * g.spc <= g.partition + g.total
    ensures Contiguous(Sectors(g, ch), Base(g, ch, i), run * g.spc) && Sectors(g, ch)[Base(g, ch, i)] == Lba(g, ch[i])
    ensures 512 * (run * g.spc) == run * (512 * g.spc) && Base(g, ch, i + run) == Base(g, ch, i) + run * g.spc
  {
    LbaInVolume(g, ch[i]);
    LbaInVolume(g, ch[i + run - 1]);
    SectorIs(g, ch, i, 0);
  }

  /** Reads on from a position in cluster `i`: to the end of that cluster or of a
      run of clusters, or to the end of the request. */
  method ReadPiece(vol: FatVolume, first: nat, ghost ch: seq<nat>, ghost i: nat, cluster: nat, offset: nat,
                   remaining: nat)
    returns (out: seq<Byte>, cluster': nat, ghost i': nat)
    requires vol.Valid() && i < |ch| && cluster == ch[i] && offset < 512 * vol.geo.spc && remaining > 0
    requires Reaches(vol.geo, Fat(vol.geo, vol.disk), first, ch, 512 * Base(vol.geo, ch, i) + offset + remaining - 1)
    modifies vol`cacheValid, vol`cacheLba, vol`cache
    ensures vol.Valid() && i <= i' < |ch| && cluster' == ch[i'] && 0 < |out| <= remaining
    ensures Fetched(vol.disk, Sectors(vol.geo, ch), 512 * Base(vol.geo, ch, i) + offset, out)
    ensures 512 * Base(vol.geo, ch, i) + offset + |out| <= 512 * Base(vol.geo, ch, i' + 1)
    ensures |out| == remaining || 512 * Base(vol.geo, ch, i) + offset + |out| == 512 * Base(vol.geo, ch, i' + 1)
  {
    cluster', i' := cluster, i;
    var bytes := vol.geo.spc * 512;
    ghost var phys, base := Sectors(vol.geo, ch), Base(vol.geo, ch, i);
    ClusterIsAt(vol.geo, ch, i);
    if offset == 0 && remaining >= bytes {
      var run, scan := FindRun(vol, first, ch, i, cluster, remaining);
      if run > 1 {
        out := ReadRun(vol, ch, i, cluster, run);
        return out, scan, i + run - 1;
      }
    }
    out := ReadInside(vol, phys, base, cluster, offset, remaining);
    assert |out| == Min(remaining, 512 * vol.geo.spc - offset);
  }

  /** The run of clusters to read at once when at least one whole cluster is left. */
  method FindRun(vol: FatVolume, first: nat, ghost ch: seq<nat>, ghost i: nat, cluster: nat, remaining: nat)
    returns (run: nat, scan: nat)
    requires vol.Valid() && i < |ch| && cluster == ch[i] && remaining >= 512 * vol.geo.spc > 0
    requires Reaches(vol.geo, Fat(vol.geo, vol.disk), first, ch, 512 * Base(vol.geo, ch, i) + remaining - 1)
    modifies vol`cacheValid, vol`cacheLba, vol`cache
    ensures vol.Valid() && IsRunOf(vol.geo, ch, i, run) && scan == ch[i + run - 1]
    ensures 512 * vol.geo.spc <= run * (512 * vol.geo.spc) <= remaining
  {
    var bytes := vol.geo.spc * 512;
    var limit := remaining / bytes;
    if limit > RUN_MAX {
      limit := RUN_MAX;
    }
    Capped(remaining, bytes, RUN_MAX);
    run, scan := ScanRun(vol, first, ch, i, cluster, limit, 512 * Base(vol.geo, ch, i) + remaining);
    RunFits(run, limit, bytes, remaining);
  }

  lemma RunFits(run: nat, limit: nat, x: nat, n: nat)
    requires 1 <= run <= limit && limit * x <= n
    ensures x <= run * x <= n
  {
    if run < limit {
      MulStep(run, limit, x);
    }
    if run > 1 {
      MulStep(1, run, x);
    }
  }

  lemma JoinParts(disk: seq<Block>, phys: seq<nat>, from: nat, out: seq<Byte>, more: seq<Byte>, at: nat)
    requires Fetched(disk, phys, from, out) && Fetched(disk, phys, at, more) && (more == [] || from + |out| == at)
    ensures Fetched(disk, phys, from, out + more)
  {
    if more == [] {
      assert out + more == out;
    } else {
      FetchedMore(disk, phys, from, out, more);
    }
  }

  /** Reads at most `n` bytes at an offset of a file whose clusters are the path
      `ch`, whatever the table holds.  It fails only if the path is too short. */
  method ReadFileRange(vol: FatVolume, first: nat, size: nat, isDir: bool, offset: nat, n: nat, ghost ch: seq<nat>)
    returns (ok: bool, out: seq<Byte>)
    requires vol.Valid()
    requires IsPath(vol.geo, Fat(vol.geo, vol.disk), first, ch) && (IsData(vol.geo, first) <==> ch != [])
    requires 512 * |Sectors(vol.geo, ch)| >= size || Stuck(vol.geo, Fat(vol.geo, vol.disk), first, ch)
    modifies vol`cacheValid, vol`cacheLba, vol`cache
    ensures vol.Valid()
    ensures ok <==>
      !isDir && offset <= size && (offset == size || n == 0 || Min(size, offset + n) <= 512 * |Sectors(vol.geo, ch)|)
    ensures ok ==> out == Content(vol.disk, Sectors(vol.geo, ch), size)[offset..Min(size, offset + n)]
  {
    out := [];
    if isDir || offset > size {
      return false, [];
    }
    if offset == size || n == 0 {
      return true, [];
    }
    if !IsData(vol.geo, first) {
      EmptyPath(vol.geo);
      return false, [];
    }
    var remaining := size - offset;
    if remaining > n {
      remaining := n;
    }
    ghost var end := offset + remaining;
    var cluster, rest;
    ghost var i;
    ok, cluster, rest, i := SkipClusters(vol, first, offset, ch);
    if ok {
      ok, out := ReadOn(vol, first, ch, i, cluster, rest, remaining, offset);
    }
    if ok {
      ReadWhole(vol.disk, Sectors(vol.geo, ch), size, offset, end, out);
    }
  }

  /** Reads piece after piece until the request is met or the path ends. */
  method ReadOn(vol: FatVolume, first: nat, ghost ch: seq<nat>, ghost i0: nat, cluster0: nat, rest0: nat, n: nat,
                ghost offset: nat)
    returns (ok: bool, out: seq<Byte>)
    requires vol.Valid() && n > 0 && Reaches(vol.geo, Fat(vol.geo, vol.disk), first, ch, offset + n - 1)
    requires i0 < |ch| && cluster0 == ch[i0] && rest0 < 512 * vol.geo.spc
    requires offset == 512 * Base(vol.geo, ch, i0) + rest0
    modifies vol`cacheValid, vol`cacheLba, vol`cache
    ensures vol.Valid() && (ok <==> offset + n <= 512 * |Sectors(vol.geo, ch)|)
    ensures ok ==> |out| == n && Fetched(vol.disk, Sectors(vol.geo, ch), offset, out)
  {
    var cluster: nat, rest: nat := cluster0, rest0;
    ghost var i: nat := i0;
    out := [];
    while true
      invariant vol.Valid() && i < |ch| && cluster == ch[i] && rest < 512 * vol.geo.spc && |out| < n
      invariant Fetched(vol.disk, Sectors(vol.geo, ch), offset, out)
      invariant offset + |out| == 512 * Base(vol.geo, ch, i) + rest
      decreases n - |out|
    {
      var piece;
      ghost var j;
      piece, cluster, j := ReadPiece(vol, first, ch, i, cluster, rest, n - |out|);
      FetchedMore(vol.disk, Sectors(vol.geo, ch), offset, out, piece);
      out, rest := out + piece, 0;
      BaseInside(vol.geo, ch, j + 1);
      if |out| == n {
        return true, out;
      }
      var more, next := NextOnPath(vol, first, ch, j, cluster, offset + n - 1);
      if !more {
        return false, [];
      }
      cluster, i := next, j + 1;
    }
  }

  lemma EmptyPath(g: Geo)
    ensures |Sectors(g, [])| == 0
  {
    assert ChainExtents(g, []) == [];
  }
}
