/** Writing a range of a FAT32 file (fs/fat32_file.c): the chain grows as needed,
    exactly the requested bytes change, and no other chain is touched. */
module FatWrite {
  import opened Bitmap
  import opened Extents
  import opened Contents
  import opened FatTable
  import opened FatChains
  import opened FatFiles

  // ----- sectors of different clusters -----

  lemma {:induction false} SectorOwner(g: Geo, ch: seq<nat>, x: nat)
    requires AllData(g, ch)
    ensures x in Sectors(g, ch) ==> exists i :: 0 <= i < |ch| && IsData(g, ch[i]) && InCluster(g, ch[i], g.spc, x)
  {
    if ch != [] {
      var rest := ch[1..];
      assert IsData(g, ch[0]);
      assert forall i {:trigger IsData(g, rest[i])} :: 0 <= i < |rest| ==> IsData(g, ch[i + 1]);
      SectorOwner(g, rest, x);
      assert ChainExtents(g, ch)[1..] == ChainExtents(g, rest);
      assert Sectors(g, ch) == Run(Lba(g, ch[0]), g.spc) + Sectors(g, rest);
      if x in Sectors(g, ch) && x !in Run(Lba(g, ch[0]), g.spc) {
        var i :| 0 <= i < |rest| && IsData(g, rest[i]) && InCluster(g, rest[i], g.spc, x);
        assert ch[i + 1] == rest[i];
      }
    }
  }

  /** A sector belongs to one cluster only. */
  lemma OneCluster(g: Geo, b: nat, c: nat, x: nat)
    requires IsData(g, b) && IsData(g, c) && InCluster(g, b, g.spc, x) && InCluster(g, c, g.spc, x)
    ensures b == c
  {
    if b < c {
      LbaApart(g, b, c);
    } else if c < b {
      LbaApart(g, c, b);
    }
  }

  /** Chains that share no cluster share no sector. */
  lemma SectorsApart(g: Geo, a: seq<nat>, b: seq<nat>)
    requires AllData(g, a) && AllData(g, b) && Disjoint(a, b)
    ensures Disjoint(Sectors(g, a), Sectors(g, b))
  {
    forall x | x in Sectors(g, a) ensures x !in Sectors(g, b) {
      SectorOwner(g, a, x);
      SectorOwner(g, b, x);
      var i :| 0 <= i < |a| && IsData(g, a[i]) && InCluster(g, a[i], g.spc, x);
      if x in Sectors(g, b) {
        var j :| 0 <= j < |b| && IsData(g, b[j]) && InCluster(g, b[j], g.spc, x);
        assert a[i] in a && b[j] in b;
        OneCluster(g, a[i], b[j], x);
      }
    }
  }

  lemma SectorsSnoc(g: Geo, ch: seq<nat>, c: nat)
    requires IsData(g, c)
    ensures Sectors(g, ch + [c]) == Sectors(g, ch) + Run(Lba(g, c), g.spc)
  {
    var all := ch + [c];
    SectorsAt(g, all, |ch|);
    assert all[..|ch|] == ch && all[|ch| + 1..] == [];
    assert ChainExtents(g, []) == [];
  }

  lemma OneClusterSectors(g: Geo, c: nat)
    requires IsData(g, c)
    ensures Sectors(g, [c]) == Run(Lba(g, c), g.spc)
  {
    SectorsSnoc(g, [], c);
    assert [] + [c] == [c] && ChainExtents(g, []) == [];
  }

  lemma SnocDistinct(g: Geo, ch: seq<nat>, c: nat)
    requires AllData(g, ch) && IsData(g, c) && c !in ch && NoDup(Sectors(g, ch))
    ensures NoDup(Sectors(g, ch + [c]))
  {
    SectorsSnoc(g, ch, c);
    OneClusterSectors(g, c);
    SectorsApart(g, ch, [c]);
    NoDupConcat(Sectors(g, ch), Run(Lba(g, c), g.spc));
  }

  /** A chain's sectors are distinct. */
  lemma {:induction false} SectorsDistinct(g: Geo, ch: seq<nat>)
    requires AllData(g, ch) && NoDup(ch)
    ensures NoDup(Sectors(g, ch))
  {
    if ch == [] {
      assert ChainExtents(g, []) == [];
    } else {
      var front, last := ch[..|ch| - 1], ch[|ch| - 1];
      assert IsData(g, last);
      assert forall i {:trigger IsData(g, front[i])} :: 0 <= i < |front| ==> IsData(g, ch[i]);
      assert forall i, j {:trigger Differ(front[i], front[j])} :: 0 <= i < j < |front| ==> Differ(ch[i], ch[j]);
      SectorsDistinct(g, front);
      forall i | 0 <= i < |front| ensures front[i] != last { assert Differ(ch[i], ch[|ch| - 1]); }
      SnocDistinct(g, front, last);
      assert ch == front + [last];
    }
  }

  // ----- the bytes of a growing file -----

  /** The blocks `phys` on `d` hold the bytes of `phys0` on `d0`, then zeros, with the
      part of `buf` below `upTo` written at `offset`.  Only the bytes a 32-bit position
      can reach are spoken of. */
  ghost predicate Grown(d0: seq<Block>, phys0: seq<nat>, d: seq<Block>, phys: seq<nat>, offset: nat, buf: seq<Byte>,
                        upTo: nat) {
    && phys0 <= phys
    && forall k {:trigger ByteAt(d, phys, k)} :: 0 <= k < 512 * |phys| && k < 0x1_0000_0000 ==>
         ByteAt(d, phys, k) == if offset <= k < offset + |buf| && k < upTo then buf[k - offset]
                               else if k < 512 * |phys0| then ByteAt(d0, phys0, k) else 0
  }

  /** Writing the window of block `i`. */
  lemma GrownStep(d0: seq<Block>, phys0: seq<nat>, d: seq<Block>, phys: seq<nat>, offset: nat, buf: seq<Byte>, i: nat,
                  blk: Block)
    requires Within(phys, 0, |d|) && NoDup(phys) && i < |phys| && Grown(d0, phys0, d, phys, offset, buf, 512 * i)
    requires 512 * i < 0x1_0000_0000 ==>
      forall k :: 0 <= k < 512 ==>
        blk[k] == if offset <= 512 * i + k < offset + |buf| then buf[512 * i + k - offset] else d[phys[i]][k]
    ensures Grown(d0, phys0, d[phys[i] := blk], phys, offset, buf, 512 * i + 512)
  {
    var d' := d[phys[i] := blk];
    forall k | 0 <= k < 512 * |phys| && k < 0x1_0000_0000
      ensures ByteAt(d', phys, k) == if offset <= k < offset + |buf| && k < 512 * i + 512 then buf[k - offset]
                                     else if k < 512 * |phys0| then ByteAt(d0, phys0, k) else 0
    {
      assert ByteAt(d, phys, k) == if offset <= k < offset + |buf| && k < 512 * i then buf[k - offset]
                                   else if k < 512 * |phys0| then ByteAt(d0, phys0, k) else 0;
      if k / 512 != i {
        assert Differ(phys[Min(k / 512, i)], phys[Max(k / 512, i)]);
      } else {
        assert k == 512 * i + k % 512;
      }
    }
  }

  /** Appending zero-filled blocks. */
  lemma GrownMore(d0: seq<Block>, phys0: seq<nat>, d: seq<Block>, d': seq<Block>, phys: seq<nat>, more: seq<nat>,
                  offset: nat, buf: seq<Byte>)
    requires Grown(d0, phys0, d, phys, offset, buf, 512 * |phys|)
    requires Within(phys, 0, |d|) && SameOn(d, d', phys)
    requires Within(more, 0, |d'|) && forall i :: 0 <= i < |more| ==> d'[more[i]] == ZeroBlock()
    ensures Grown(d0, phys0, d', phys + more, offset, buf, 512 * |phys|)
  {
    forall k | 0 <= k < 512 * |phys + more| && k < 0x1_0000_0000
      ensures ByteAt(d', phys + more, k) == if offset <= k < offset + |buf| && k < 512 * |phys| then buf[k - offset]
                                            else if k < 512 * |phys0| then ByteAt(d0, phys0, k) else 0
    {
      GrownByte(d, d', phys, more, k);
      if k < 512 * |phys| {
        assert ByteAt(d, phys, k) == if offset <= k < offset + |buf| && k < 512 * |phys| then buf[k - offset]
                                     else if k < 512 * |phys0| then ByteAt(d0, phys0, k) else 0;
      }
    }
  }

  // ----- the write loop -----

  /** The part of a request that falls in a sector. */
  method SectorWindow(start: nat, end: nat, dataLimit: nat, offset: nat, requestEnd: nat)
    returns (some: bool, copyStart: nat, size: nat)
    ensures some <==> Max(offset, start) < Min(Min(end, dataLimit), requestEnd)
    ensures some ==> copyStart == Max(offset, start) && copyStart + size == Min(Min(end, dataLimit), requestEnd)
  {
    if start >= dataLimit {
      return false, 0, 0;
    }
    var stop := if end < dataLimit then end else dataLimit;
    if offset >= stop {
      return false, 0, 0;
    }
    copyStart := if offset > start then offset else start;
    var copyEnd := if stop < requestEnd then stop else requestEnd;
    if copyEnd <= copyStart {
      return false, 0, 0;
    }
    return true, copyStart, copyEnd - copyStart;
  }

  /** Only the tables and sectors of the file differ. */
  ghost predicate OwnOnly(g: Geo, d0: seq<Block>, d: seq<Block>, phys: seq<nat>) {
    |d| == |d0| && forall x {:trigger d[x]} :: 0 <= x < |d0| && !InFats(g, x) && x !in phys ==> d[x] == d0[x]
  }

  /** How much of the request lies before byte `upTo`. */
  ghost function Done(offset: nat, limit: nat, upTo: nat): nat { Max(0, Min(upTo, limit) - offset) }

  /** The last sector a 32-bit position can reach; its end is 2^32, which wraps to 0. */
  const LAST_SECTOR := 0xFFFF_FE00

  /** The 32-bit position of sector `i` of a file. */
  ghost function Pos(i: nat): nat { 512 * (i % 0x80_0000) }

  lemma PosIs(i: nat)
    ensures Pos(i) <= LAST_SECTOR && (i < 0x80_0000 ==> Pos(i) == 512 * i)
    ensures Pos(i + 1) == (Pos(i) + 512) % 0x1_0000_0000
  {}

  /** How many bytes of a request are copied into the sector at a position. */
  ghost function WindowSize(start: nat, offset: nat, limit: nat): nat {
    Max(0, Min((start + 512) % 0x1_0000_0000, limit) - Max(offset, start))
  }

  ghost predicate Adds(t: seq<nat>, offset: nat, limit: nat, i: nat)
    requires i + 1 < |t|
  {
    t[i + 1] == t[i] + WindowSize(Pos(i), offset, limit)
  }

  /** Entry `i` of `t` is how much is copied into the first `i` sectors. */
  ghost predicate Totals(t: seq<nat>, offset: nat, limit: nat, n: nat) {
    && |t| == n + 1 && t[0] == 0
    && forall i {:trigger Adds(t, offset, limit, i)} :: 0 <= i < n ==> Adds(t, offset, limit, i)
  }

  lemma {:induction false} TotalsExist(offset: nat, limit: nat, n: nat)
    ensures exists t: seq<nat> :: Totals(t, offset, limit, n)
  {
    if n == 0 {
      assert Totals([0], offset, limit, 0);
    } else {
      TotalsExist(offset, limit, n - 1);
      var t: seq<nat> :| Totals(t, offset, limit, n - 1);
      var more := t + [t[n - 1] + WindowSize(Pos(n - 1), offset, limit)];
      forall i | 0 <= i < n ensures Adds(more, offset, limit, i) { assert i < n - 1 ==> Adds(t, offset, limit, i); }
      assert Totals(more, offset, limit, n);
    }
  }

  lemma {:induction false} TotalsAgree(t: seq<nat>, u: seq<nat>, offset: nat, limit: nat, n: nat, m: nat, i: nat)
    requires Totals(t, offset, limit, n) && Totals(u, offset, limit, m) && i <= n && i <= m
    ensures t[i] == u[i]
  {
    if i > 0 {
      TotalsAgree(t, u, offset, limit, n, m, i - 1);
      assert Adds(t, offset, limit, i - 1) && Adds(u, offset, limit, i - 1);
    }
  }

  /** How many bytes are copied while the first `n` sectors of a chain are visited. */
  ghost function Copied(offset: nat, limit: nat, n: nat): nat {
    TotalsExist(offset, limit, n);
    var t: seq<nat> :| Totals(t, offset, limit, n);
    t[n]
  }

  lemma CopiedStep(offset: nat, limit: nat, n: nat)
    ensures Copied(offset, limit, 0) == 0
    ensures Copied(offset, limit, n + 1) == Copied(offset, limit, n) + WindowSize(Pos(n), offset, limit)
  {
    TotalsExist(offset, limit, n);
    TotalsExist(offset, limit, n + 1);
    var t: seq<nat> :| Totals(t, offset, limit, n) && Copied(offset, limit, n) == t[n];
    var u: seq<nat> :| Totals(u, offset, limit, n + 1) && Copied(offset, limit, n + 1) == u[n + 1];
    TotalsAgree(t, u, offset, limit, n, n + 1, n);
    assert Adds(u, offset, limit, n);
  }

  /** The part of a buffer that lies before the last sector. */
  ghost function Storable(offset: nat, buf: seq<Byte>): seq<Byte> {
    if offset >= LAST_SECTOR then [] else buf[..Min(|buf|, LAST_SECTOR - offset)]
  }

  /** The window of a sector is the part of the request in it, and nothing in the last
      sector. */
  lemma WindowIs(i: nat, offset: nat, limit: nat)
    requires 512 * i < 0x1_0000_0000 && limit < 0x1_0000_0000
    ensures WindowSize(512 * i, offset, limit) ==
      if 512 * i == LAST_SECTOR then 0 else Max(0, Min(512 * i + 512, limit) - Max(offset, 512 * i))
  {}

  /** Every window of a request is the part of the request in its sector, if and only if
      the request ends at or before the last sector. */
  lemma WindowsRight(offset: nat, limit: nat)
    requires offset < limit < 0x1_0000_0000
    ensures limit <= LAST_SECTOR <==>
      forall i: nat {:trigger 512 * i} :: 512 * i < 0x1_0000_0000 ==>
        WindowSize(512 * i, offset, limit) == Max(0, Min(512 * i + 512, limit) - Max(offset, 512 * i))
  {
    forall i: nat | 512 * i < 0x1_0000_0000 && limit <= LAST_SECTOR
      ensures WindowSize(512 * i, offset, limit) == Max(0, Min(512 * i + 512, limit) - Max(offset, 512 * i))
    {
      WindowIs(i, offset, limit);
    }
    if limit > LAST_SECTOR {
      var last: nat := 0x7F_FFFF;
      assert 512 * last == LAST_SECTOR;
      WindowIs(last, offset, limit);
    }
  }

  /** As far as a 32-bit position reaches, what is copied is what lies before it, but
      for the last sector. */
  lemma {:induction false} CopiedFirst(offset: nat, limit: nat, n: nat)
    requires 512 * n <= 0x1_0000_0000 && limit < 0x1_0000_0000
    ensures Copied(offset, limit, n) == Done(offset, Min(limit, LAST_SECTOR), 512 * n)
  {
    CopiedStep(offset, limit, Max(n, 1) - 1);
    if n > 0 {
      CopiedFirst(offset, limit, n - 1);
      PosIs(n - 1);
      WindowIs(n - 1, offset, limit);
    }
  }

  lemma {:induction false} CopiedMore(offset: nat, limit: nat, n: nat, m: nat)
    requires n <= m
    ensures Copied(offset, limit, n) <= Copied(offset, limit, m)
    decreases m
  {
    if n < m {
      CopiedMore(offset, limit, n, m - 1);
      CopiedStep(offset, limit, m - 1);
    }
  }

  /** Nothing is ever copied for a request that starts in the last sector. */
  lemma {:induction false} CopiedNothing(offset: nat, limit: nat, n: nat)
    requires LAST_SECTOR <= offset < limit < 0x1_0000_0000
    ensures Copied(offset, limit, n) == 0
  {
    CopiedStep(offset, limit, Max(n, 1) - 1);
    if n > 0 {
      CopiedNothing(offset, limit, n - 1);
      WindowIs((n - 1) % 0x80_0000, offset, limit);
    }
  }

  /** The next bytes of a buffer; what lies past its end is not known. */
  method NextBytes(buf: seq<Byte>, from: nat, size: nat) returns (piece: seq<Byte>)
    ensures |piece| == size && forall k :: 0 <= k < size && from + k < |buf| ==> piece[k] == buf[from + k]
  {
    piece := [];
    for k := 0 to size
      invariant |piece| == k && forall j :: 0 <= j < k && from + j < |buf| ==> piece[j] == buf[from + j]
    {
      var b: Byte := *;
      if from + k < |buf| {
        b := buf[from + k];
      }
      piece := piece + [b];
    }
  }

  /** A sector with the part of the request copied in that falls into it, as far as
      32-bit positions tell. */
  method PatchSector(blk: Block, at: nat, offset: nat, buf: seq<Byte>, written: nat, ghost i: nat)
    returns (some: bool, blk': Block, size: nat)
    requires at == Pos(i) && offset + |buf| < 0x1_0000_0000 && written == Copied(offset, offset + |buf|, i)
    ensures size == WindowSize(at, offset, offset + |buf|) && (!some ==> size == 0 && blk' == blk)
    ensures 512 * i < 0x1_0000_0000 ==>
      var part := Storable(offset, buf);
      forall k :: 0 <= k < 512 ==>
        blk'[k] == if offset <= 512 * i + k < offset + |part| then part[512 * i + k - offset] else blk[k]
  {
    var limit := offset + |buf|;
    PosIs(i);
    var copyStart;
    some, copyStart, size := SectorWindow(at, (at + 512) % 0x1_0000_0000, limit, offset, limit);
    if 512 * i < 0x1_0000_0000 {
      CopiedFirst(offset, limit, i);
      WindowIs(i, offset, limit);
    }
    if !some {
      return false, blk, 0;
    }
    var piece := NextBytes(buf, written, size);
    blk' := Splice(blk, copyStart - at, piece);
  }

  /** Writes the part of the request that falls in block `i` of the file, as far as
      32-bit positions tell. */
  method WriteWindow(vol: FatVolume, ghost phys: seq<nat>, ghost i: nat, lba: nat, offset: nat, buf: seq<Byte>,
                     written0: nat, at: nat, ghost d0: seq<Block>, ghost phys0: seq<nat>)
    returns (written: nat)
    requires vol.Valid() && NoDup(phys) && Within(phys, vol.geo.DataStart(), vol.geo.partition + vol.geo.total)
    requires i < |phys| && phys[i] == lba && at == Pos(i) && offset + |buf| < 0x1_0000_0000
    requires Grown(d0, phys0, vol.disk, phys, offset, Storable(offset, buf), 512 * i)
    requires OwnOnly(vol.geo, d0, vol.disk, phys)
    requires written0 == Copied(offset, offset + |buf|, i)
    modifies vol`disk, vol`cacheValid
    ensures vol.Valid() && OwnOnly(vol.geo, d0, vol.disk, phys) && TablesSame(vol.geo, old(vol.disk), vol.disk)
    ensures Grown(d0, phys0, vol.disk, phys, offset, Storable(offset, buf), 512 * i + 512)
    ensures written == Copied(offset, offset + |buf|, i + 1)
  {
    written := written0;
    assert lba in phys;
    var some, blk, size := PatchSector(vol.disk[lba], at, offset, buf, written, i);
    GrownStep(d0, phys0, vol.disk, phys, offset, Storable(offset, buf), i, blk);
    CopiedStep(offset, offset + |buf|, i);
    if some {
      var stored := vol.WriteSector(lba, blk);
      written := written + size;
    } else {
      assert vol.disk[phys[i] := blk] == vol.disk;
    }
  }

  /** Writes the part of the request that falls in one cluster, sector by sector. */
  method WriteCluster(vol: FatVolume, ghost phys: seq<nat>, ghost base: nat, cluster: nat, offset: nat, buf: seq<Byte>,
                      written0: nat, at: nat, ghost d0: seq<Block>, ghost phys0: seq<nat>)
    returns (written: nat, at': nat, ghost n: nat)
    requires vol.Valid() && ClusterAt(vol.geo, phys, base, cluster) && NoDup(phys)
    requires Within(phys, vol.geo.DataStart(), vol.geo.partition + vol.geo.total) && offset + |buf| < 0x1_0000_0000
    requires at == Pos(base) && Grown(d0, phys0, vol.disk, phys, offset, Storable(offset, buf), 512 * base)
    requires OwnOnly(vol.geo, d0, vol.disk, phys)
    requires written0 == Copied(offset, offset + |buf|, base) && at < offset + |buf|
    modifies vol`disk, vol`cacheValid
    ensures vol.Valid() && OwnOnly(vol.geo, d0, vol.disk, phys) && TablesSame(vol.geo, old(vol.disk), vol.disk)
    ensures base < n <= base + vol.geo.spc && at' == Pos(n)
    ensures Grown(d0, phys0, vol.disk, phys, offset, Storable(offset, buf), 512 * n)
    ensures n == base + vol.geo.spc || offset + |buf| <= at'
    ensures offset + |buf| <= LAST_SECTOR && 512 * base < offset + |buf| ==> 512 * n < 0x1_0000_0000
    ensures written == Copied(offset, offset + |buf|, n)
  {
    var limit := offset + |buf|;
    written, at', n := written0, at, base;
    var sec := 0;
    while sec < vol.geo.spc && at' < limit
      invariant 0 <= sec <= vol.geo.spc && n == base + sec && vol.Valid() && (sec > 0 || at' < limit)
      invariant at' == Pos(n)
      invariant OwnOnly(vol.geo, d0, vol.disk, phys)
      invariant Grown(d0, phys0, vol.disk, phys, offset, Storable(offset, buf), 512 * n)
      invariant TablesSame(vol.geo, old(vol.disk), vol.disk) && written == Copied(offset, limit, n)
      invariant limit <= LAST_SECTOR && 512 * base < limit ==> 512 * n < 0x1_0000_0000
    {
      assert phys[base + sec] == Lba(vol.geo, cluster) + sec;
      ghost var before := vol.disk;
      written := WriteWindow(vol, phys, base + sec, Lba(vol.geo, cluster) + sec, offset, buf, written, at', d0, phys0);
      TablesSameTwice(vol.geo, old(vol.disk), before, vol.disk);
      PosIs(n);
      sec, at', n := sec + 1, (at' + 512) % 0x1_0000_0000, n + 1;
    }
  }

  lemma TablesSameTwice(g: Geo, d0: seq<Block>, d1: seq<Block>, d2: seq<Block>)
    requires TablesSame(g, d0, d1) && TablesSame(g, d1, d2)
    ensures TablesSame(g, d0, d2)
  {}

  ghost predicate TablesSame(g: Geo, d: seq<Block>, d': seq<Block>) {
    |d'| == |d| && forall x {:trigger d'[x]} :: 0 <= x < |d| && InFats(g, x) ==> d'[x] == d[x]
  }

  // ----- files -----

  /** The chains after one grew from `ch` to `ch'`. */
  ghost function Regrown(chains: set<seq<nat>>, ch: seq<nat>, ch': seq<nat>): set<seq<nat>> {
    chains - {ch} + (if ch' == [] then {} else {ch'})
  }

  lemma ChainData(g: Geo, f: seq<nat>, chains: set<seq<nat>>, ch: seq<nat>)
    requires Forest(f, chains) && ch in chains && |f| == g.clusters + 2
    ensures IsChain(f, ch) && AllData(g, ch)
  {
    assert Has(chains, ch);
    forall i | 0 <= i < |ch| ensures IsData(g, ch[i]) {}
  }

  /** What holds while a write is under way: the chains are sound with `cur` in place
      of `ch`, which it extends, and only the file's own sectors differ. */
  ghost predicate Writing(vol: FatVolume, d0: seq<Block>, chains: set<seq<nat>>, ch: seq<nat>, cur: seq<nat>)
    reads vol
  {
    && Sound(vol, Regrown(chains, ch, cur)) && cur != [] && ch <= cur && (ch != [] ==> cur[0] == ch[0])
    && (forall a :: a in chains && a != ch ==> Disjoint(a, cur))
    && OwnOnly(vol.geo, d0, vol.disk, Sectors(vol.geo, cur))
  }

  lemma WritingFacts(vol: FatVolume, d0: seq<Block>, chains: set<seq<nat>>, ch: seq<nat>, cur: seq<nat>)
    requires Writing(vol, d0, chains, ch, cur)
    ensures AllData(vol.geo, cur) && IsChain(Fat(vol.geo, vol.disk), cur) && NoDup(Sectors(vol.geo, cur))
    ensures Within(Sectors(vol.geo, cur), vol.geo.DataStart(), vol.geo.partition + vol.geo.total)
  {
    ChainData(vol.geo, Fat(vol.geo, vol.disk), Regrown(chains, ch, cur), cur);
    SectorsDistinct(vol.geo, cur);
    SectorsIn(vol.geo, cur);
  }

  /** Appending one zeroed cluster to the file being written. */
  method GrowFile(vol: FatVolume, tail: nat, ghost offset: nat, ghost buf: seq<Byte>, ghost d0: seq<Block>,
                  ghost phys0: seq<nat>, ghost chains: set<seq<nat>>, ghost ch: seq<nat>, ghost cur: seq<nat>)
    returns (ok: bool, c: nat)
    requires Writing(vol, d0, chains, ch, cur) && tail == cur[|cur| - 1]
    requires Grown(d0, phys0, vol.disk, Sectors(vol.geo, cur), offset, buf, 512 * |Sectors(vol.geo, cur)|)
    modifies vol
    ensures ok ==> Writing(vol, d0, chains, ch, cur + [c])
    ensures ok ==> Grown(d0, phys0, vol.disk, Sectors(vol.geo, cur + [c]), offset, buf, 512 * |Sectors(vol.geo, cur)|)
    ensures ok ==> FreeClusters(vol.geo, vol.disk) + 1 == FreeClusters(vol.geo, old(vol.disk))
    ensures !ok ==> Writing(vol, d0, chains, ch, cur) && FreeClusters(vol.geo, vol.disk) == 0
    ensures !ok ==> vol.disk == old(vol.disk)
  {
    ghost var d1 := vol.disk;
    ghost var all := Regrown(chains, ch, cur);
    WritingFacts(vol, d0, chains, ch, cur);
    ok, c := AppendFileCluster(vol, tail, all, cur);
    if ok {
      RegrownAgain(chains, ch, cur, cur + [c]);
      GrownByCluster(vol.geo, d0, phys0, d1, vol.disk, cur, c, offset, buf);
      assert forall a :: a in chains && a != ch ==> a in all;
      AppendedApart(chains, ch, cur, c);
    }
  }

  lemma RegrownAgain(chains: set<seq<nat>>, ch: seq<nat>, cur: seq<nat>, next: seq<nat>)
    requires cur != [] && next != [] && forall a :: a in chains && a != ch ==> Disjoint(a, cur)
    ensures Regrown(chains, ch, cur) - {cur} + {next} == Regrown(chains, ch, next)
  {
    assert cur[0] in cur;
    assert cur in chains && cur != ch ==> Disjoint(cur, cur);
  }

  lemma AppendedApart(chains: set<seq<nat>>, ch: seq<nat>, cur: seq<nat>, c: nat)
    requires forall a :: a in chains && a != ch ==> Disjoint(a, cur) && c !in a
    ensures forall a :: a in chains && a != ch ==> Disjoint(a, cur + [c])
  {
    forall a: seq<nat> | a in chains && a != ch ensures Disjoint(a, cur + [c]) {
      assert Disjoint(a, cur) && c !in a;
    }
  }

  lemma GrownByCluster(g: Geo, d0: seq<Block>, phys0: seq<nat>, d1: seq<Block>, d2: seq<Block>, cur: seq<nat>, c: nat,
                       offset: nat, buf: seq<Byte>)
    requires Backed(g, d1) && AllData(g, cur) && IsData(g, c) && c !in cur && Allocated(g, d1, d2, c)
    requires Grown(d0, phys0, d1, Sectors(g, cur), offset, buf, 512 * |Sectors(g, cur)|)
    requires OwnOnly(g, d0, d1, Sectors(g, cur))
    ensures Grown(d0, phys0, d2, Sectors(g, cur + [c]), offset, buf, 512 * |Sectors(g, cur)|)
    ensures OwnOnly(g, d0, d2, Sectors(g, cur + [c]))
  {
    var phys, more := Sectors(g, cur), Run(Lba(g, c), g.spc);
    SectorsSnoc(g, cur, c);
    SectorsIn(g, cur);
    LbaInVolume(g, c);
    OneClusterSectors(g, c);
    SectorsApart(g, cur, [c]);
    forall i | 0 <= i < |phys| ensures d2[phys[i]] == d1[phys[i]] {
      assert phys[i] in phys;
      InRun(Lba(g, c), g.spc, phys[i]);
    }
    assert forall i :: 0 <= i < |more| ==> InCluster(g, c, g.spc, more[i]);
    GrownMore(d0, phys0, d1, d2, phys, more, offset, buf);
    forall x | 0 <= x < |d0| && !InFats(g, x) && x !in phys + more ensures d2[x] == d0[x] {
      InRun(Lba(g, c), g.spc, x);
    }
  }

  lemma NoEmptyChain(f: seq<nat>, chains: set<seq<nat>>)
    requires Forest(f, chains)
    ensures [] !in chains
  {
    assert !IsChain(f, []);
    assert Has(chains, []) == ([] in chains);
  }

  /** A file as it stands. */
  lemma FileWriting(vol: FatVolume, chains: set<seq<nat>>, ch: seq<nat>)
    requires Sound(vol, chains) && ch in chains && ch != []
    ensures Writing(vol, vol.disk, chains, ch, ch)
    ensures Grown(vol.disk, Sectors(vol.geo, ch), vol.disk, Sectors(vol.geo, ch), 0, [], 0)
  {
    assert Regrown(chains, ch, ch) == chains;
    assert Has(chains, ch);
    forall a: seq<nat> | a in chains && a != ch ensures Disjoint(a, ch) { assert Has(chains, a); }
  }

  /** Writing own data sectors keeps everything else in place. */
  lemma WritingKept(g: Geo, d1: seq<Block>, d2: seq<Block>, all: set<seq<nat>>)
    requires Backed(g, d1) && TablesSame(g, d1, d2) && Mirrored(g, d1) && Forest(Fat(g, d1), all)
    ensures Backed(g, d2) && Mirrored(g, d2) && Forest(Fat(g, d2), all)
  {
    FatKept(g, d1, d2);
  }

  /** The write's position: at the start of cluster `i`, everything before written. */
  ghost predicate AtCluster(vol: FatVolume, d0: seq<Block>, phys0: seq<nat>, cur: seq<nat>, i: nat, cluster: nat,
                            at: nat, offset: nat, buf: seq<Byte>, written: nat)
    reads vol
  {
    && i < |cur| && cluster == cur[i]
    && var n := Base(vol.geo, cur, i);
    && at == Pos(n) && at < offset + |buf| < 0x1_0000_0000
    && (offset + |buf| <= LAST_SECTOR ==> 512 * n < offset + |buf|)
    && Grown(d0, phys0, vol.disk, Sectors(vol.geo, cur), offset, Storable(offset, buf), 512 * n)
    && written == Copied(offset, offset + |buf|, n) < |buf|
  }

  /** Writes the part that falls in cluster `i`. */
  method WriteHere(vol: FatVolume, cluster: nat, offset: nat, buf: seq<Byte>, written0: nat, at: nat,
                   ghost d0: seq<Block>, ghost phys0: seq<nat>, ghost chains: set<seq<nat>>, ghost ch: seq<nat>,
                     ghost cur: seq<nat>, ghost i: nat)
    returns (written: nat, at': nat, ghost n: nat)
    requires Writing(vol, d0, chains, ch, cur) && AtCluster(vol, d0, phys0, cur, i, cluster, at, offset, buf, written0)
    modifies vol`disk, vol`cacheValid
    ensures Writing(vol, d0, chains, ch, cur) && FreeClusters(vol.geo, vol.disk) == FreeClusters(vol.geo, old(vol.disk))
    ensures Grown(d0, phys0, vol.disk, Sectors(vol.geo, cur), offset, Storable(offset, buf), 512 * n)
    ensures written == Copied(offset, offset + |buf|, n) && at' == Pos(n)
    ensures n == Base(vol.geo, cur, i + 1) || (offset + |buf| <= at' && n < Base(vol.geo, cur, i + 1))
    ensures offset + |buf| <= LAST_SECTOR ==> 512 * n < 0x1_0000_0000
  {
    WritingFacts(vol, d0, chains, ch, cur);
    ClusterIsAt(vol.geo, cur, i);
    ghost var all := Regrown(chains, ch, cur);
    written, at', n := WriteCluster(vol, Sectors(vol.geo, cur), Base(vol.geo, cur, i), cluster, offset, buf, written0,
                                    at, d0, phys0);
    WritingKept(vol.geo, old(vol.disk), vol.disk, all);
    FatKept(vol.geo, old(vol.disk), vol.disk);
  }

  /** Moves on to the next cluster, appending one if the chain ends here. */
  method Advance(vol: FatVolume, cluster: nat, ghost offset: nat, ghost buf: seq<Byte>, ghost at: nat,
                 ghost d0: seq<Block>, ghost phys0: seq<nat>, ghost chains: set<seq<nat>>, ghost ch: seq<nat>,
                   ghost cur: seq<nat>, ghost i: nat)
    returns (ok: bool, next: nat, ghost cur': seq<nat>)
    requires Writing(vol, d0, chains, ch, cur) && i < |cur| && cluster == cur[i]
    requires at == 512 * Base(vol.geo, cur, i + 1)
    requires Grown(d0, phys0, vol.disk, Sectors(vol.geo, cur), offset, buf, at)
    modifies vol
    ensures Writing(vol, d0, chains, ch, cur') && cur <= cur' && |cur'| == (if ok then Max(|cur|, i + 2) else |cur|)
    ensures FreeClusters(vol.geo, vol.disk) + |cur'| == FreeClusters(vol.geo, old(vol.disk)) + |cur|
    ensures !ok ==> FreeClusters(vol.geo, vol.disk) == 0 && i + 1 == |cur|
    ensures ok ==> i + 1 < |cur'| && next == cur'[i + 1] && at == 512 * Base(vol.geo, cur', i + 1)
    ensures Grown(d0, phys0, vol.disk, Sectors(vol.geo, cur'), offset, buf, at)
  {
    cur' := cur;
    WritingFacts(vol, d0, chains, ch, cur);
    assert Follows(Fat(vol.geo, vol.disk), cur, i) && IsData(vol.geo, cur[i]);
    EntryFits(vol.geo, vol.disk);
    assert i + 1 < |cur| ==> IsData(vol.geo, cur[i + 1]);
    var read;
    read, next := vol.NextCluster(cluster);
    if next < END {
      return true, next, cur;
    }
    BaseEnds(vol.geo, cur);
    ok, next := GrowFile(vol, cluster, offset, buf, d0, phys0, chains, ch, cur);
    if ok {
      cur' := cur + [next];
      assert cur'[..i + 1] == cur == cur[..i + 1];
    }
  }

  /** How many clusters `end` bytes take. */
  ghost function Needed(g: Geo, end: nat): nat
    requires GeoOk(g)
  {
    (end + 512 * g.spc - 1) / (512 * g.spc)
  }

  lemma NeededMore(g: Geo, n: nat, end: nat)
    requires GeoOk(g)
    ensures n < Needed(g, end) <==> n * (512 * g.spc) < end
  {
    var size := 512 * g.spc;
    var q := Needed(g, end);
    assert q * size <= end + size - 1 < q * size + size;
    if n < q {
      MulStep(n, q, size);
    } else if q < n {
      MulStep(q, n, size);
    }
  }

  /** How many sectors `c` clusters have. */
  ghost function SectorCount(g: Geo, c: nat): nat { if c == 0 then 0 else SectorCount(g, c - 1) + g.spc }

  lemma {:induction false} SectorCountIs(g: Geo, c: nat)
    ensures SectorCount(g, c) == c * g.spc
  {
    if c > 0 {
      SectorCountIs(g, c - 1);
      assert c * g.spc == (c - 1) * g.spc + g.spc;
    }
  }

  lemma {:induction false} SectorCountMore(g: Geo, c: nat, more: nat)
    requires c <= more
    ensures SectorCount(g, c) <= SectorCount(g, more)
    decreases more
  {
    if c < more {
      SectorCountMore(g, c, more - 1);
    }
  }

  lemma {:induction false} BaseIs(g: Geo, ch: seq<nat>, i: nat)
    requires i <= |ch|
    ensures Base(g, ch, i) == SectorCount(g, i)
  {
    if i == 0 {
      BaseEnds(g, ch);
    } else {
      BaseIs(g, ch, i - 1);
      SectorsAt(g, ch, i - 1);
    }
  }

  /** So many clusters hold `end` bytes exactly if no more are needed. */
  lemma ReachesEnd(g: Geo, c: nat, end: nat)
    requires GeoOk(g)
    ensures c < Needed(g, end) <==> 512 * SectorCount(g, c) < end
  {
    SectorCountIs(g, c);
    NeededMore(g, c, end);
    assert c * (512 * g.spc) == 512 * (c * g.spc);
  }

  /** Visiting the first `c` clusters of a chain copies as many bytes as the request has. */
  ghost predicate Enough(g: Geo, offset: nat, n: nat, c: nat) { Copied(offset, offset + n, SectorCount(g, c)) >= n }

  lemma EnoughMore(g: Geo, offset: nat, n: nat, c: nat, more: nat)
    requires c <= more && Enough(g, offset, n, c)
    ensures Enough(g, offset, n, more)
  {
    SectorCountMore(g, c, more);
    CopiedMore(offset, offset + n, SectorCount(g, c), SectorCount(g, more));
  }

  /** A request that ends at or before the last sector needs clusters for its end and no
      more. */
  lemma EnoughIsNeeded(g: Geo, offset: nat, n: nat, c: nat)
    requires GeoOk(g) && n > 0 && offset + n <= LAST_SECTOR
    ensures Enough(g, offset, n, c) <==> Needed(g, offset + n) <= c
  {
    var end, sectors := offset + n, SectorCount(g, c);
    ReachesEnd(g, c, end);
    if 512 * sectors < end {
      CopiedFirst(offset, end, sectors);
    } else {
      var m := (end + 511) / 512;
      CopiedFirst(offset, end, m);
      CopiedMore(offset, end, m, sectors);
    }
  }

  /** One that reaches into the last sector is not done before positions have wrapped. */
  lemma EnoughIsMore(g: Geo, offset: nat, n: nat, c: nat)
    requires n > 0 && Enough(g, offset, n, c) && LAST_SECTOR < offset + n < 0x1_0000_0000
    ensures 512 * SectorCount(g, c) > 0x1_0000_0000 && offset < LAST_SECTOR
  {
    var sectors := SectorCount(g, c);
    if offset >= LAST_SECTOR {
      CopiedNothing(offset, offset + n, sectors);
    }
    if sectors <= 0x80_0000 {
      CopiedFirst(offset, offset + n, sectors);
    }
  }

  /** Writing goes on past cluster `i` exactly if the first `i + 1` are not enough. */
  lemma GoesOn(g: Geo, cur: seq<nat>, i: nat, offset: nat, n: nat, at: nat, sectors: nat)
    requires i < |cur| && n > 0 && offset + n < 0x1_0000_0000 && at == Pos(sectors)
    requires offset + n <= LAST_SECTOR ==> 512 * sectors < 0x1_0000_0000
    requires sectors == Base(g, cur, i + 1) || (offset + n <= at && sectors < Base(g, cur, i + 1))
    ensures Enough(g, offset, n, i + 1) <==> Copied(offset, offset + n, sectors) >= n || at >= offset + n
    ensures Enough(g, offset, n, i + 1) && offset + n <= LAST_SECTOR ==>
      Copied(offset, offset + n, sectors) == n && offset + n <= 512 * sectors
    ensures offset + n > LAST_SECTOR ==> sectors == SectorCount(g, i + 1)
  {
    var limit := offset + n;
    BaseIs(g, cur, i + 1);
    PosIs(sectors);
    if limit <= LAST_SECTOR {
      CopiedFirst(offset, limit, sectors);
      CopiedMore(offset, limit, sectors, SectorCount(g, i + 1));
    }
  }

  /** Which clusters a write to a chain of `have` clusters takes of `free` ones: as many as
      bring the chain to the least number that is enough, or all there are. */
  ghost predicate Spent(g: Geo, offset: nat, len: nat, have: nat, free: nat, now: nat, left: nat, ok: bool, used: nat) {
    && (ok <==> Enough(g, offset, len, have + free)) && left + now == free + have
    && (ok ==> 0 < used && now == Max(have, used) && Enough(g, offset, len, used) && !Enough(g, offset, len, used - 1))
    && (!ok ==> left == 0)
  }

  lemma SpentEnough(g: Geo, offset: nat, len: nat, have: nat, free: nat, now: nat, left: nat, used: nat)
    requires 0 < used && now == Max(have, used) && left + now == free + have
    requires Enough(g, offset, len, used) && !Enough(g, offset, len, used - 1)
    ensures Spent(g, offset, len, have, free, now, left, true, used)
  {
    EnoughMore(g, offset, len, used, have + free);
  }

  /** Writes cluster after cluster until as many bytes as the buffer has are copied. */
  method WriteOn(vol: FatVolume, first: nat, offset: nat, buf: seq<Byte>, ghost d0: seq<Block>, ghost phys0: seq<nat>,
                 ghost chains: set<seq<nat>>, ghost ch: seq<nat>, ghost cur0: seq<nat>)
    returns (ok: bool, written: nat, ghost cur: seq<nat>, ghost n: nat, ghost used: nat)
    requires Writing(vol, d0, chains, ch, cur0) && first == cur0[0] && buf != [] && offset + |buf| < 0x1_0000_0000
    requires Grown(d0, phys0, vol.disk, Sectors(vol.geo, cur0), offset, Storable(offset, buf), 0)
    modifies vol
    ensures Writing(vol, d0, chains, ch, cur) && cur0 <= cur
    ensures Spent(vol.geo, offset, |buf|, |cur0|, FreeClusters(vol.geo, old(vol.disk)), |cur|,
                  FreeClusters(vol.geo, vol.disk), ok, used)
    ensures ok && offset + |buf| <= LAST_SECTOR ==> written == |buf| && offset + |buf| <= 512 * n
    ensures ok && offset + |buf| > LAST_SECTOR ==> n == SectorCount(vol.geo, used)
    ensures n <= |Sectors(vol.geo, cur)| && written == Copied(offset, offset + |buf|, n)
    ensures !ok ==> n == |Sectors(vol.geo, cur)|
    ensures Grown(d0, phys0, vol.disk, Sectors(vol.geo, cur), offset, Storable(offset, buf), 512 * n)
  {
    var cluster: nat, at: nat := first, 0;
    ghost var i: nat := 0;
    written, cur := 0, cur0;
    BaseEnds(vol.geo, cur);
    CopiedStep(offset, offset + |buf|, 0);
    while true
      invariant Writing(vol, d0, chains, ch, cur) && cur0 <= cur
      invariant AtCluster(vol, d0, phys0, cur, i, cluster, at, offset, buf, written)
      invariant |cur| == Max(|cur0|, i + 1) && !Enough(vol.geo, offset, |buf|, i)
      invariant FreeClusters(vol.geo, vol.disk) + |cur| == FreeClusters(vol.geo, old(vol.disk)) + |cur0|
      decreases |cur0| + FreeClusters(vol.geo, old(vol.disk)) - i
    {
      var more, next;
      ok, more, written, at, next, cur, n :=
        WriteNext(vol, cluster, offset, buf, written, at, d0, phys0, chains, ch, cur, i);
      if ok {
        SpentEnough(vol.geo, offset, |buf|, |cur0|, FreeClusters(vol.geo, old(vol.disk)), |cur|,
                    FreeClusters(vol.geo, vol.disk), i + 1);
        return true, written, cur, n, i + 1;
      }
      if !more {
        assert Spent(vol.geo, offset, |buf|, |cur0|, FreeClusters(vol.geo, old(vol.disk)), |cur|, 0, false, 0);
        return false, written, cur, n, 0;
      }
      cluster, i := next, i + 1;
    }
  }

  /** Writes to cluster `i` and, unless that was enough, moves on to the next one. */
  method WriteNext(vol: FatVolume, cluster: nat, offset: nat, buf: seq<Byte>, written0: nat, at: nat,
                   ghost d0: seq<Block>, ghost phys0: seq<nat>, ghost chains: set<seq<nat>>, ghost ch: seq<nat>,
                     ghost cur: seq<nat>, ghost i: nat)
    returns (done: bool, more: bool, written: nat, at': nat, next: nat, ghost cur': seq<nat>, ghost n: nat)
    requires Writing(vol, d0, chains, ch, cur) && buf != []
    requires AtCluster(vol, d0, phys0, cur, i, cluster, at, offset, buf, written0)
    modifies vol
    ensures Writing(vol, d0, chains, ch, cur') && cur <= cur'
    ensures FreeClusters(vol.geo, vol.disk) + |cur'| == FreeClusters(vol.geo, old(vol.disk)) + |cur|
    ensures done <==> Enough(vol.geo, offset, |buf|, i + 1)
    ensures done ==> cur' == cur && (offset + |buf| <= LAST_SECTOR ==> written == |buf| && offset + |buf| <= 512 * n)
    ensures done && offset + |buf| > LAST_SECTOR ==> n == SectorCount(vol.geo, i + 1)
    ensures !done && more ==> |cur'| == Max(|cur|, i + 2)
    ensures !done && more ==> AtCluster(vol, d0, phys0, cur', i + 1, next, at', offset, buf, written)
    ensures !done && !more ==> cur' == cur && i + 1 == |cur| && n == |Sectors(vol.geo, cur)|
    ensures !done && !more ==> FreeClusters(vol.geo, vol.disk) == 0
    ensures n <= |Sectors(vol.geo, cur')| && written == Copied(offset, offset + |buf|, n)
    ensures Grown(d0, phys0, vol.disk, Sectors(vol.geo, cur'), offset, Storable(offset, buf), 512 * n)
  {
    WritingFacts(vol, d0, chains, ch, cur);
    ClusterIsAt(vol.geo, cur, i);
    next, cur', more := 0, cur, false;
    written, at', n := WriteHere(vol, cluster, offset, buf, written0, at, d0, phys0, chains, ch, cur, i);
    GoesOn(vol.geo, cur, i, offset, |buf|, at', n);
    BaseGrows(vol.geo, cur, i + 1);
    done := written >= |buf| || at' >= offset + |buf|;
    if done {
      return;
    }
    PosIs(n);
    BaseEnds(vol.geo, cur);
    more, next, cur' := Advance(vol, cluster, offset, Storable(offset, buf), 512 * n, d0, phys0, chains, ch, cur, i);
    if more {
      BaseGrows(vol.geo, cur', i + 1);
    }
  }

  lemma BaseGrows(g: Geo, cur: seq<nat>, i: nat)
    requires i <= |cur|
    ensures Base(g, cur, i) <= |Sectors(g, cur)|
  {
    BaseIs(g, cur, i);
    BaseIs(g, cur, |cur|);
    BaseEnds(g, cur);
    SectorCountMore(g, i, |cur|);
  }

  lemma GrownAny(d0: seq<Block>, phys0: seq<nat>, d: seq<Block>, phys: seq<nat>, offset: nat, buf: seq<Byte>)
    requires Grown(d0, phys0, d, phys, 0, [], 0)
    ensures Grown(d0, phys0, d, phys, offset, buf, 0)
  {}

  /** The sectors of these chains hold what they held. */
  ghost predicate ChainsKept(g: Geo, d: seq<Block>, d': seq<Block>, chains: set<seq<nat>>) {
    |d'| == |d| && forall a, x {:trigger d'[x], Has(chains, a)} :: Has(chains, a) && x in Sectors(g, a) && x < |d| ==>
      d'[x] == d[x]
  }

  lemma ChainsKeptTwice(g: Geo, d0: seq<Block>, d1: seq<Block>, d2: seq<Block>, chains: set<seq<nat>>)
    requires ChainsKept(g, d0, d1, chains) && ChainsKept(g, d1, d2, chains)
    ensures ChainsKept(g, d0, d2, chains)
  {
    forall a, x | Has(chains, a) && x in Sectors(g, a) && x < |d0| ensures d2[x] == d0[x] {
      assert d1[x] == d0[x];
    }
  }
}
