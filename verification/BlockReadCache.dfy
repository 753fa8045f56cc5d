/** The direct-mapped read cache of the block layer (block/blockdev.c), over
    sequential runs of reads, writes and removals. */
module BlockReadCache {
  import opened Bitmap

  const ENTRIES := 1024
  const WORD64 := 0x1_0000_0000_0000_0000

  type Word = w: nat | w < 0x1_0000_0000_0000_0000

  /** Devices by address, sectors by number. */
  type Disks = map<(Word, Word), seq<Byte>>

  datatype Entry = Entry(dev: Word, lba: Word, valid: bool, data: seq<Byte>)

  function Sector(disks: Disks, dev: Word, lba: Word): seq<Byte> {
    if (dev, lba) in disks then disks[(dev, lba)] else []
  }

  function At(lba: Word, k: nat): Word { (lba + k) % WORD64 }

  function Index(dev: Word, lba: Word): (i: nat)
    ensures i < ENTRIES
  {
    var x := lba as bv64;
    ((x ^ (x >> 17) ^ ((dev as bv64) >> 4)) as nat) % ENTRIES
  }

  ghost predicate Fresh(e: Entry, disks: Disks) {
    e.valid ==> e.data == Sector(disks, e.dev, e.lba)
  }

  /** Every valid entry holds what its device's sector holds. */
  ghost predicate Coherent(cache: seq<Entry>, disks: Disks) {
    forall i {:trigger Fresh(cache[i], disks)} :: 0 <= i < |cache| ==> Fresh(cache[i], disks)
  }

  /** The sectors a transfer of `count` sectors at `lba` touches. */
  ghost predicate Touched(lba: Word, count: nat, x: Word) {
    exists k {:trigger At(lba, k)} :: 0 <= k < count && At(lba, k) == x
  }

  /** A range that does not wrap around is an interval. */
  lemma TouchedBounds(lba: Word, count: nat, x: Word)
    requires count < 0x1_0000_0000 && At(lba, count) >= lba
    ensures Touched(lba, count, x) <==> lba <= x < At(lba, count)
  {
    assert lba + count < WORD64;
    if lba <= x < At(lba, count) {
      assert At(lba, x - lba) == x;
    }
  }

  lemma DistinctSectors(lba: Word, k: nat)
    requires k < 0x1_0000_0000
    ensures forall j {:trigger At(lba, j)} :: 0 <= j < k ==> At(lba, j) != At(lba, k)
  {}

  /** Only sectors of the transfer differ. */
  ghost predicate Confined(disks: Disks, disks': Disks, dev: Word, lba: Word, count: nat) {
    forall d: Word, x: Word {:trigger Sector(disks', d, x)} ::
      d != dev || !Touched(lba, count, x) ==> Sector(disks', d, x) == Sector(disks, d, x)
  }

  lemma ConfinedMore(d0: Disks, d1: Disks, d2: Disks, dev: Word, lba: Word, k: nat)
    requires Confined(d0, d1, dev, lba, k)
    requires forall d: Word, x: Word {:trigger Sector(d2, d, x)} :: (d, x) != (dev, At(lba, k)) ==>
      Sector(d2, d, x) == Sector(d1, d, x)
    ensures Confined(d0, d2, dev, lba, k + 1)
  {
    forall d: Word, x: Word | d != dev || !Touched(lba, k + 1, x) ensures Sector(d2, d, x) == Sector(d0, d, x) {
      assert Touched(lba, k, x) ==> Touched(lba, k + 1, x);
      assert At(lba, k) == x ==> Touched(lba, k + 1, x);
      assert Sector(d1, d, x) == Sector(d0, d, x);
    }
  }

  /** All entries are right, except perhaps those of the transfer. */
  ghost predicate CoherentBut(cache: seq<Entry>, disks: Disks, dev: Word, lba: Word, count: nat) {
    forall i {:trigger Fresh(cache[i], disks)} :: 0 <= i < |cache| ==>
      Fresh(cache[i], disks) || (cache[i].dev == dev && Touched(lba, count, cache[i].lba))
  }

  /** An entry after its device's sectors [lba, lba + count) were dropped: all of
      that device's when the range wraps around. */
  ghost function Dropped(e: Entry, dev: Word, lba: Word, count: nat): Entry {
    if e.valid && e.dev == dev && (At(lba, count) < lba || lba <= e.lba < At(lba, count)) then e.(valid := false) else e
  }

  lemma CoherentAfter(cache: seq<Entry>, disks: Disks, disks': Disks, dev: Word, lba: Word, count: nat)
    requires Coherent(cache, disks) && Confined(disks, disks', dev, lba, count)
    ensures CoherentBut(cache, disks', dev, lba, count)
  {
    forall i | 0 <= i < |cache|
      ensures Fresh(cache[i], disks') || (cache[i].dev == dev && Touched(lba, count, cache[i].lba))
    {
      assert Fresh(cache[i], disks);
    }
  }

  ghost predicate IsRead(disks: Disks, dev: Word, lba: Word, out: seq<seq<Byte>>, count: nat) {
    |out| == count && forall k {:trigger out[k]} :: 0 <= k < count ==> out[k] == Sector(disks, dev, At(lba, k))
  }

  ghost predicate Wrote(disks: Disks, disks': Disks, dev: Word, lba: Word, data: seq<seq<Byte>>) {
    && Confined(disks, disks', dev, lba, |data|)
    && forall k {:trigger data[k]} :: 0 <= k < |data| ==> Sector(disks', dev, At(lba, k)) == data[k]
  }

  class BlockLayer {
    const cache: array<Entry>
    var disks: Disks

    ghost predicate Valid()
      reads this, cache
    {
      cache.Length == ENTRIES && Coherent(cache[..], disks)
    }

    /** The cache holds this sector. */
    ghost predicate Caches(dev: Word, lba: Word)
      requires cache.Length == ENTRIES
      reads this, cache
    {
      var e := cache[Index(dev, lba)];
      e.valid && e.dev == dev && e.lba == lba
    }

    constructor (d: Disks)
      ensures Valid() && fresh(cache) && disks == d
    {
      cache := new Entry[ENTRIES](_ => Entry(0, 0, false, []));
      disks := d;
    }

    /** The driver's read: it delivers the sectors, or fails. */
    method DeviceRead(dev: Word, lba: Word, count: nat, works: bool) returns (ok: bool, out: seq<seq<Byte>>)
      ensures ok == works && (ok ==> IsRead(disks, dev, lba, out, count))
    {
      ok, out := works, [];
      if ok {
        var now := disks;
        out := seq(count, k requires 0 <= k => Sector(now, dev, At(lba, k)));
      }
    }

    /** The driver's write: it stores the sectors, or fails and leaves the sectors
        of the transfer in any state. */
    method DeviceWrite(dev: Word, lba: Word, data: seq<seq<Byte>>, works: bool) returns (ok: bool)
      requires |data| < 0x1_0000_0000
      modifies this`disks
      ensures Confined(old(disks), disks, dev, lba, |data|)
      ensures ok == works && (ok ==> Wrote(old(disks), disks, dev, lba, data))
    {
      ok := works;
      ghost var before := disks;
      for k := 0 to |data|
        invariant Confined(before, disks, dev, lba, k)
        invariant ok ==> forall j {:trigger data[j]} :: 0 <= j < k ==> Sector(disks, dev, At(lba, j)) == data[j]
      {
        DistinctSectors(lba, k);
        ghost var was := disks;
        var stored: seq<Byte> := *;
        if ok {
          stored := data[k];
        }
        disks := disks[(dev, At(lba, k)) := stored];
        ConfinedMore(before, was, disks, dev, lba, k);
      }
    }

    /** Reads from the cache if it holds every sector, and otherwise from the
        device, filling or clearing the cache. */
    method Read(dev: Word, lba: Word, count: nat, usable: bool, sectorSized: bool, works: bool)
      returns (ok: bool, out: seq<seq<Byte>>)
      requires Valid() && count < 0x1_0000_0000
      modifies cache
      ensures Valid() && disks == old(disks)
      ensures ok ==> IsRead(disks, dev, lba, out, count) && dev != 0 && count > 0 && usable
      ensures dev != 0 && count > 0 && usable && works ==> ok
    {
      if dev == 0 || count == 0 || !usable {
        return false, [];
      }
      if sectorSized {
        out := ReadCached(dev, lba, count);
        if |out| == count {
          return true, out;
        }
      }
      ok, out := DeviceRead(dev, lba, count, works);
      if ok && sectorSized {
        Fill(dev, lba, count, out);
      } else if !ok && sectorSized {
        InvalidateRange(dev, lba, count);
      }
    }

    /** The leading sectors the cache holds. */
    method ReadCached(dev: Word, lba: Word, count: nat) returns (out: seq<seq<Byte>>)
      requires Valid()
      ensures |out| <= count && IsRead(disks, dev, lba, out, |out|)
    {
      out := [];
      while |out| < count
        invariant |out| <= count && IsRead(disks, dev, lba, out, |out|)
      {
        var entry := cache[Index(dev, At(lba, |out|))];
        assert Fresh(cache[..][Index(dev, At(lba, |out|))], disks);
        if !entry.valid || entry.dev != dev || entry.lba != At(lba, |out|) {
          return;
        }
        out := out + [entry.data];
      }
    }

    method Fill(dev: Word, lba: Word, count: nat, out: seq<seq<Byte>>)
      requires Valid() && IsRead(disks, dev, lba, out, count)
      modifies cache
      ensures Valid()
      ensures count > 0 ==> Caches(dev, At(lba, count - 1))
      ensures forall i :: 0 <= i < ENTRIES && cache[i] != old(cache[i]) ==>
        cache[i].valid && cache[i].dev == dev && Touched(lba, count, cache[i].lba)
    {
      for i := 0 to count
        invariant Valid()
        invariant i > 0 ==> Caches(dev, At(lba, i - 1))
        invariant forall j :: 0 <= j < ENTRIES && cache[j] != old(cache[j]) ==>
          cache[j].valid && cache[j].dev == dev && Touched(lba, count, cache[j].lba)
      {
        assert Touched(lba, count, At(lba, i));
        var at := Index(dev, At(lba, i));
        ghost var before := cache[..];
        cache[at] := Entry(dev, At(lba, i), true, out[i]);
        assert cache[..] == before[at := cache[at]];
        CoherentUpdate(before, disks, at, cache[at]);
      }
    }

    /** Drops the entries of a device that lie in a range, or all of them when the
        range wraps around. */
    method InvalidateRange(dev: Word, lba: Word, count: nat)
      requires cache.Length == ENTRIES && CoherentBut(cache[..], disks, dev, lba, count) && count < 0x1_0000_0000
      modifies cache
      ensures Valid()
      ensures forall i :: 0 <= i < ENTRIES ==> cache[i] == Dropped(old(cache[i]), dev, lba, count)
    {
      var end := At(lba, count);
      for i := 0 to ENTRIES
        invariant forall j :: i <= j < ENTRIES ==> cache[j] == old(cache[j])
        invariant forall j :: 0 <= j < i ==> cache[j] == Dropped(old(cache[j]), dev, lba, count)
      {
        if cache[i].valid && cache[i].dev == dev && (end < lba || (lba <= cache[i].lba < end)) {
          cache[i] := cache[i].(valid := false);
        }
      }
      forall i | 0 <= i < ENTRIES ensures Fresh(cache[..][i], disks) {
        if cache[i].valid {
          assert Fresh(old(cache[..])[i], disks) || (cache[i].dev == dev && Touched(lba, count, cache[i].lba));
          if At(lba, count) >= lba {
            TouchedBounds(lba, count, cache[i].lba);
          }
        }
      }
    }

    /** Writes through and drops what the write may have changed. */
    method Write(dev: Word, lba: Word, data: seq<seq<Byte>>, usable: bool, works: bool) returns (ok: bool)
      requires Valid() && |data| < 0x1_0000_0000
      modifies this`disks, cache
      ensures Valid() && Confined(old(disks), disks, dev, lba, |data|)
      ensures ok <==> dev != 0 && |data| > 0 && usable && works
      ensures ok ==> Wrote(old(disks), disks, dev, lba, data)
    {
      if dev == 0 || |data| == 0 || !usable {
        return false;
      }
      ghost var before := disks;
      ok := DeviceWrite(dev, lba, data, works);
      CoherentAfter(cache[..], before, disks, dev, lba, |data|);
      InvalidateRange(dev, lba, |data|);
    }

    /** Drops every entry of a device when it is unregistered; the next device at
        that address may hold anything. */
    method Unregister(dev: Word, next: Disks)
      requires Valid() && forall d: Word, x: Word {:trigger Sector(next, d, x)} :: d != dev ==>
        Sector(next, d, x) == Sector(disks, d, x)
      modifies this`disks, cache
      ensures Valid() && disks == next
      ensures forall i :: 0 <= i < ENTRIES ==>
        cache[i] == if old(cache[i].valid && cache[i].dev == dev) then old(cache[i]).(valid := false) else old(cache[i])
    {
      for i := 0 to ENTRIES
        invariant Valid() && disks == old(disks)
        invariant forall j :: i <= j < ENTRIES ==> cache[j] == old(cache[j])
        invariant forall j :: 0 <= j < i ==>
          cache[j] == if old(cache[j].valid && cache[j].dev == dev) then old(cache[j]).(valid := false)
            else old(cache[j])
      {
        if cache[i].valid && cache[i].dev == dev {
          ghost var before := cache[..];
          cache[i] := cache[i].(valid := false);
          assert cache[..] == before[i := cache[i]];
          CoherentUpdate(before, disks, i, cache[i]);
        }
      }
      forall i | 0 <= i < ENTRIES ensures Fresh(cache[..][i], next) {
        assert Fresh(cache[..][i], disks);
      }
      disks := next;
    }
  }

  lemma CoherentUpdate(cache: seq<Entry>, disks: Disks, i: nat, e: Entry)
    requires Coherent(cache, disks) && i < |cache| && Fresh(e, disks)
    ensures Coherent(cache[i := e], disks)
  {
    var after := cache[i := e];
    forall j | 0 <= j < |after| ensures Fresh(after[j], disks) {
      assert Fresh(cache[j], disks);
    }
  }

  // ----- runs -----

  datatype Op =
    | ReadOp(dev: Word, lba: Word, count: nat, usable: bool, sectorSized: bool, works: bool)
    | WriteOp(dev: Word, lba: Word, data: seq<seq<Byte>>, usable: bool, works: bool)
    | UnregisterOp(dev: Word, next: seq<(Word, seq<Byte>)>)

  datatype Result = Failed | Done | Got(sectors: seq<seq<Byte>>)

  /** What the devices alone would allow: a read that succeeds delivers their
      sectors and changes nothing; a write changes only its own sectors, and
      stores the data if it succeeds; removal changes only that device. */
  ghost predicate RawStep(d: Disks, op: Op, r: Result, d': Disks) {
    match op
    case ReadOp(dev, lba, count, usable, _, works) =>
      && d' == d && !r.Done? && (r.Got? ==> IsRead(d, dev, lba, r.sectors, count))
      && (dev != 0 && count > 0 && usable && works ==> r.Got?)
    case WriteOp(dev, lba, data, usable, works) =>
      && Confined(d, d', dev, lba, |data|) && !r.Got? && (r.Done? ==> Wrote(d, d', dev, lba, data))
      && (dev != 0 && |data| > 0 && usable && works ==> r.Done?)
    case UnregisterOp(dev, _) =>
      r.Done? && forall x: Word, y: Word {:trigger Sector(d', x, y)} :: x != dev ==> Sector(d', x, y) == Sector(d, x, y)
  }

  /** The contents of a device that takes over address `dev`. */
  function Replaced(d: Disks, dev: Word, next: seq<(Word, seq<Byte>)>): (r: Disks)
    ensures forall x: Word, y: Word {:trigger Sector(r, x, y)} :: x != dev ==> Sector(r, x, y) == Sector(d, x, y)
  {
    if next == [] then d
    else
      var rest := Replaced(d, dev, next[..|next| - 1]);
      var last := next[|next| - 1];
      var all := rest[(dev, last.0) := last.1];
      assert forall x: Word, y: Word {:trigger Sector(all, x, y)} :: x != dev ==>
        Sector(all, x, y) == Sector(rest, x, y);
      all
  }

  /** Every run of reads, writes and removals through the cache is one of the
      devices without it; `trace` is their contents before and after each step. */
  method RunAll(ops: seq<Op>, d: Disks) returns (results: seq<Result>, ghost trace: seq<Disks>)
    requires forall i :: 0 <= i < |ops| ==>
      (ops[i].ReadOp? ==> ops[i].count < 0x1_0000_0000) && (ops[i].WriteOp? ==> |ops[i].data| < 0x1_0000_0000)
    ensures |results| == |ops| && |trace| == |ops| + 1 && trace[0] == d
    ensures forall i :: 0 <= i < |ops| ==> RawStep(trace[i], ops[i], results[i], trace[i + 1])
  {
    var layer := new BlockLayer(d);
    results, trace := [], [d];
    for n := 0 to |ops|
      invariant layer.Valid() && fresh(layer) && fresh(layer.cache)
      invariant |results| == n && |trace| == n + 1 && trace[0] == d && trace[n] == layer.disks
      invariant forall i :: 0 <= i < n ==> RawStep(trace[i], ops[i], results[i], trace[i + 1])
    {
      var r := Apply(layer, ops[n]);
      results, trace := results + [r], trace + [layer.disks];
    }
  }

  method Apply(layer: BlockLayer, op: Op) returns (r: Result)
    requires layer.Valid() && (op.ReadOp? ==> op.count < 0x1_0000_0000) && (op.WriteOp? ==> |op.data| < 0x1_0000_0000)
    modifies layer`disks, layer.cache
    ensures layer.Valid() && RawStep(old(layer.disks), op, r, layer.disks)
  {
    match op
    case ReadOp(dev, lba, count, usable, sectorSized, works) =>
      var ok, out := layer.Read(dev, lba, count, usable, sectorSized, works);
      r := if ok then Got(out) else Failed;
    case WriteOp(dev, lba, data, usable, works) =>
      var ok := layer.Write(dev, lba, data, usable, works);
      r := if ok then Done else Failed;
    case UnregisterOp(dev, next) =>
      layer.Unregister(dev, Replaced(layer.disks, dev, next));
      r := Done;
  }
}
